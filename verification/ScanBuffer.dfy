/** The buffer that carries the conditions of a scan to the storage engine: a scale of half bytes,
    one for each column, and the values behind it. */
module ScanBuffer {
  import opened ByteType
  import opened Expressions
  import opened RowTest
  import opened ScanConditions
  import opened Options

  /** Bitwise OR. */
  function Or(x: nat, y: nat): nat {
    if x == 0 then y else if y == 0 then x
    else (if x % 2 == 1 || y % 2 == 1 then 1 else 0) + 2 * Or(x / 2, y / 2)
  }

  lemma {:induction false} OrCommutes(x: nat, y: nat)
    ensures Or(x, y) == Or(y, x)
  {
    if x != 0 && y != 0 {
      OrCommutes(x / 2, y / 2);
    }
  }

  /** On numbers without a common bit OR is addition. */
  lemma {:induction false} OrShift(l: nat, c: nat, p: nat)
    requires p in {1, 2, 4, 8, 16} && l < p
    ensures Or(l, p * c) == l + p * c
  {
    if p != 1 {
      OrShift(l / 2, c, p / 2);
      Halved(p, c);
    }
  }

  lemma Halved(p: nat, c: nat)
    requires p in {2, 4, 8, 16}
    ensures p * c / 2 == p / 2 * c && p * c % 2 == 0
  {}

  /** The `i`-th half byte; the lower half of a byte comes first. */
  function Nibble(b: seq<Byte>, i: nat): nat
    requires i / 2 < |b|
  {
    if i % 2 == 0 then b[i / 2] % 16 else b[i / 2] / 16
  }

  /** A value with its length before it; of the length two bytes are written. */
  function Field(v: seq<Byte>): seq<Byte> { [|v| % 256, |v| / 256 % 256] + v }

  function Fields(vs: seq<seq<Byte>>): seq<Byte> {
    if vs == [] then [] else Fields(vs[..|vs| - 1]) + Field(vs[|vs| - 1])
  }

  /** How a value is written depends on the type of its column. */
  type Image<!T> = (nat, T) -> seq<Byte>

  /** The bounds of the interval of the column `col` as they are written. */
  function Images<T>(c: SpCond<T>, col: nat, image: Image<T>): (r: seq<seq<Byte>>)
    ensures |r| == |Stored(c)| && forall i :: 0 <= i < |r| ==> r[i] == image(col, Stored(c)[i])
  {
    seq(|Stored(c)|, i requires 0 <= i < |Stored(c)| => image(col, Stored(c)[i]))
  }

  function AllImages<T>(cs: seq<SpCond<T>>, image: Image<T>): seq<seq<Byte>> {
    if cs == [] then []
    else
      var k := |cs| - 1;
      AllImages(cs[..k], image) + Images(cs[k], k, image)
  }

  /** The room that one column is given: both bounds are counted. */
  function Room<T>(c: SpCond<T>, col: nat, image: Image<T>): nat {
    (if c.left.Some? then 2 + |image(col, c.left.value.1)| else 0)
      + if c.right.Some? then 2 + |image(col, c.right.value.1)| else 0
  }

  function Rooms<T>(cs: seq<SpCond<T>>, image: Image<T>): nat {
    if cs == [] then 0
    else
      var k := |cs| - 1;
      Rooms(cs[..k], image) + Room(cs[k], k, image)
  }

  function ScaleBytes(n: nat): nat { n / 2 + 1 }

  /** The first `k` columns are in the buffer. */
  ghost predicate Written<T(!new)>(b: seq<Byte>, cs: seq<SpCond<T>>, k: nat, image: Image<T>)
    requires k <= |cs|
  {
    var j := ScaleBytes(|cs|);
    var fs := Fields(AllImages(cs[..k], image));
    && j + |fs| <= |b| && b[j..j + |fs|] == fs
    && (forall i :: 0 <= i < k ==> Nibble(b, i) == ScaleCode(cs[i]))
    && Nibble(b, |cs|) == ENDSC
  }

  /** ORs `ch` into the lower or the upper half of a byte. */
  method PutAs(buf: array<Byte>, at: nat, ch: nat, how: nat)
    requires at < buf.Length && ch < 16 && how < 2 && Nibble(buf[..], 2 * at + how) == 0
    modifies buf
    ensures buf[at] == old(buf[at]) + if how == 1 then 16 * ch else ch
    ensures Nibble(buf[..], 2 * at + how) == ch
    ensures forall i: nat :: i / 2 < buf.Length && i != 2 * at + how ==> Nibble(buf[..], i) == old(Nibble(buf[..], i))
    ensures forall i :: 0 <= i < buf.Length && i != at ==> buf[i] == old(buf[i])
  {
    hide Or;
    ghost var h, l := buf[at] / 16, buf[at] % 16;
    assert forall i: nat :: i / 2 == at ==> i == 2 * at || i == 2 * at + 1;
    if how == 0 {
      OrShift(ch, h, 16);
      OrCommutes(buf[at], ch);
      Halves(h, ch);
    } else {
      OrShift(l, ch, 16);
      Halves(ch, l);
    }
    buf[at] := Or(buf[at], if how == 1 then 16 * ch else ch);
  }

  lemma Halves(h: nat, l: nat)
    requires h < 16 && l < 16
    ensures 0 <= 16 * h + l < 256 && (16 * h + l) / 16 == h && (16 * h + l) % 16 == l
  {}

  /** Writes a value with its length before it. */
  method DuToBuf(buf: array<Byte>, at: nat, v: seq<Byte>) returns (next: nat)
    requires at + 2 + |v| <= buf.Length
    modifies buf
    ensures next == at + 2 + |v|
    ensures buf[at..next] == Field(v) && buf[at + 2..next] == v
    ensures |v| < 65536 ==> (buf[at] as int) + 256 * (buf[at + 1] as int) == |v|
    ensures forall i :: 0 <= i < buf.Length && !(at <= i < next) ==> buf[i] == old(buf[i])
  {
    buf[at], buf[at + 1] := |v| % 256, |v| / 256 % 256;
    forall i | 0 <= i < |v| {
      buf[at + 2 + i] := v[i];
    }
    next := at + 2 + |v|;
    assert buf[at + 2..next] == v;
    assert buf[at..next] == Field(v);
  }

  lemma FieldsSnoc(vs: seq<seq<Byte>>, v: seq<Byte>)
    ensures Fields(vs + [v]) == Fields(vs) + Field(v)
  {
    assert (vs + [v])[..|vs|] == vs;
  }

  lemma ImagesSnoc<T(!new)>(cs: seq<SpCond<T>>, k: nat, image: Image<T>)
    requires k < |cs|
    ensures AllImages(cs[..k + 1], image) == AllImages(cs[..k], image) + Images(cs[k], k, image)
  {
    assert cs[..k + 1][..k] == cs[..k];
  }

  lemma RoomsSnoc<T(!new)>(cs: seq<SpCond<T>>, k: nat, image: Image<T>)
    requires k < |cs|
    ensures Rooms(cs[..k + 1], image) == Rooms(cs[..k], image) + Room(cs[k], k, image)
  {
    assert cs[..k + 1][..k] == cs[..k];
  }

  lemma {:induction false} RoomsGrow<T(!new)>(cs: seq<SpCond<T>>, k: nat, image: Image<T>)
    requires k <= |cs|
    ensures Rooms(cs[..k], image) <= Rooms(cs, image)
    decreases |cs| - k
  {
    if k == |cs| {
      assert cs[..k] == cs;
    } else {
      RoomsSnoc(cs, k, image);
      RoomsGrow(cs, k + 1, image);
    }
  }

  datatype Result = Error | NotCompatible | Buffer(bytes: array<Byte>)

  ghost function Intervals<T(!new)>(lt: (T, T) -> bool, trees: seq<seq<Predicate<T>>>): seq<SpCond<T>>
    requires forall i :: 0 <= i < |trees| ==> Interval(lt, trees[i]).Bounds?
  {
    seq(|trees|, i requires 0 <= i < |trees| => Interval(lt, trees[i]).c)
  }

  /** The first column without bounds tells how the call ends. */
  ghost predicate EndsWith<T(!new)>(lt: (T, T) -> bool, trees: seq<seq<Predicate<T>>>, o: Outcome<T>) {
    exists k :: 0 <= k < |trees| && Interval(lt, trees[k]) == o
      && forall i :: 0 <= i < k ==> Interval(lt, trees[i]).Bounds?
  }

  lemma {:induction false} ColumnEnds<T(!new)>(lt: (T, T) -> bool, ps: seq<Predicate<T>>, k: nat)
    requires k <= |ps| && !Interval(lt, ps[..k]).Bounds?
    ensures Interval(lt, ps) == Interval(lt, ps[..k])
    decreases |ps| - k
  {
    if k == |ps| {
      assert ps[..k] == ps;
    } else {
      assert ps[..k + 1][..k] == ps[..k];
      ColumnEnds(lt, ps, k + 1);
    }
  }

  /** Takes in the predicates of one column, in the order of their list. */
  method NarrowColumn<T(!new, ==)>(lt: (T, T) -> bool, ps: seq<Predicate<T>>) returns (o: Outcome<T>)
    ensures o == Interval(lt, ps)
  {
    hide Narrow;
    var c: SpCond<T>, k := Empty(), 0;
    while k < |ps|
      invariant 0 <= k <= |ps|
      invariant Interval(lt, ps[..k]) == Bounds(c)
    {
      assert ps[..k + 1][..k] == ps[..k];
      o := Narrow(lt, c, ps[k]);
      if !o.Bounds? {
        ColumnEnds(lt, ps, k + 1);
        return;
      }
      c := o.c;
      k := k + 1;
    }
    assert ps[..k] == ps;
    o := Bounds(c);
  }

  lemma {:induction false} FieldsConcat(us: seq<seq<Byte>>, vs: seq<seq<Byte>>)
    ensures Fields(us + vs) == Fields(us) + Fields(vs)
    decreases |vs|
  {
    hide Field;
    if vs == [] {
      assert us + vs == us;
    } else {
      var ws, v := vs[..|vs| - 1], vs[|vs| - 1];
      FieldsConcat(us, ws);
      assert us + vs == (us + ws) + [v];
      FieldsSnoc(us + ws, v);
      var a, b, f := Fields(us), Fields(ws), Field(v);
      assert a + b + f == a + (b + f);
    }
  }

  lemma FieldsShort(u: seq<Byte>, v: seq<Byte>)
    ensures Fields([]) == [] && Fields([u]) == Field(u) && Fields([u, v]) == Field(u) + Field(v)
  {
    assert [u, v][..1] == [u];
  }

  /** Writes the bounds of one interval behind `at`. */
  method PutBounds<T(!new, ==)>(buf: array<Byte>, at: nat, c: SpCond<T>, col: nat, image: Image<T>)
    returns (next: nat)
    requires at + Room(c, col, image) <= buf.Length
    modifies buf
    ensures at <= next <= at + Room(c, col, image) && buf[at..next] == Fields(Images(c, col, image))
    ensures forall i :: 0 <= i < buf.Length && !(at <= i < next) ==> buf[i] == old(buf[i])
  {
    hide Fields, Field;
    next := at;
    if c.left.Some? {
      next := DuToBuf(buf, next, image(col, c.left.value.1));
    }
    if c.right.Some? && !(c.left.Some? && c.left.value.0 == EQU) {
      ghost var b1, m := buf[..], next;
      next := DuToBuf(buf, next, image(col, c.right.value.1));
      assert buf[at..m] == b1[at..m];
      assert buf[at..next] == buf[at..m] + buf[m..next];
    }
    ImagesAre(c, col, image);
  }

  lemma ImagesAre<T(!new)>(c: SpCond<T>, col: nat, image: Image<T>)
    ensures Fields(Images(c, col, image)) ==
            (if c.left.Some? then Field(image(col, c.left.value.1)) else [])
            + if c.right.Some? && !(c.left.Some? && c.left.value.0 == EQU)
              then Field(image(col, c.right.value.1)) else []
  {
    hide Field, Fields;
    var l := if c.left.Some? then image(col, c.left.value.1) else [];
    var r := if c.right.Some? then image(col, c.right.value.1) else [];
    FieldsShort(l, r);
    FieldsShort(r, r);
    assert Images(c, col, image) ==
           if c.left.None? && c.right.None? then []
           else if c.left.None? then [r]
           else if c.right.None? || c.left.value.0 == EQU then [l]
           else [l, r];
  }

  /** Writes the bounds of one column behind `at` and its code into the scale. */
  method PutColumn<T(!new, ==)>(buf: array<Byte>, at: nat, cs: seq<SpCond<T>>, col: nat, image: Image<T>)
    returns (next: nat)
    requires col < |cs| && |cs| / 2 < buf.Length
    requires Written(buf[..], cs, col, image) && at == ScaleBytes(|cs|) + |Fields(AllImages(cs[..col], image))|
    requires at + Room(cs[col], col, image) <= buf.Length
    requires forall i :: col <= i < |cs| ==> Nibble(buf[..], i) == 0
    modifies buf
    ensures at <= next <= at + Room(cs[col], col, image)
    ensures Written(buf[..], cs, col + 1, image)
    ensures next == ScaleBytes(|cs|) + |Fields(AllImages(cs[..col + 1], image))|
    ensures forall i :: col < i < |cs| ==> Nibble(buf[..], i) == 0
  {
    hide Fields, AllImages, Images, Field, Room, Stored, ScaleCode, Nibble;
    var c, j := cs[col], ScaleBytes(|cs|);
    ghost var b0, fs := buf[..], Fields(AllImages(cs[..col], image));
    ImagesSnoc(cs, col, image);
    FieldsConcat(AllImages(cs[..col], image), Images(c, col, image));
    next := PutBounds(buf, at, c, col, image);
    ghost var b1 := buf[..];
    SameScale(b0, b1, |cs|);
    ScaleCodeFits(c);
    PutAs(buf, col / 2, ScaleCode(c), col % 2);
    ghost var b2 := buf[..];
    assert b2[j..next] == fs + Fields(Images(c, col, image)) by {
      assert b2[j..at] == b0[j..at];
      assert b2[at..next] == b1[at..next];
      assert b2[j..next] == b2[j..at] + b2[at..next];
    }
  }

  lemma SameScale(b0: seq<Byte>, b1: seq<Byte>, n: nat)
    requires ScaleBytes(n) <= |b0| == |b1| && b0[..ScaleBytes(n)] == b1[..ScaleBytes(n)]
    ensures forall i :: 0 <= i <= n ==> Nibble(b1, i) == Nibble(b0, i)
  {
    var j := ScaleBytes(n);
    assert forall k :: 0 <= k < j ==> b0[k] == b0[..j][k] && b1[k] == b1[..j][k];
  }

  /** Narrows one interval for each column and writes all of them to a new buffer. */
  method CondBuf<T(!new, ==)>(lt: (T, T) -> bool, trees: seq<seq<Predicate<T>>>, image: Image<T>)
    returns (res: Result)
    requires trees != []
    ensures res.Error? ==> EndsWith(lt, trees, Failed)
    ensures res.NotCompatible? ==> EndsWith(lt, trees, Incompatible)
    ensures res.Buffer? ==> fresh(res.bytes) && (forall i :: 0 <= i < |trees| ==> Interval(lt, trees[i]).Bounds?)
    ensures res.Buffer? ==>
              var cs := Intervals(lt, trees);
              && res.bytes.Length == ScaleBytes(|cs|) + Rooms(cs, image)
              && Written(res.bytes[..], cs, |cs|, image)
  {
    hide Interval, Rooms, Room, Fields, AllImages, Written, ScaleCode;
    var n := |trees|;
    var sp := new SpCond<T>[n](_ => Empty());
    var size, col := 0, 0;
    assert sp[..0] == [];
    RoomsNone(image);
    while col < n
      invariant 0 <= col <= n
      invariant forall i :: 0 <= i < col ==> Interval(lt, trees[i]) == Bounds(sp[i])
      invariant size == Rooms(sp[..col], image)
    {
      ghost var before := sp[..col];
      var o := NarrowColumn(lt, trees[col]);
      if !o.Bounds? {
        assert EndsWith(lt, trees, o);
        return if o.Failed? then Error else NotCompatible;
      }
      sp[col] := o.c;
      RoomsSnoc(sp[..], col, image);
      assert sp[..][..col + 1] == sp[..col + 1] && sp[..][..col] == sp[..col] == before;
      size := size + Room(sp[col], col, image);
      col := col + 1;
    }
    var cs := sp[..];
    assert sp[..n] == cs;
    assert cs == Intervals(lt, trees);
    var j := ScaleBytes(n);
    size := size + j;
    var buf := new Byte[size](_ => 0);
    PutAs(buf, j - 1, ENDSC, if n == 2 * j - 1 then 1 else 0);
    StartWritten(buf[..], cs, image);
    var at := j;
    col := 0;
    while col < n
      invariant 0 <= col <= n
      invariant at <= j + Rooms(cs[..col], image)
      invariant Written(buf[..], cs, col, image) && at == j + |Fields(AllImages(cs[..col], image))|
      invariant forall i :: col <= i < n ==> Nibble(buf[..], i) == 0
    {
      RoomsSnoc(cs, col, image);
      RoomsGrow(cs, col + 1, image);
      at := PutColumn(buf, at, cs, col, image);
      col := col + 1;
    }
    res := Buffer(buf);
  }

  lemma RoomsNone<T(!new)>(image: Image<T>)
    ensures Rooms([], image) == 0
  {}

  lemma StartWritten<T(!new)>(b: seq<Byte>, cs: seq<SpCond<T>>, image: Image<T>)
    requires ScaleBytes(|cs|) <= |b| && Nibble(b, |cs|) == ENDSC
    ensures Written(b, cs, 0, image) && Fields(AllImages(cs[..0], image)) == [] && Rooms(cs[..0], image) == 0
  {}

  // ---- What the storage engine makes of the buffer ----

  /** The position behind the scale: the half bytes are read up to the end mark. */
  method ValuesStart(b: seq<Byte>, ghost n: nat) returns (at: nat)
    requires n / 2 < |b| && Nibble(b, n) == ENDSC && forall i :: 0 <= i < n ==> Nibble(b, i) != ENDSC
    ensures at == ScaleBytes(n)
  {
    at := 0;
    var st := 1;
    var t: int := -1;
    while t != ENDSC
      invariant 1 <= st <= n + 2 && at == (st - 1) / 2
      invariant t == if st == 1 then -1 else Nibble(b, st - 2)
      decreases n + 2 - st
    {
      t := Nibble(b, st - 1);
      if st % 2 == 0 {
        at := at + 1;
      }
      st := st + 1;
    }
    if st % 2 == 0 {
      at := at + 1;
    }
  }

  /** The next `k` values of the buffer. */
  function ReadFields(b: seq<Byte>, k: nat): Option<seq<seq<Byte>>> {
    if k == 0 then Some([])
    else if |b| < 2 then None
    else
      var len := (b[0] as int) + 256 * (b[1] as int);
      if |b| < 2 + len then None
      else
        var r := ReadFields(b[2 + len..], k - 1);
        if r.None? then None else Some([b[2..2 + len]] + r.value)
  }

  /** Two columns share a byte of the scale, the first in its lower half; the end mark follows the last. */
  lemma ScaleIs<T(!new)>(b: seq<Byte>, cs: seq<SpCond<T>>, image: Image<T>, j: nat)
    requires Written(b, cs, |cs|, image) && 2 * j <= |cs|
    ensures j < |b| && (b[j] as int) % 16 == if 2 * j < |cs| then ScaleCode(cs[2 * j]) else ENDSC
    ensures 2 * j + 1 <= |cs| ==> (b[j] as int) / 16 == if 2 * j + 1 < |cs| then ScaleCode(cs[2 * j + 1]) else ENDSC
  {
    hide Fields, AllImages, ScaleCode;
    assert Nibble(b, 2 * j) == b[j] % 16;
    if 2 * j + 1 <= |cs| {
      assert Nibble(b, 2 * j + 1) == b[j] / 16;
    }
  }

  predicate Short(vs: seq<seq<Byte>>) { forall i :: 0 <= i < |vs| ==> |vs[i]| < 65536 }

  /** Reading the values back, whatever follows them; their lengths must fit in two bytes. */
  lemma {:induction false} FieldsRoundTrip(vs: seq<seq<Byte>>, rest: seq<Byte>)
    requires Short(vs)
    ensures ReadFields(Fields(vs) + rest, |vs|) == Some(vs)
    decreases |vs|
  {
    if vs != [] {
      var v, us := vs[0], vs[1..];
      assert vs == [v] + us;
      FieldsConcat([v], us);
      FieldsShort(v, v);
      var b, tail := Fields(vs) + rest, Fields(us) + rest;
      assert b == Field(v) + tail;
      assert (b[0] as int) + 256 * (b[1] as int) == |v|;
      assert b[2..2 + |v|] == v && b[2 + |v|..] == tail;
      FieldsRoundTrip(us, rest);
    }
  }

  /** The whole buffer: the scale gives back every code, and behind it the values come back in order. */
  lemma BufferRoundTrip<T(!new)>(b: seq<Byte>, cs: seq<SpCond<T>>, image: Image<T>)
    requires Written(b, cs, |cs|, image)
    ensures forall i :: 0 <= i < |cs| ==> Nibble(b, i) == ScaleCode(cs[i]) && Nibble(b, i) != ENDSC
    ensures Nibble(b, |cs|) == ENDSC
    ensures var vs := AllImages(cs, image); Short(vs) ==> ReadFields(b[ScaleBytes(|cs|)..], |vs|) == Some(vs)
  {
    hide Fields, AllImages, ReadFields, ScaleCode, Nibble, Short;
    var j, vs := ScaleBytes(|cs|), AllImages(cs, image);
    var fs := Fields(vs);
    assert cs[..|cs|] == cs;
    assert b[j..] == b[j..j + |fs|] + b[j + |fs|..];
    if Short(vs) {
      FieldsRoundTrip(vs, b[j + |fs|..]);
    }
    forall i | 0 <= i < |cs| ensures Nibble(b, i) != ENDSC { ScaleCodeFits(cs[i]); }
  }
}
