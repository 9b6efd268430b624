/** The test of a row that the storage engine makes on the bytes of the buffer, and when it decides the
    predicates for which the buffer was written. */
module BufferTest {
  import opened ByteType
  import opened Expressions
  import opened RowTest
  import opened ScanBuffer
  import opened ScanConditions
  import opened Options

  /** How bytes are understood depends on the type of the column that reads them. */
  type Reading<!T> = (nat, seq<Byte>) -> T

  // ---- The test on the written values ----

  /** The values in `vs`, as the column `col` understands them. */
  function Seen<T>(vs: seq<seq<Byte>>, col: nat, decode: Reading<T>): (r: seq<T>)
    ensures |r| == |vs| && forall i :: 0 <= i < |r| ==> r[i] == decode(col, vs[i])
  {
    seq(|vs|, i requires 0 <= i < |vs| => decode(col, vs[i]))
  }

  /** The test of the columns `cs`, of which the first has the number `col`, when `vs` is what is left to
      read. */
  function BytesPass<T(!new, ==)>(lt: (T, T) -> bool, cs: seq<SpCond<T>>, col: nat, vs: seq<seq<Byte>>,
                                  row: seq<Option<T>>, decode: Reading<T>): bool
    requires |row| == |cs|
    decreases |cs|
  {
    if cs == [] then true
    else
      var t := ScaleCode(cs[0]);
      if row[0].None? then
        (t == EQUAL_NULL || t == ANY) && BytesPass(lt, cs[1..], col + 1, vs, row[1..], decode)
      else
        var (pass, over) := Fcv(lt, t, Seen(vs, col, decode), row[0].value);
        pass && over <= |vs| && BytesPass(lt, cs[1..], col + 1, vs[over..], row[1..], decode)
  }

  /** What was written for the columns `cs`, of which the first has the number `col`. */
  function FrontImages<T>(cs: seq<SpCond<T>>, col: nat, image: Image<T>): seq<seq<Byte>>
    decreases |cs|
  {
    if cs == [] then [] else Images(cs[0], col, image) + FrontImages(cs[1..], col + 1, image)
  }

  lemma {:induction false} ImagesFront<T(!new)>(cs: seq<SpCond<T>>, ds: seq<SpCond<T>>, image: Image<T>)
    ensures AllImages(cs, image) + FrontImages(ds, |cs|, image) == AllImages(cs + ds, image)
    decreases |ds|
  {
    hide Images, AllImages, FrontImages;
    if ds == [] {
      assert cs + ds == cs;
      FrontNone(ds, |cs|, image);
    } else {
      var es := cs + [ds[0]];
      assert es[..|cs|] == cs && es[..|es|] == es && cs + ds == es + ds[1..];
      ImagesFront(es, ds[1..], image);
      ImagesSnoc(es, |cs|, image);
      FrontStep(ds, |cs|, image);
    }
  }

  lemma FrontNone<T>(cs: seq<SpCond<T>>, col: nat, image: Image<T>)
    requires cs == []
    ensures FrontImages(cs, col, image) == []
  {}

  lemma FrontStep<T>(cs: seq<SpCond<T>>, col: nat, image: Image<T>)
    requires cs != []
    ensures FrontImages(cs, col, image) == Images(cs[0], col, image) + FrontImages(cs[1..], col + 1, image)
  {}

  lemma AllIsFront<T(!new)>(cs: seq<SpCond<T>>, image: Image<T>)
    ensures AllImages(cs, image) == FrontImages(cs, 0, image)
  {
    hide Images, FrontImages;
    var none: seq<SpCond<T>> := [];
    assert AllImages(none, image) == [];
    hide AllImages;
    ImagesFront(none, cs, image);
    assert none + cs == cs;
  }

  // ---- The test on the bytes ----

  /** The bytes from `at` on begin with the values `vs`. */
  predicate ValuesAt(b: seq<Byte>, at: nat, vs: seq<seq<Byte>>) { at <= |b| && Fields(vs) <= b[at..] }

  lemma HeadValue(b: seq<Byte>, vs: seq<seq<Byte>>)
    requires vs != [] && Fields(vs) <= b
    ensures Field(vs[0]) <= b && Fields(vs[1..]) <= b[|Field(vs[0])|..]
  {
    hide Field, Fields;
    var v, us := vs[0], vs[1..];
    assert vs == [v] + us;
    FieldsConcat([v], us);
    FieldsShort(v, v);
    assert Field(v) + Fields(us) <= b;
  }

  lemma FrontValue(b: seq<Byte>, at: nat, vs: seq<seq<Byte>>)
    requires vs != [] && |vs[0]| < 65536 && ValuesAt(b, at, vs)
    ensures var v := vs[0];
            && at + 2 + |v| <= |b| && (b[at] as int) + 256 * (b[at + 1] as int) == |v|
            && b[at + 2..at + 2 + |v|] == v && ValuesAt(b, at + 2 + |v|, vs[1..])
  {
    hide Fields;
    var v, rest := vs[0], b[at..];
    HeadValue(rest, vs);
    assert rest[..2 + |v|] == Field(v);
    assert b[at] == rest[0] && b[at + 1] == rest[1] && b[at + 2..at + 2 + |v|] == rest[2..2 + |v|];
    assert b[at + 2 + |v|..] == rest[2 + |v|..];
  }

  /** The next value of the buffer and the place behind it. */
  method ReadValue(b: seq<Byte>, at: nat, ghost vs: seq<seq<Byte>>) returns (v: seq<Byte>, next: nat)
    requires vs != [] && |vs[0]| < 65536 && ValuesAt(b, at, vs)
    ensures v == vs[0] && ValuesAt(b, next, vs[1..])
  {
    FrontValue(b, at, vs);
    next := at + 2 + ((b[at] as int) + 256 * (b[at + 1] as int));
    v := b[at + 2..next];
  }

  /** The number of values that a code may read. */
  function Reads(t: nat): nat { if t in {ANY, NOT_NULL, EQUAL_NULL} then 0 else if TwoSided(t) then 2 else 1 }

  lemma StoredReads<T>(c: SpCond<T>)
    ensures |Stored(c)| == Reads(ScaleCode(c))
  {}

  /** Compares a value that is not NULL with the next values of the buffer. A condition `is NULL` fails
      whatever they are. */
  method TestValue<T(!new, ==)>(lt: (T, T) -> bool, t: nat, b: seq<Byte>, at: nat, x: T, col: nat,
                                decode: Reading<T>, ghost vs: seq<seq<Byte>>)
    returns (pass: bool, next: nat)
    requires Short(vs) && ValuesAt(b, at, vs) && Reads(t) <= |vs|
    ensures var r := Fcv(lt, t, Seen(vs, col, decode), x);
            pass == r.0 && (pass ==> r.1 <= Reads(t) && ValuesAt(b, next, vs[r.1..]))
  {
    hide ValuesAt;
    next := at;
    if t == ANY || t == NOT_NULL {
      assert vs[0..] == vs;
      return true, at;
    }
    if t == EQUAL_NULL {
      return false, at;
    }
    var v;
    v, next := ReadValue(b, next, vs);
    var w := decode(col, v);
    if x == w {
      pass := t in {EQ, SES, SESE, SMLEQ, GRTEQ};
    } else if lt(w, x) {
      if TwoSided(t) {
        v, next := ReadValue(b, next, vs[1..]);
        assert vs[1..][1..] == vs[2..];
        w := decode(col, v);
        pass := if x == w then t == SSE || t == SESE else lt(x, w);
      } else {
        pass := t == GRT || t == GRTEQ;
      }
    } else {
      pass := t == SML || t == SMLEQ;
    }
  }

  lemma WrittenValues<T(!new)>(b: seq<Byte>, cs: seq<SpCond<T>>, image: Image<T>)
    requires Written(b, cs, |cs|, image)
    ensures ValuesAt(b, ScaleBytes(|cs|), FrontImages(cs, 0, image))
  {
    hide Fields, FrontImages, AllImages, Nibble, ScaleCode;
    AllIsFront(cs, image);
    assert cs[..|cs|] == cs;
    var j, fs := ScaleBytes(|cs|), Fields(AllImages(cs, image));
    assert b[j..][..|fs|] == b[j..j + |fs|];
  }

  /** The engine's test of a row on the bytes of the buffer: it looks for the values behind the scale and then
      goes through both. */
  method RowPasses<T(!new, ==)>(lt: (T, T) -> bool, b: seq<Byte>, row: seq<Option<T>>, decode: Reading<T>,
                                ghost cs: seq<SpCond<T>>, ghost image: Image<T>)
    returns (ok: bool)
    requires Written(b, cs, |cs|, image) && |row| == |cs| && Short(FrontImages(cs, 0, image))
    ensures ok == BytesPass(lt, cs, 0, FrontImages(cs, 0, image), row, decode)
  {
    hide Fields, AllImages, ValuesAt, Fcv, Reads, ScaleCode, Stored, Nibble, Seen;
    ghost var vs := FrontImages(cs, 0, image);
    WrittenValues(b, cs, image);
    BufferRoundTrip(b, cs, image);
    var at := ValuesStart(b, |cs|);
    var n := 0;
    assert cs[0..] == cs && row[0..] == row;
    while n < |row| && Nibble(b, n) != ENDSC
      invariant 0 <= n <= |row|
      invariant ValuesAt(b, at, vs) && Short(vs) && |FrontImages(cs[n..], n, image)| <= |vs|
      invariant BytesPass(lt, cs, 0, FrontImages(cs, 0, image), row, decode)
                == BytesPass(lt, cs[n..], n, vs, row[n..], decode)
    {
      var t, x := Nibble(b, n), row[n];
      assert cs[n..][1..] == cs[n + 1..] && row[n..][1..] == row[n + 1..];
      if x.None? {
        if t != EQUAL_NULL && t != ANY {
          return false;
        }
      } else {
        StoredReads(cs[n]);
        var pass, next := TestValue(lt, t, b, at, x.value, n, decode, vs);
        if !pass {
          return false;
        }
        vs := vs[Fcv(lt, t, Seen(vs, n, decode), x.value).1..];
        at := next;
      }
      n := n + 1;
    }
    ok := true;
  }

  // ---- When it is right ----

  /** Every column, the first with the number `col`, understands its own bounds. */
  ghost predicate OwnLegible<T(!new)>(cs: seq<SpCond<T>>, col: nat, image: Image<T>, decode: Reading<T>) {
    forall k, v :: 0 <= k < |cs| && v in Stored(cs[k]) ==> decode(col + k, image(col + k, v)) == v
  }

  /** It also understands what a column before it has written, as far as both have the same bound. */
  ghost predicate AllLegible<T(!new)>(cs: seq<SpCond<T>>, col: nat, image: Image<T>, decode: Reading<T>) {
    forall i, k, v :: 0 <= i <= k < |cs| && v in Stored(cs[i]) && v in Stored(cs[k])
                      ==> decode(col + k, image(col + i, v)) == v
  }

  /** That matters only if a bound can be left unread. */
  ghost predicate Legible<T(!new)>(cs: seq<SpCond<T>>, col: nat, image: Image<T>, decode: Reading<T>) {
    && OwnLegible(cs, col, image, decode)
    && ((exists k :: 0 <= k < |cs| && ClosedTwoSided(cs[k])) ==> AllLegible(cs, col, image, decode))
  }

  /** One column of the row, if it understands its own bounds when these come first. */
  lemma BytesStep<T(!new)>(lt: (T, T) -> bool, cs: seq<SpCond<T>>, col: nat, vs: seq<seq<Byte>>, row: seq<Option<T>>,
                           decode: Reading<T>)
    requires Linear(lt) && |row| == |cs| && cs != [] && Proper(lt, cs[0])
    requires Stored(cs[0]) <= Seen(vs, col, decode)
    ensures var c, x, p := cs[0], row[0], BytesPass(lt, cs, col, vs, row, decode);
            && (!Accepts(lt, c, x) ==> !p)
            && (Accepts(lt, c, x) && !LeavesBound(c, x) ==>
                  p == BytesPass(lt, cs[1..], col + 1, vs[|Stored(c)|..], row[1..], decode))
            && (LeavesBound(c, x) ==>
                  |vs| > 0 && p == BytesPass(lt, cs[1..], col + 1, vs[1..], row[1..], decode))
  {
    hide Linear, Proper, Accepts, ScaleCode, LeavesBound, Fcv, Stored;
    var c, x, seen := cs[0], row[0], Seen(vs, col, decode);
    var rest := seen[|Stored(c)|..];
    assert seen == Stored(c) + rest;
    OneColumn(lt, c, x, rest);
    if LeavesBound(c, x) {
      BoundLeft(lt, c, x, rest);
    } else if x.None? && Accepts(lt, c, x) {
      assert vs[0..] == vs;
    }
  }

  lemma NoColumns<T(!new)>(lt: (T, T) -> bool, cs: seq<SpCond<T>>, col: nat, vs: seq<seq<Byte>>, row: seq<Option<T>>,
                           decode: Reading<T>)
    requires cs == [] && row == []
    ensures BytesPass(lt, cs, col, vs, row, decode) && AcceptsRow(lt, cs, row)
  {}

  lemma AllLegibleTail<T(!new)>(cs: seq<SpCond<T>>, col: nat, image: Image<T>, decode: Reading<T>)
    requires cs != [] && AllLegible(cs, col, image, decode)
    ensures AllLegible(cs[1..], col + 1, image, decode)
  {
    hide Stored;
    var ds := cs[1..];
    forall i, k, v | 0 <= i <= k < |ds| && v in Stored(ds[i]) && v in Stored(ds[k])
      ensures decode(col + 1 + k, image(col + 1 + i, v)) == v
    {
      assert ds[i] == cs[i + 1] && ds[k] == cs[k + 1];
      assert decode(col + (k + 1), image(col + (i + 1), v)) == v;
    }
  }

  lemma LegibleTail<T(!new)>(cs: seq<SpCond<T>>, col: nat, image: Image<T>, decode: Reading<T>)
    requires cs != [] && Legible(cs, col, image, decode)
    ensures Legible(cs[1..], col + 1, image, decode)
  {
    hide Stored, AllLegible, ClosedTwoSided;
    var ds := cs[1..];
    forall k, v | 0 <= k < |ds| && v in Stored(ds[k])
      ensures decode(col + 1 + k, image(col + 1 + k, v)) == v
    {
      assert ds[k] == cs[k + 1];
      assert decode(col + (k + 1), image(col + (k + 1), v)) == v;
    }
    if k :| 0 <= k < |ds| && ClosedTwoSided(ds[k]) {
      assert ClosedTwoSided(cs[k + 1]);
      AllLegibleTail(cs, col, image, decode);
    }
  }

  /** The bytes `w` of a left-over bound `b` in front of columns that read no other value do no harm. */
  lemma {:induction false} LeftOverBytes<T(!new)>(lt: (T, T) -> bool, cs: seq<SpCond<T>>, col: nat, b: T, w: seq<Byte>,
                                                  row: seq<Option<T>>, image: Image<T>, decode: Reading<T>)
    requires Linear(lt) && |row| == |cs| && forall c <- cs :: Proper(lt, c) && Fitting(c, b)
    requires AllLegible(cs, col, image, decode)
    requires forall k :: 0 <= k < |cs| && Stored(cs[k]) == [b] ==> decode(col + k, w) == b
    ensures BytesPass(lt, cs, col, [w] + FrontImages(cs, col, image), row, decode) <==> AcceptsRow(lt, cs, row)
    decreases |cs|
  {
    hide Linear, Proper, Accepts, BytesPass, AcceptsRow, LeavesBound, AllLegible, FrontImages, Seen;
    if cs == [] {
      NoColumns(lt, cs, col, [w] + FrontImages(cs, col, image), row, decode);
    } else {
      var c, ds := cs[0], cs[1..];
      var vs := [w] + FrontImages(cs, col, image);
      var w' := if Stored(c) == [] then w else image(col, b);
      assert Stored(c) == [b] ==> decode(col + 0, w) == b;
      LeftFirst(cs, col, b, w, image, decode);
      BytesStep(lt, cs, col, vs, row, decode);
      AcceptsStep(lt, cs, row);
      OneBound(c, b, row[0]);
      AllLegibleTail(cs, col, image, decode);
      forall k | 0 <= k < |ds| && Stored(ds[k]) == [b]
        ensures decode(col + 1 + k, w') == b
      {
        LeftLegible(cs, col, b, w, image, decode, k + 1);
      }
      LeftOverBytes(lt, ds, col + 1, b, w', row[1..], image, decode);
    }
  }

  lemma LeftFirst<T(!new)>(cs: seq<SpCond<T>>, col: nat, b: T, w: seq<Byte>, image: Image<T>, decode: Reading<T>)
    requires cs != [] && Fitting(cs[0], b) && (Stored(cs[0]) == [b] ==> decode(col, w) == b)
    ensures var vs, c := [w] + FrontImages(cs, col, image), cs[0];
            && Stored(c) <= Seen(vs, col, decode)
            && vs[|Stored(c)|..] ==
               [if Stored(c) == [] then w else image(col, b)] + FrontImages(cs[1..], col + 1, image)
  {
    hide FrontImages, Stored, Images, Seen;
    FrontStep(cs, col, image);
    Shift(w, Images(cs[0], col, image), FrontImages(cs[1..], col + 1, image));
  }

  lemma Shift<A>(w: A, own: seq<A>, more: seq<A>)
    requires |own| <= 1
    ensures ([w] + (own + more))[|own|..] == [if own == [] then w else own[0]] + more
  {}

  lemma LeftLegible<T(!new)>(cs: seq<SpCond<T>>, col: nat, b: T, w: seq<Byte>, image: Image<T>, decode: Reading<T>,
                             k: nat)
    requires AllLegible(cs, col, image, decode) && 0 < k < |cs| && Stored(cs[k]) == [b] && Fitting(cs[0], b)
    requires decode(col + k, w) == b
    ensures decode(col + k, if Stored(cs[0]) == [] then w else image(col, b)) == b
  {
    hide Stored;
    if Stored(cs[0]) == [b] {
      assert b in Stored(cs[0]) && b in Stored(cs[k]);
      assert decode(col + k, image(col + 0, b)) == b;
    }
  }

  /** Reading the bytes that were written for readable and legible intervals, the engine accepts exactly the
      rows that all of them accept. */
  lemma {:induction false} BytesExact<T(!new)>(lt: (T, T) -> bool, cs: seq<SpCond<T>>, col: nat, row: seq<Option<T>>,
                                               image: Image<T>, decode: Reading<T>)
    requires Linear(lt) && |row| == |cs| && (forall c <- cs :: Proper(lt, c)) && Readable(cs)
    requires Legible(cs, col, image, decode)
    ensures BytesPass(lt, cs, col, FrontImages(cs, col, image), row, decode) <==> AcceptsRow(lt, cs, row)
    decreases |cs|
  {
    hide Linear, Proper, Accepts, BytesPass, AcceptsRow, LeavesBound, Legible, AllLegible, Readable, Stored;
    hide FrontImages, Seen, Fitting;
    if cs == [] {
      NoColumns(lt, cs, col, FrontImages(cs, col, image), row, decode);
    } else {
      var c, ds := cs[0], cs[1..];
      var vs, more := FrontImages(cs, col, image), FrontImages(ds, col + 1, image);
      OwnFirst(cs, col, image, decode);
      BytesStep(lt, cs, col, vs, row, decode);
      AcceptsStep(lt, cs, row);
      if LeavesBound(c, row[0]) {
        AcceptsEnd(lt, c, row[0]);
        BoundBehind(lt, cs, col, row, image, decode);
        LeftOverBytes(lt, ds, col + 1, c.right.value.1, image(col, c.right.value.1), row[1..], image, decode);
      } else {
        LegibleTail(cs, col, image, decode);
        assert Readable(ds) by { ReadableTail(cs); }
        BytesExact(lt, ds, col + 1, row[1..], image, decode);
      }
    }
  }

  lemma ReadableTail<T>(cs: seq<SpCond<T>>)
    requires cs != [] && Readable(cs)
    ensures Readable(cs[1..])
  {
    hide Fitting;
    var ds := cs[1..];
    forall i, k | 0 <= i < k < |ds| && ClosedTwoSided(ds[i])
      ensures Fitting(ds[k], ds[i].right.value.1)
    {
      assert ds[i] == cs[i + 1] && ds[k] == cs[k + 1];
    }
  }

  lemma OwnFirst<T(!new)>(cs: seq<SpCond<T>>, col: nat, image: Image<T>, decode: Reading<T>)
    requires cs != [] && Legible(cs, col, image, decode)
    ensures var vs := FrontImages(cs, col, image);
            && Stored(cs[0]) <= Seen(vs, col, decode)
            && vs[|Stored(cs[0])|..] == FrontImages(cs[1..], col + 1, image)
  {
    hide AllLegible, ClosedTwoSided, Stored;
    var vs, own := FrontImages(cs, col, image), Stored(cs[0]);
    assert vs == Images(cs[0], col, image) + FrontImages(cs[1..], col + 1, image);
    forall i | 0 <= i < |own|
      ensures Seen(vs, col, decode)[i] == own[i]
    {
      assert own[i] in own;
      assert decode(col + 0, image(col + 0, own[i])) == own[i];
    }
  }

  lemma Second<A>(two: seq<A>, more: seq<A>)
    requires |two| == 2
    ensures (two + more)[1..] == [two[1]] + more
  {}

  /** What follows when the lower bound is met and the upper one left. */
  lemma BoundBehind<T(!new)>(lt: (T, T) -> bool, cs: seq<SpCond<T>>, col: nat, row: seq<Option<T>>, image: Image<T>,
                             decode: Reading<T>)
    requires cs != [] && |row| == |cs| && Proper(lt, cs[0]) && LeavesBound(cs[0], row[0])
    requires Readable(cs) && Legible(cs, col, image, decode)
    ensures var b, ds := cs[0].right.value.1, cs[1..];
            && FrontImages(cs, col, image) != []
            && FrontImages(cs, col, image)[1..] == [image(col, b)] + FrontImages(ds, col + 1, image)
            && (forall d <- ds :: Fitting(d, b)) && AllLegible(ds, col + 1, image, decode)
            && (forall k :: 0 <= k < |ds| && Stored(ds[k]) == [b] ==> decode(col + 1 + k, image(col, b)) == b)
  {
    var c, ds := cs[0], cs[1..];
    var b := c.right.value.1;
    assert Stored(c) == [c.left.value.1, b];
    assert ClosedTwoSided(c);
    hide Stored, Fitting, ClosedTwoSided, Proper;
    hide FrontImages, Images;
    FrontStep(cs, col, image);
    Second(Images(c, col, image), FrontImages(ds, col + 1, image));
    assert ClosedTwoSided(cs[0]);
    AllLegibleTail(cs, col, image, decode);
    forall d | d in ds
      ensures Fitting(d, b)
    {
      var k :| 0 <= k < |ds| && ds[k] == d;
      assert cs[k + 1] == d;
    }
    forall k | 0 <= k < |ds| && Stored(ds[k]) == [b]
      ensures decode(col + 1 + k, image(col, b)) == b
    {
      assert ds[k] == cs[k + 1] && b in Stored(cs[0]) && b in Stored(cs[k + 1]);
      assert decode(col + (k + 1), image(col + 0, b)) == b;
    }
  }

  // ---- From the predicates to the answer of the engine ----

  /** Every predicate of every column is TRUE of the row. */
  predicate SatisfiesRow<T(==)>(lt: (T, T) -> bool, trees: seq<seq<Predicate<T>>>, row: seq<Option<T>>)
    requires |row| == |trees|
  {
    forall i :: 0 <= i < |trees| ==> SatisfiesAll(lt, trees[i], row[i])
  }

  predicate AllSimple<T(==)>(trees: seq<seq<Predicate<T>>>) { forall ps <- trees, p <- ps :: Simple(p) }

  ghost predicate AllBounds<T(!new)>(lt: (T, T) -> bool, trees: seq<seq<Predicate<T>>>) {
    forall i :: 0 <= i < |trees| ==> Interval(lt, trees[i]).Bounds?
  }

  predicate Constants<T(==)>(ps: seq<Predicate<T>>, v: T) { exists p <- ps :: p.Comparison? && p.c == Known(v) }

  predicate HasCode<T(==)>(ps: seq<Predicate<T>>, codes: set<Code>) {
    exists p <- ps :: p.Comparison? && p.code in codes
  }

  /** Every column understands its own constants, whose bytes have a length of two bytes. */
  ghost predicate OwnCoded<T(!new)>(trees: seq<seq<Predicate<T>>>, image: Image<T>, decode: Reading<T>) {
    forall k, v :: 0 <= k < |trees| && Constants(trees[k], v) ==> |image(k, v)| < 65536 && decode(k, image(k, v)) == v
  }

  /** It also understands the bytes of an earlier column with the same constant. */
  ghost predicate AllCoded<T(!new)>(trees: seq<seq<Predicate<T>>>, image: Image<T>, decode: Reading<T>) {
    forall i, k, v :: 0 <= i <= k < |trees| && Constants(trees[i], v) && Constants(trees[k], v)
                      ==> decode(k, image(i, v)) == v
  }

  /** That matters only if some column has both a `>=` and a `<=` or `<`. */
  ghost predicate Coded<T(!new)>(trees: seq<seq<Predicate<T>>>, image: Image<T>, decode: Reading<T>) {
    && OwnCoded(trees, image, decode)
    && ((exists k :: 0 <= k < |trees| && HasCode(trees[k], {GE}) && HasCode(trees[k], {LE, LT}))
        ==> AllCoded(trees, image, decode))
  }

  lemma StoredGiven<T(!new)>(lt: (T, T) -> bool, ps: seq<Predicate<T>>, c: SpCond<T>)
    requires Interval(lt, ps) == Bounds(c) && forall p <- ps :: Simple(p)
    ensures forall v <- Stored(c) :: Constants(ps, v)
    ensures ClosedTwoSided(c) ==> HasCode(ps, {GE}) && HasCode(ps, {LE, LT})
  {
    hide Interval;
    BoundsFrom(lt, ps);
  }

  /** If the constants are coded, the bounds of the intervals are legible. */
  lemma CodedLegible<T(!new)>(lt: (T, T) -> bool, trees: seq<seq<Predicate<T>>>, image: Image<T>, decode: Reading<T>)
    requires AllSimple(trees) && AllBounds(lt, trees) && Coded(trees, image, decode)
    ensures var cs := Intervals(lt, trees); Legible(cs, 0, image, decode) && Short(FrontImages(cs, 0, image))
  {
    hide Interval, Stored, Constants, HasCode, Simple, ClosedTwoSided, FrontImages;
    var cs := Intervals(lt, trees);
    forall k | 0 <= k < |cs|
      ensures forall v <- Stored(cs[k]) :: Constants(trees[k], v)
      ensures ClosedTwoSided(cs[k]) ==> HasCode(trees[k], {GE}) && HasCode(trees[k], {LE, LT})
    {
      StoredGiven(lt, trees[k], cs[k]);
    }
    ShortImages(cs, 0, image);
  }

  lemma {:induction false} ShortImages<T(!new)>(cs: seq<SpCond<T>>, col: nat, image: Image<T>)
    requires forall k, v :: 0 <= k < |cs| && v in Stored(cs[k]) ==> |image(col + k, v)| < 65536
    ensures Short(FrontImages(cs, col, image))
    decreases |cs|
  {
    hide Stored;
    if cs != [] {
      var ds := cs[1..];
      forall k, v | 0 <= k < |ds| && v in Stored(ds[k])
        ensures |image(col + 1 + k, v)| < 65536
      {
        assert v in Stored(cs[k + 1]);
        assert |image(col + (k + 1), v)| < 65536;
      }
      ShortImages(ds, col + 1, image);
      forall i | 0 <= i < |Stored(cs[0])|
        ensures |Images(cs[0], col, image)[i]| < 65536
      {
        assert Stored(cs[0])[i] in Stored(cs[0]);
        assert |image(col + 0, Stored(cs[0])[i])| < 65536;
      }
    }
  }

  /** On readable intervals the test of the bounds decides the predicates. */
  lemma PassesMeans<T(!new)>(lt: (T, T) -> bool, trees: seq<seq<Predicate<T>>>, row: seq<Option<T>>)
    requires Linear(lt) && AllSimple(trees) && AllBounds(lt, trees) && Readable(Intervals(lt, trees))
    requires |row| == |trees|
    ensures var cs := Intervals(lt, trees); Passes(lt, cs, FrontStored(cs), row) <==> SatisfiesRow(lt, trees, row)
  {
    hide Linear, Interval, Accepts, Passes, FrontStored, SatisfiesAll, Readable, Proper;
    var cs := Intervals(lt, trees);
    forall i | 0 <= i < |trees|
      ensures Proper(lt, cs[i]) && (Accepts(lt, cs[i], row[i]) <==> SatisfiesAll(lt, trees[i], row[i]))
    {
      ColumnProper(lt, trees[i]);
      ColumnExact(lt, trees[i], row[i]);
    }
    ReadableExact(lt, cs, row);
  }

  /** If the constants are coded too, so does the test of the bytes. */
  lemma BytesMean<T(!new)>(lt: (T, T) -> bool, trees: seq<seq<Predicate<T>>>, row: seq<Option<T>>, image: Image<T>,
                           decode: Reading<T>)
    requires Linear(lt) && AllSimple(trees) && AllBounds(lt, trees) && Readable(Intervals(lt, trees))
    requires |row| == |trees| && Coded(trees, image, decode)
    ensures var cs := Intervals(lt, trees);
            BytesPass(lt, cs, 0, FrontImages(cs, 0, image), row, decode) <==> SatisfiesRow(lt, trees, row)
  {
    hide Linear, Interval, Accepts, Passes, FrontStored, SatisfiesRow, Readable, Proper, Coded, BytesPass, FrontImages;
    hide Legible, AcceptsRow;
    var cs := Intervals(lt, trees);
    forall i | 0 <= i < |trees|
      ensures Proper(lt, cs[i])
    {
      ColumnProper(lt, trees[i]);
    }
    CodedLegible(lt, trees, image, decode);
    BytesExact(lt, cs, 0, row, image, decode);
    ReadableExact(lt, cs, row);
    PassesMeans(lt, trees, row);
  }

  /** Incompatible columns are satisfied by no row, and failing ones have a failing comparison. */
  lemma EndsMean<T(!new)>(lt: (T, T) -> bool, trees: seq<seq<Predicate<T>>>, row: seq<Option<T>>)
    requires Linear(lt) && AllSimple(trees) && |row| == |trees|
    ensures EndsWith(lt, trees, Incompatible) ==> !SatisfiesRow(lt, trees, row)
    ensures EndsWith(lt, trees, Failed) ==> exists ps <- trees, p <- ps :: p.Comparison? && p.c.Fault?
  {
    hide Linear, Interval, SatisfiesAll;
    forall i | 0 <= i < |trees|
      ensures Interval(lt, trees[i]).Incompatible? ==> !SatisfiesAll(lt, trees[i], row[i])
      ensures Interval(lt, trees[i]).Failed? ==> exists p <- trees[i] :: p.Comparison? && p.c.Fault?
    {
      ColumnExact(lt, trees[i], row[i]);
    }
  }

  /** The conditions of a scan written by one side and a row tested by the other: unless a value of the
      conditions cannot be computed, the row passes if and only if all predicates are TRUE of it. */
  method TestRow<T(!new, ==)>(lt: (T, T) -> bool, trees: seq<seq<Predicate<T>>>, row: seq<Option<T>>, image: Image<T>,
                              decode: Reading<T>)
    returns (res: ScanBuffer.Result, ok: bool)
    requires Linear(lt) && AllSimple(trees) && trees != [] && |row| == |trees| && Coded(trees, image, decode)
    requires AllBounds(lt, trees) ==> Readable(Intervals(lt, trees))
    ensures res.Error? ==> exists ps <- trees, p <- ps :: p.Comparison? && p.c.Fault?
    ensures !res.Error? ==> (ok <==> SatisfiesRow(lt, trees, row))
  {
    hide Linear, Interval, AllSimple, SatisfiesRow, EndsWith, Readable, Written, Coded, BytesPass, FrontImages;
    res := CondBuf(lt, trees, image);
    ok := false;
    EndsMean(lt, trees, row);
    if res.Buffer? {
      BytesMean(lt, trees, row, image, decode);
      CodedLegible(lt, trees, image, decode);
      ok := RowPasses(lt, res.bytes[..], row, decode, Intervals(lt, trees), image);
    }
  }
}
