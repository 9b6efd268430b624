/** The rows of a table against the conditions of its scan, by the bytes that are handed to the storage
    engine: numbers of four bytes and strings. */
module TableTest {
  import opened ByteType
  import opened Expressions
  import opened Program
  import opened Interp
  import opened Answers
  import opened ScanConditions
  import opened BufferTest
  import opened RowTest

  // ---- How values of columns are written ----

  datatype ColumnType = LongColumn | TextColumn

  const WORD := 0x1_0000_0000

  /** A number modulo 2^32, the lowest byte first. */
  function FourBytes(n: int): seq<Byte> {
    var m := n % WORD;
    [m % 256, m / 256 % 256, m / 65536 % 256, m / 16777216]
  }

  /** Four bytes as a number with a sign. */
  function FromBytes(b: seq<Byte>): int
    requires |b| == 4
  {
    var m := (b[0] as int) + 256 * (b[1] as int) + 65536 * (b[2] as int) + 16777216 * (b[3] as int);
    if m < WORD / 2 then m else m - WORD
  }

  lemma Digits(m: nat)
    requires m < WORD
    ensures m == m % 256 + 256 * (m / 256 % 256) + 65536 * (m / 65536 % 256) + 16777216 * (m / 16777216)
  {
    var a, b := m / 256, m / 65536;
    assert m == 256 * a + m % 256;
    assert a == 256 * b + a % 256 && b == a / 256;
    assert b == 256 * (b / 256) + b % 256 && b / 256 == m / 16777216;
  }

  lemma FourBytesBack(n: int)
    requires -WORD / 2 <= n < WORD / 2
    ensures FromBytes(FourBytes(n)) == n
  {
    var m := n % WORD;
    assert m == if n < 0 then n + WORD else n;
    Digits(m);
  }

  predicate Fits(ty: ColumnType, v: Key) {
    match ty
    case LongColumn => v.KNum? && -WORD / 2 <= v.n < WORD / 2
    case TextColumn => v.KStr? && |v.s| < 65536 && forall c <- v.s :: c as int < 256
  }

  function TextBytes(s: string): (r: seq<Byte>)
    ensures |r| == |s|
  {
    seq(|s|, i requires 0 <= i < |s| => (s[i] as int) % 256)
  }

  function TextFrom(b: seq<Byte>): (r: string)
    ensures |r| == |b|
  {
    seq(|b|, i requires 0 <= i < |b| => b[i] as char)
  }

  lemma TextBytesBack(s: string)
    requires forall c <- s :: c as int < 256
    ensures TextFrom(TextBytes(s)) == s
  {
    forall i | 0 <= i < |s|
      ensures TextFrom(TextBytes(s))[i] == s[i]
    {
      assert s[i] in s;
    }
  }

  /** The bytes of a value for a column. */
  function BytesOf(types: seq<ColumnType>, col: nat, v: Key): seq<Byte> {
    if col >= |types| then []
    else
      match (types[col], v)
      case (LongColumn, KNum(n)) => FourBytes(n)
      case (TextColumn, KStr(s)) => TextBytes(s)
      case _ => []
  }

  function KeyFrom(types: seq<ColumnType>, col: nat, b: seq<Byte>): Key {
    if col < |types| && types[col].LongColumn? && |b| == 4 then KNum(FromBytes(b)) else KStr(TextFrom(b))
  }

  lemma KeyBack(types: seq<ColumnType>, i: nat, k: nat, v: Key)
    requires i < |types| && k < |types| && Fits(types[i], v) && Fits(types[k], v)
    ensures |BytesOf(types, i, v)| < 65536 && KeyFrom(types, k, BytesOf(types, i, v)) == v
  {
    match v
    case KNum(n) => FourBytesBack(n);
    case KStr(s) => TextBytesBack(s);
  }

  // ---- The constants of a scan ----

  function Trees(list: seq<seq<Simple>>, env: Env): seq<seq<Predicate<Key>>>
    requires forall i :: 0 <= i < |list| ==> WellFormed(list[i])
  {
    seq(|list|, i requires 0 <= i < |list| => Predicates(list[i], env))
  }

  /** Every constant fits the type of its column. */
  ghost predicate ConstantsFit(types: seq<ColumnType>, trees: seq<seq<Predicate<Key>>>) {
    |types| == |trees| && forall k, v :: 0 <= k < |trees| && Constants(trees[k], v) ==> Fits(types[k], v)
  }

  /** Then every column understands its constants, and those that an earlier column has written. */
  lemma FitCoded(types: seq<ColumnType>, trees: seq<seq<Predicate<Key>>>)
    requires ConstantsFit(types, trees)
    ensures Coded(trees, (col, v) => BytesOf(types, col, v), (col, b) => KeyFrom(types, col, b))
  {
    hide Constants, Fits, BytesOf, KeyFrom, HasCode;
    forall i, k, v | 0 <= i <= k < |trees| && Constants(trees[i], v) && Constants(trees[k], v)
      ensures |BytesOf(types, i, v)| < 65536 && KeyFrom(types, k, BytesOf(types, i, v)) == v
    {
      KeyBack(types, i, k, v);
    }
  }

  // ---- The test of a row of a table ----

  /** The predicates that are made for a scan are TRUE of a row's values if and only if the conditions of the
      scan are TRUE of the row. */
  lemma SatisfiesScan(t: Table, env: Env, row: Row, cand: Database, db: Database, known: set<int>)
    requires TableSound(t, cand, db, known) && Chosen(env, cand, known) && row in db[t.base]
    ensures forall i :: 0 <= i < |t.list| ==> WellFormed(t.list[i])
    ensures var trees := Trees(t.list, env);
            && AllSimple(trees) && (forall ps <- trees, p <- ps :: p.Comparison? ==> !p.c.Fault?)
            && (SatisfiesRow(Less, trees, RowValues(row, |t.list|)) <==> ScanTrue(t, env[t.hole := row]))
  {
    var trees := Trees(t.list, env);
    hide TableSound, Chosen, ColumnTrue, SatisfiesAll, Predicates, ColumnValue, Less;
    forall c | 0 <= c < |t.list|
      ensures WellFormed(t.list[c]) && forall p: Predicate<Key> <- trees[c] :: p.Comparison? ==> !p.c.Fault?
      ensures forall p <- trees[c] :: ScanConditions.Simple(p)
      ensures SatisfiesAll(Less, trees[c], ColumnValue(row, c)) <==> ColumnTrue(t, c, env[t.hole := row])
    {
      ColumnSatisfies(t, c, env, row, cand, db, known);
      NoFault(t, c, env, cand, db, known);
    }
  }

  lemma NoFault(t: Table, c: nat, env: Env, cand: Database, db: Database, known: set<int>)
    requires TableSound(t, cand, db, known) && Chosen(env, cand, known) && c < |t.list|
    ensures WellFormed(t.list[c]) && forall p <- Predicates(t.list[c], env) :: p.Comparison? ==> !p.c.Fault?
  {
    hide Deps, Run, Sound, TreeOf;
    var ps := t.list[c];
    forall i | 0 <= i < |ps|
      ensures ps[i].ColumnTest? ==> ps[i].expr.Node? && !ConstantOf(Run(ps[i].expr, env)).Fault?
    {
      assert SimpleSound(ps[i], t.hole, c, cand, known);
      if ps[i].ColumnTest? {
        assert Chosen(env, cand, Deps(ps[i].expr));
      }
    }
  }

  lemma {:induction false} BoundsGive(list: seq<seq<Simple>>, env: Env)
    requires forall i :: 0 <= i < |list| ==> WellFormed(list[i]) && Interval(Less, Predicates(list[i], env)).Bounds?
    ensures ConditionsOf(list, env).Intervals?
  {
    if list != [] {
      hide Interval, Predicates, Less;
      var rest := list[1..];
      assert forall i :: 0 <= i < |rest| ==> rest[i] == list[i + 1];
      BoundsGive(rest, env);
    }
  }

  lemma BoundsReadable(t: Table, env: Env, cand: Database, db: Database, known: set<int>)
    requires TableSound(t, cand, db, known) && Chosen(env, cand, known)
    requires forall i :: 0 <= i < |t.list| ==> WellFormed(t.list[i])
    ensures var trees := Trees(t.list, env);
            AllBounds(Less, trees) ==> Readable(ScanBuffer.Intervals(Less, trees))
  {
    hide SimpleSound, Chosen, Less, Interval, Predicates, Readable;
    assert ScanReadable(t.list, env);
    hide TableSound;
    var trees := Trees(t.list, env);
    if AllBounds(Less, trees) {
      assert forall c :: 0 <= c < |t.list| ==> Interval(Less, Predicates(t.list[c], env)) == Interval(Less, trees[c]);
      BoundsGive(t.list, env);
      IntervalsOf(t.list, env);
      assert ScanBuffer.Intervals(Less, trees) == ConditionsOf(t.list, env).cs;
    }
  }

  /** The buffer for a scan is written and a row of its table tested against it. The row passes if and only if
      all conditions of the scan are TRUE of it: it is one of those that the scan delivers. */
  method TestTableRow(t: Table, types: seq<ColumnType>, env: Env, row: Row, ghost cand: Database, ghost db: Database,
                      ghost known: set<int>)
    returns (ok: bool)
    requires TableSound(t, cand, db, known) && Chosen(env, cand, known) && row in db[t.base]
    requires forall i :: 0 <= i < |t.list| ==> WellFormed(t.list[i])
    requires ConstantsFit(types, Trees(t.list, env))
    ensures ok <==> ScanTrue(t, env[t.hole := row])
    ensures var r := ConditionsOf(t.list, env); ok <==> r.Intervals? && RowAccepted(r.cs, row)
  {
    hide TableSound, Chosen, ScanTrue, RowAccepted, Coded, ConstantsFit, AllBounds, Less;
    SatisfiesScan(t, env, row, cand, db, known);
    ScanMeans(t, env, cand, db, known);
    var trees := Trees(t.list, env);
    if trees == [] {
      ok := true;
    } else {
      LessLinear();
      BoundsReadable(t, env, cand, db, known);
      FitCoded(types, trees);
      var res;
      res, ok := TestRow(Less, trees, RowValues(row, |t.list|), (col, v) => BytesOf(types, col, v),
                         (col, b) => KeyFrom(types, col, b));
    }
  }
}
