/** The conditions of a scan: the simple predicates of a column narrow one interval, and the
    intervals of all columns are written to a buffer that the storage engine reads. */
module ScanConditions {
  import opened Expressions
  import opened Options

  // ---- What the predicates of a column mean ----

  /** The value of the expression that a column is compared with. */
  datatype Constant<T> = Fault | NullConstant | Known(v: T)

  datatype Predicate<T> = IsNull | IsNotNull | Comparison(code: Code, c: Constant<T>)

  /** `lt` orders its type linearly. */
  ghost predicate Linear<T(!new)>(lt: (T, T) -> bool) {
    && (forall a, b, c :: lt(a, b) && lt(b, c) ==> lt(a, c))
    && (forall a, b :: lt(a, b) ==> !lt(b, a))
    && (forall a, b :: lt(a, b) || lt(b, a) || a == b)
  }

  ghost predicate Below<T(!new)>(lt: (T, T) -> bool, a: Option<T>, b: Option<T>) {
    a.Some? && b.Some? ==> lt(a.value, b.value)
  }

  ghost predicate Between<T(!new)>(lt: (T, T) -> bool, a: Option<T>, x: T, b: Option<T>) {
    (a.Some? ==> lt(a.value, x)) && (b.Some? ==> lt(x, b.value))
  }

  /** The order of `lt` is dense and has no ends. */
  ghost predicate Dense<T(!new)>(lt: (T, T) -> bool) {
    forall a: Option<T>, b: Option<T> {:trigger Below(lt, a, b)} :: Below(lt, a, b) ==> exists x :: Between(lt, a, x, b)
  }

  predicate Related<T(==)>(lt: (T, T) -> bool, code: Code, x: T, v: T) {
    match code
    case EQU => x == v
    case LT => lt(x, v)
    case GT => lt(v, x)
    case LE => !lt(v, x)
    case GE => !lt(x, v)
    case _ => x != v
  }

  /** The predicate is TRUE of the column value `x`; None is NULL. */
  predicate Satisfies<T(==)>(lt: (T, T) -> bool, p: Predicate<T>, x: Option<T>) {
    match p
    case IsNull => x.None?
    case IsNotNull => x.Some?
    case Comparison(code, c) => x.Some? && c.Known? && Related(lt, code, x.value, c.v)
  }

  predicate SatisfiesAll<T(==)>(lt: (T, T) -> bool, ps: seq<Predicate<T>>, x: Option<T>) {
    forall i :: 0 <= i < |ps| ==> Satisfies(lt, ps[i], x)
  }

  // ---- The interval of a column ----

  datatype NullCode = NoNullTest | EQUN | NEQUN
  /** A bound is a comparison code with a value; `left` may also be an equality. */
  datatype SpCond<T> = SpCond(left: Option<(Code, T)>, right: Option<(Code, T)>, nulls: NullCode)

  /** What the interval, read as a scan condition, accepts. */
  predicate Accepts<T(==)>(lt: (T, T) -> bool, c: SpCond<T>, x: Option<T>) {
    if x.None? then c.left.None? && c.right.None? && c.nulls != NEQUN
    else
      && (c.left.None? && c.right.None? ==> c.nulls != EQUN)
      && (c.left.Some? ==> Related(lt, c.left.value.0, x.value, c.left.value.1))
      && (c.right.Some? && !(c.left.Some? && c.left.value.0 == EQU)
          ==> Related(lt, c.right.value.0, x.value, c.right.value.1))
  }

  /** The lower bound lies strictly below the upper one, and a test for NULL stands alone. */
  ghost predicate Proper<T(!new)>(lt: (T, T) -> bool, c: SpCond<T>) {
    && (c.left.Some? ==> c.left.value.0 in {EQU, GE, GT})
    && (c.right.Some? ==> c.right.value.0 in {LE, LT})
    && (c.left.Some? && c.left.value.0 != EQU && c.right.Some? ==> lt(c.left.value.1, c.right.value.1))
    && (c.nulls == EQUN ==> c.left.None? && c.right.None?)
  }

  // Rows: no bound, then left of, at and right of a bound.
  const POSITION: seq<seq<int>> := [[5, 5, 6, 7], [3, -1, -1, -1], [4, -1, -1, -1], [5, 5, 6, 7]]

  /** The position of `v` against an equality (0, 1, 2) or an interval (3 to 7). */
  function WhereInSp<T(==)>(lt: (T, T) -> bool, c: SpCond<T>, v: T): int {
    var l :=
      if c.left.None? then 0
      else if lt(c.left.value.1, v) then 3
      else if c.left.value.0 == GT then 1
      else if lt(v, c.left.value.1) then 1 else 2;
    if c.left.Some? && c.left.value.0 == EQU then l - 1
    else
      var r :=
        if !((l == 0 || l > 2) && c.right.Some?) then 0
        else if lt(v, c.right.value.1) then 1
        else if c.right.value.0 == LT then 3
        else if lt(c.right.value.1, v) then 3 else 2;
      POSITION[l][r]
  }

  // Rows: EQU, LE, GE, LT, GT; what to do at each position.
  const ACTION: seq<seq<int>> := [
    [3, 0, 3, 3, 1, 1, 1, 3],
    [3, 0, 0, 3, 4, 2, 0, 0],
    [0, 0, 3, 0, 0, 1, 4, 3],
    [3, 3, 0, 3, 3, 2, 2, 0],
    [0, 3, 3, 0, 1, 1, 3, 3]]

  function Row(code: Code): nat {
    match code
    case EQU => 0
    case LE => 1
    case GE => 2
    case LT => 3
    case _ => 4
  }

  datatype Outcome<T> = Failed | Incompatible | Bounds(c: SpCond<T>)

  /** One more predicate on the column. */
  function Narrow<T(==)>(lt: (T, T) -> bool, c: SpCond<T>, p: Predicate<T>): Outcome<T> {
    match p
    case IsNull =>
      if c.left.Some? || c.right.Some? || c.nulls == NEQUN then Incompatible else Bounds(c.(nulls := EQUN))
    case IsNotNull =>
      if c.nulls == EQUN then Incompatible else Bounds(c.(nulls := NEQUN))
    case Comparison(code, k) =>
      if c.nulls == EQUN then Incompatible
      else if k.Fault? then Failed
      else if k.NullConstant? then Incompatible
      else
        var wh := WhereInSp(lt, c, k.v);
        if wh < 0 then Failed
        else match ACTION[Row(code)][wh]
          case 0 => Bounds(c)
          case 1 => Bounds(c.(left := Some((code, k.v))))
          case 2 => Bounds(c.(right := Some((code, k.v))))
          case 3 => Incompatible
          case _ => Bounds(c.(left := Some((EQU, k.v)), right := None))
  }

  /** A predicate that the scan understands: any but `<>`. */
  predicate Simple<T>(p: Predicate<T>) {
    p.Comparison? ==> p.code in {EQU, LE, GE, LT, GT}
  }

  /** What the position says about the value. */
  lemma Position<T(!new)>(lt: (T, T) -> bool, c: SpCond<T>, v: T)
    requires Linear(lt) && Proper(lt, c)
    ensures var w := WhereInSp(lt, c, v);
            if c.left.Some? && c.left.value.0 == EQU then
              w == if lt(v, c.left.value.1) then 0 else if v == c.left.value.1 then 1 else 2
            else
              && 3 <= w <= 7
              && (w == 3 <==> c.left.Some? && !Related(lt, c.left.value.0, v, c.left.value.1))
              && (w == 4 <==> c.left.Some? && c.left.value.0 == GE && v == c.left.value.1)
              && (w == 6 <==> c.right.Some? && c.right.value.0 == LE && v == c.right.value.1)
              && (w == 7 <==> c.right.Some? && !Related(lt, c.right.value.0, v, c.right.value.1))
  {}

  /** The new interval `r` accepts what both the old one `c` and the predicate do. */
  ghost predicate Narrows<T(!new)>(lt: (T, T) -> bool, c: SpCond<T>, p: Predicate<T>, r: Outcome<T>, x: Option<T>) {
    && (r.Bounds? ==> Proper(lt, r.c) && (Accepts(lt, r.c, x) <==> Accepts(lt, c, x) && Satisfies(lt, p, x)))
    && (r.Incompatible? ==> !(Accepts(lt, c, x) && Satisfies(lt, p, x)))
  }

  lemma NarrowEqual<T(!new)>(lt: (T, T) -> bool, c: SpCond<T>, v: T, x: Option<T>)
    requires Linear(lt) && Proper(lt, c) && c.nulls != EQUN
    ensures var p := Comparison(EQU, Known(v)); !Narrow(lt, c, p).Failed? && Narrows(lt, c, p, Narrow(lt, c, p), x)
  {
    Position(lt, c, v);
    hide WhereInSp;
  }

  lemma NarrowUpper<T(!new)>(lt: (T, T) -> bool, c: SpCond<T>, code: Code, v: T, x: Option<T>)
    requires Linear(lt) && Proper(lt, c) && c.nulls != EQUN && code in {LE, LT}
    ensures var p := Comparison(code, Known(v)); !Narrow(lt, c, p).Failed? && Narrows(lt, c, p, Narrow(lt, c, p), x)
  {
    Position(lt, c, v);
    hide WhereInSp;
  }

  lemma NarrowLower<T(!new)>(lt: (T, T) -> bool, c: SpCond<T>, code: Code, v: T, x: Option<T>)
    requires Linear(lt) && Proper(lt, c) && c.nulls != EQUN && code in {GE, GT}
    ensures var p := Comparison(code, Known(v)); !Narrow(lt, c, p).Failed? && Narrows(lt, c, p, Narrow(lt, c, p), x)
  {
    Position(lt, c, v);
    hide WhereInSp;
  }

  /** One step is exact. */
  lemma NarrowExact<T(!new)>(lt: (T, T) -> bool, c: SpCond<T>, p: Predicate<T>, x: Option<T>)
    requires Linear(lt) && Proper(lt, c) && Simple(p)
    ensures var r := Narrow(lt, c, p); Narrows(lt, c, p, r, x) && (r.Failed? ==> p.Comparison? && p.c.Fault?)
  {
    if p.Comparison? && p.c.Known? && c.nulls != EQUN {
      hide Narrow, Narrows;
      if p.code == EQU {
        NarrowEqual(lt, c, p.c.v, x);
      } else if p.code in {LE, LT} {
        NarrowUpper(lt, c, p.code, p.c.v, x);
      } else {
        NarrowLower(lt, c, p.code, p.c.v, x);
      }
    }
  }

  function Empty<T>(): SpCond<T> { SpCond(None, None, NoNullTest) }

  /** All the predicates of one column, the last one last. */
  function Interval<T(==)>(lt: (T, T) -> bool, ps: seq<Predicate<T>>): Outcome<T> {
    if ps == [] then Bounds(Empty())
    else
      var r := Interval(lt, ps[..|ps| - 1]);
      if r.Bounds? then Narrow(lt, r.c, ps[|ps| - 1]) else r
  }

  lemma ColumnProper<T(!new)>(lt: (T, T) -> bool, ps: seq<Predicate<T>>)
    requires Linear(lt) && forall p :: p in ps ==> Simple(p)
    ensures Interval(lt, ps).Bounds? ==> Proper(lt, Interval(lt, ps).c)
  {
    if ps != [] {
      ColumnProper(lt, ps[..|ps| - 1]);
      if Interval(lt, ps[..|ps| - 1]).Bounds? {
        NarrowExact(lt, Interval(lt, ps[..|ps| - 1]).c, ps[|ps| - 1], None);
      }
    }
  }

  /** The interval of a column accepts exactly the values that satisfy every predicate. */
  lemma {:induction false} ColumnExact<T(!new)>(lt: (T, T) -> bool, ps: seq<Predicate<T>>, x: Option<T>)
    requires Linear(lt) && forall p :: p in ps ==> Simple(p)
    ensures var r := Interval(lt, ps);
            && (r.Bounds? ==> (Accepts(lt, r.c, x) <==> SatisfiesAll(lt, ps, x)))
            && (r.Incompatible? ==> !SatisfiesAll(lt, ps, x))
            && (r.Failed? ==> exists p :: p in ps && p.Comparison? && p.c.Fault?)
  {
    hide Linear, Proper, Accepts, Satisfies, Narrow;
    if ps == [] {
      EmptyAccepts(lt, x);
    } else {
      var k := |ps| - 1;
      var qs, p := ps[..k], ps[k];
      ColumnExact(lt, qs, x);
      ColumnProper(lt, qs);
      if Interval(lt, qs).Bounds? {
        NarrowExact(lt, Interval(lt, qs).c, p, x);
      }
      assert SatisfiesAll(lt, ps, x) <==> SatisfiesAll(lt, qs, x) && Satisfies(lt, p, x) by {
        assert forall i :: 0 <= i < k ==> ps[i] == qs[i];
      }
    }
  }

  /** The predicate gives the lower bound `b`: its constant, and its code unless an equality results. */
  predicate GivesLower<T(==)>(p: Predicate<T>, b: (Code, T)) {
    p.Comparison? && p.c == Known(b.1) && (b.0 == p.code || b.0 == EQU)
  }

  predicate GivesUpper<T(==)>(p: Predicate<T>, b: (Code, T)) {
    p == Comparison(b.0, Known(b.1)) && b.0 in {LE, LT}
  }

  lemma NarrowFrom<T(!new)>(lt: (T, T) -> bool, c: SpCond<T>, p: Predicate<T>)
    requires Narrow(lt, c, p).Bounds? && Simple(p)
    ensures var d := Narrow(lt, c, p).c;
            && (d.left.Some? ==> d.left == c.left || GivesLower(p, d.left.value))
            && (d.right.Some? ==> d.right == c.right || GivesUpper(p, d.right.value))
  {
    if p.Comparison? && p.c.Known? && c.nulls != EQUN {
      var w := WhereInSp(lt, c, p.c.v);
      assert w <= 7;
      hide WhereInSp;
    }
  }

  /** The bounds of an interval come from its predicates. */
  lemma {:induction false} BoundsFrom<T(!new)>(lt: (T, T) -> bool, ps: seq<Predicate<T>>)
    requires Interval(lt, ps).Bounds? && forall p <- ps :: Simple(p)
    ensures var c := Interval(lt, ps).c;
            && (c.left.Some? ==> exists p <- ps :: GivesLower(p, c.left.value))
            && (c.right.Some? ==> exists p <- ps :: GivesUpper(p, c.right.value))
  {
    if ps != [] {
      hide Narrow, GivesLower, GivesUpper;
      var qs, p := ps[..|ps| - 1], ps[|ps| - 1];
      BoundsFrom(lt, qs);
      assert p in ps && forall q <- qs :: q in ps;
      NarrowFrom(lt, Interval(lt, qs).c, p);
    }
  }

  lemma EmptyAccepts<T(!new)>(lt: (T, T) -> bool, x: Option<T>)
    ensures Accepts(lt, Empty(), x)
  {}

  /** Over a dense order without ends no interval is empty. */
  lemma Inhabited<T(!new)>(lt: (T, T) -> bool, c: SpCond<T>)
    requires Linear(lt) && Dense(lt) && Proper(lt, c)
    ensures exists x :: Accepts(lt, c, x)
  {
    if c.nulls == EQUN {
      assert Accepts(lt, c, None);
    } else if c.left.Some? && c.left.value.0 == EQU {
      assert Accepts(lt, c, Some(c.left.value.1));
    } else {
      var a := if c.left.Some? then Some(c.left.value.1) else None;
      var b := if c.right.Some? then Some(c.right.value.1) else None;
      assert Below(lt, a, b);
      var x :| Between(lt, a, x, b);
      assert Accepts(lt, c, Some(x));
    }
  }

  /** Over such an order a column is given up as incompatible if and only if nothing satisfies it. */
  lemma IncompatibleIff<T(!new)>(lt: (T, T) -> bool, ps: seq<Predicate<T>>)
    requires Linear(lt) && Dense(lt) && forall p :: p in ps ==> Simple(p) && (p.Comparison? ==> !p.c.Fault?)
    ensures Interval(lt, ps).Incompatible? <==> forall x :: !SatisfiesAll(lt, ps, x)
  {
    hide Linear, Dense, Proper, Accepts, Interval, SatisfiesAll;
    ColumnProper(lt, ps);
    forall x
      ensures Interval(lt, ps).Bounds? ==> (Accepts(lt, Interval(lt, ps).c, x) <==> SatisfiesAll(lt, ps, x))
      ensures Interval(lt, ps).Incompatible? ==> !SatisfiesAll(lt, ps, x)
    {
      ColumnExact(lt, ps, x);
    }
    ColumnExact(lt, ps, None);
    if Interval(lt, ps).Bounds? {
      Inhabited(lt, Interval(lt, ps).c);
    }
  }

  // ---- What is noticed over the integers ----

  function LessInt(a: int, b: int): bool { a < b }
  function LessReal(a: real, b: real): bool { a < b }

  function Real(p: Predicate<int>): Predicate<real> {
    match p
    case IsNull => IsNull
    case IsNotNull => IsNotNull
    case Comparison(code, Known(v)) => Comparison(code, Known(v as real))
    case Comparison(code, Fault) => Comparison(code, Fault)
    case Comparison(code, NullConstant) => Comparison(code, NullConstant)
  }

  function Reals(ps: seq<Predicate<int>>): (r: seq<Predicate<real>>)
    ensures |r| == |ps| && forall i :: 0 <= i < |ps| ==> r[i] == Real(ps[i])
  {
    seq(|ps|, i requires 0 <= i < |ps| => Real(ps[i]))
  }

  function RealBound(b: Option<(Code, int)>): Option<(Code, real)> {
    if b.None? then None else Some((b.value.0, b.value.1 as real))
  }

  function RealCond(c: SpCond<int>): SpCond<real> { SpCond(RealBound(c.left), RealBound(c.right), c.nulls) }

  function RealOutcome(o: Outcome<int>): Outcome<real> {
    match o
    case Failed => Failed
    case Incompatible => Incompatible
    case Bounds(c) => Bounds(RealCond(c))
  }

  lemma PositionReal(c: SpCond<int>, v: int)
    ensures WhereInSp(LessReal, RealCond(c), v as real) == WhereInSp(LessInt, c, v)
  {}

  lemma NarrowReal(c: SpCond<int>, p: Predicate<int>)
    ensures Narrow(LessReal, RealCond(c), Real(p)) == RealOutcome(Narrow(LessInt, c, p))
  {
    if p.Comparison? && p.c.Known? && c.nulls != EQUN {
      PositionReal(c, p.c.v);
      hide WhereInSp;
    }
  }

  /** Narrowing does not depend on which numbers lie between the constants. */
  lemma {:induction false} IntervalReal(ps: seq<Predicate<int>>)
    ensures Interval(LessReal, Reals(ps)) == RealOutcome(Interval(LessInt, ps))
  {
    hide Narrow, Real;
    if ps != [] {
      var k := |ps| - 1;
      IntervalReal(ps[..k]);
      assert Reals(ps)[..k] == Reals(ps[..k]);
      if Interval(LessInt, ps[..k]).Bounds? {
        NarrowReal(Interval(LessInt, ps[..k]).c, ps[k]);
      }
    }
  }

  /** Over the integers a column is given up as incompatible if and only if not even a real number
      satisfies its predicates. */
  lemma IncompatibleOverIntegers(ps: seq<Predicate<int>>)
    requires forall p :: p in ps ==> Simple(p) && (p.Comparison? ==> !p.c.Fault?)
    ensures Interval(LessInt, ps).Incompatible? <==> forall x: Option<real> :: !SatisfiesAll(LessReal, Reals(ps), x)
  {
    hide Interval, SatisfiesAll, Linear, Dense;
    IntervalReal(ps);
    RealsDense();
    forall q | q in Reals(ps)
      ensures Simple(q) && (q.Comparison? ==> !q.c.Fault?)
    {
      var i :| 0 <= i < |ps| && q == Real(ps[i]);
      assert ps[i] in ps;
    }
    IncompatibleIff(LessReal, Reals(ps));
  }

  lemma RealsDense()
    ensures Linear(LessReal) && Dense(LessReal)
  {
    forall a: Option<real>, b: Option<real> | Below(LessReal, a, b)
      ensures exists x :: Between(LessReal, a, x, b)
    {
      var x :=
        if a.Some? && b.Some? then (a.value + b.value) / 2.0
        else if a.Some? then a.value + 1.0 else if b.Some? then b.value - 1.0 else 0.0;
      assert Between(LessReal, a, x, b);
    }
  }

  /** Over the integers a gap between two neighbours is not noticed: the scan runs and finds nothing. */
  lemma GapUnnoticed(x: Option<int>)
    ensures var lt := LessInt;
            var ps := [Comparison(GT, Known(1)), Comparison(LT, Known(2))];
            Interval(lt, ps).Bounds? && !SatisfiesAll(lt, ps, x)
  {
    var lt := LessInt;
    var ps := [Comparison(GT, Known(1)), Comparison(LT, Known(2))];
    assert ps[..1] == [Comparison(GT, Known(1))];
    assert ps[..1][..0] == [];
    assert Interval(lt, ps[..1][..0]) == Bounds(Empty());
    assert Interval(lt, ps[..1]) == Bounds(SpCond(Some((GT, 1)), None, NoNullTest));
    assert !(Satisfies(lt, ps[0], x) && Satisfies(lt, ps[1], x));
  }
}
