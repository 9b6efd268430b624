/** Which type can be cast to which, and the type an operation infers from its operands. */
module TypeCasts {
  import opened Options

  datatype Code =
    | Undef | Char | Short | Int | Long | Num | Float | Real | Double | Cstring | Pstring | Boolean
    | CharVar | Bit | BitVar | Dec | DateTime | Interval

  datatype SqlType = SqlType(code: Code, prec: nat, len: nat)

  // ---- Normal forms ----

  const UNDEF := SqlType(Undef, 0, 0)
  const SHORT := SqlType(Short, 0, 5)
  const LONG := SqlType(Long, 0, 10)
  const REAL := SqlType(Real, 0, 8)
  const DOUBLE := SqlType(Double, 0, 15)

  /** A binary fraction of `len` digits; anything longer is taken as a double. */
  function PackFloat(len: nat): SqlType {
    if len <= 8 then REAL else DOUBLE
  }

  predicate HasNormalForm(c: Code) {
    c in {Undef, Char, CharVar, Short, Int, Long, Num, Float, Real, Double}
  }

  /** The normal form of a type; the other codes become doubles that keep their precision, at most 255. */
  function PackType(t: SqlType): (r: SqlType)
    ensures Packed(r) <==> HasNormalForm(t.code) || t.prec == 0
  {
    match t.code
    case Undef => UNDEF
    case Char => SqlType(Char, 0, t.len)
    case CharVar => SqlType(Char, 0, t.len)
    case Short => SHORT
    case Int => SqlType(Int, 0, 10)
    case Long => LONG
    case Real => REAL
    case Double => DOUBLE
    case Num => if t.prec == 0 && t.len <= 5 then SHORT else if t.prec == 0 && t.len <= 10 then LONG
                else PackFloat(t.len)
    case Float => PackFloat(t.len)
    case _ => SqlType(Double, if t.prec > 255 then 255 else t.prec, 15)
  }

  predicate Packed(t: SqlType) {
    match t.code
    case Undef => t == UNDEF
    case Char => t.prec == 0
    case Short => t == SHORT
    case Int => t == SqlType(Int, 0, 10)
    case Long => t == LONG
    case Real => t == REAL
    case Double => t == DOUBLE
    case _ => false
  }

  /** The normal forms are exactly the types that packing leaves alone. */
  lemma PackedIff(t: SqlType)
    ensures Packed(t) <==> PackType(t) == t
  {}

  /** Numbers pack to the first type with room for their digits: those without a fraction to SHORT or LONG,
      the others and fractions to REAL or, whatever their length, to DOUBLE. Strings keep their length. */
  lemma PackedFirst(t: SqlType)
    ensures t.code == Num && t.prec == 0 && t.len <= LONG.len ==>
              var r := PackType(t);
              r in {SHORT, LONG} && t.len <= r.len && (r == LONG ==> SHORT.len < t.len)
    ensures t.code == Float || (t.code == Num && (t.prec != 0 || t.len > LONG.len)) ==>
              var r := PackType(t);
              r in {REAL, DOUBLE} && (t.len <= r.len || r == DOUBLE) && (r == DOUBLE ==> REAL.len < t.len)
    ensures t.code == Char || t.code == CharVar ==> PackType(t) == SqlType(Char, 0, t.len)
    ensures t.code in {Undef, Short, Int, Long, Real, Double} ==> PackType(t).code == t.code
    ensures !HasNormalForm(t.code) ==>
              var r := PackType(t);
              r.code == Double && r.len == DOUBLE.len && r.prec <= t.prec && r.prec <= 255 && r.prec in {t.prec, 255}
  {}

  // ---- Casting ----

  const CASTING: seq<(Code, Code)> := [
    (Undef, Char), (Undef, Short), (Char, Cstring), (Short, Int), (Int, Long), (Long, Real), (Long, Num),
    (Num, Float), (Real, Double), (Double, Float), (Real, Double)]

  /** How many casts can still follow. */
  function Rank(c: Code): nat {
    match c
    case Undef => 7
    case Short => 6
    case Int => 5
    case Long => 4
    case Real => 3
    case Double => 2
    case Num => 2
    case Char => 1
    case _ => 0
  }

  /** Of one code: the value has room. */
  predicate SameCodeFits(t1: SqlType, t2: SqlType)
    requires t1.code == t2.code
  {
    match t1.code
    case Char => t2.len <= t1.len
    case Num => t2.len - t2.prec <= t1.len - t1.prec && t2.prec <= t1.prec
    case Float => t2.len <= t1.len
    case _ => true
  }

  function Tens(k: nat): (r: nat)
    ensures r >= 1
  {
    if k == 0 then 1 else 10 * Tens(k - 1)
  }

  function Magnitude(n: int): nat { if n < 0 then -n else n }

  /** The decimal number `n` / 10^`prec2` has a notation with `prec1` places and at most `len1` digits. */
  ghost predicate Noted(n: int, prec2: nat, len1: nat, prec1: nat) {
    exists m :: Magnitude(m) < Tens(len1) && m * Tens(prec2) == n * Tens(prec1)
  }

  lemma {:induction false} TensSum(a: nat, b: nat)
    ensures Tens(a + b) == Tens(a) * Tens(b)
  {
    if a > 0 {
      TensSum(a - 1, b);
      Scaled(10, Tens(a - 1), Tens(b));
    }
  }

  lemma Scaled(x: int, y: int, z: int)
    ensures x * (y * z) == x * y * z
  {}

  lemma {:induction false} TensGrow(a: nat, b: nat)
    requires a < b
    ensures 10 * Tens(a) <= Tens(b)
  {
    if a + 1 < b {
      TensGrow(a, b - 1);
    }
  }

  /** For decimal numbers of at least one digit, the check of the lengths asks exactly that every number of
      the one type is one of the other. */
  lemma NumFitsIff(t1: SqlType, t2: SqlType)
    requires t1.code == t2.code == Num && t2.len >= 1
    ensures SameCodeFits(t1, t2) <==> forall n :: Magnitude(n) < Tens(t2.len) ==> Noted(n, t2.prec, t1.len, t1.prec)
  {
    if SameCodeFits(t1, t2) {
      forall n | Magnitude(n) < Tens(t2.len)
        ensures Noted(n, t2.prec, t1.len, t1.prec)
      {
        NotedWider(n, t1, t2);
      }
    } else if t2.prec > t1.prec {
      TensGrow(0, t2.len);
      NotFine(t1, t2);
    } else {
      NotWide(t1, t2);
    }
  }

  lemma NotedWider(n: int, t1: SqlType, t2: SqlType)
    requires t1.code == t2.code == Num && t1.prec >= t2.prec && t2.len - t2.prec <= t1.len - t1.prec
    requires Magnitude(n) < Tens(t2.len)
    ensures Noted(n, t2.prec, t1.len, t1.prec)
  {
    var d := t1.prec - t2.prec;
    var m := n * Tens(d);
    TensSum(d, t2.prec);
    Scaled(n, Tens(d), Tens(t2.prec));
    TensSum(t2.len, d);
    if t2.len + d < t1.len {
      TensGrow(t2.len + d, t1.len);
    }
    Larger(n, Tens(t2.len), Tens(d));
    assert Magnitude(m) < Tens(t1.len) && m * Tens(t2.prec) == n * Tens(t1.prec);
  }

  lemma Larger(n: int, x: nat, d: nat)
    requires Magnitude(n) < x && d >= 1
    ensures Magnitude(n * d) < x * d
  {
    if n < 0 {
      assert n * d == -((-n) * d);
      Products(-n, x, d);
    } else {
      Products(n, x, d);
    }
  }

  lemma Products(a: nat, x: nat, d: nat)
    requires a < x && d >= 1
    ensures 0 <= a * d < x * d
  {}

  /** With fewer places the last one is lost. */
  lemma NotFine(t1: SqlType, t2: SqlType)
    requires t2.prec > t1.prec && Tens(t2.len) > 1
    ensures Magnitude(1) < Tens(t2.len) && !Noted(1, t2.prec, t1.len, t1.prec)
  {
    forall m
      ensures m * Tens(t2.prec) != 1 * Tens(t1.prec)
    {
      TensGrow(t1.prec, t2.prec);
      NoFraction(m, Tens(t2.prec), Tens(t1.prec));
    }
  }

  lemma NoFraction(m: int, x: nat, y: nat)
    requires x > y >= 1
    ensures m * x != y
  {
    if m >= 1 {
      assert m * x >= x;
    } else {
      assert m * x <= 0;
    }
  }

  /** With too few digits the largest number has no room. */
  lemma NotWide(t1: SqlType, t2: SqlType)
    requires t2.len >= 1 && t1.prec >= t2.prec && t2.len - t2.prec > t1.len - t1.prec
    ensures var n := Tens(t2.len) - 1; Magnitude(n) < Tens(t2.len) && !Noted(n, t2.prec, t1.len, t1.prec)
  {
    var n, d := Tens(t2.len) - 1, t1.prec - t2.prec;
    TensSum(d, t2.prec);
    TensSum(t2.len - 1, d);
    var k := t2.len - 1 + d;
    assert k >= t1.len;
    if t1.len < k {
      TensGrow(t1.len, k);
    }
    assert n >= Tens(t2.len - 1);
    forall m | m * Tens(t2.prec) == n * Tens(t1.prec)
      ensures Magnitude(m) >= Tens(t1.len)
    {
      Scaled(n, Tens(d), Tens(t2.prec));
      Cancel(m, n * Tens(d), Tens(t2.prec));
      Times(n, Tens(t2.len - 1), Tens(d));
    }
  }

  lemma Cancel(a: int, b: int, x: nat)
    requires a * x == b * x && x >= 1
    ensures a == b
  {}

  lemma Times(n: int, x: nat, d: nat)
    requires n >= x
    ensures n * d >= x * d
  {}

  /** A value of type `t2` can be cast to `t1`, by a chain of casts and a check of the lengths at its end. */
  predicate Casted(t1: SqlType, t2: SqlType)
    decreases Rank(t2.code)
  {
    || t1 == t2
    || if t1.code == t2.code then SameCodeFits(t1, t2)
       else exists i :: 0 <= i < |CASTING| && CASTING[i].0 == t2.code && Rank(CASTING[i].1) < Rank(t2.code)
                        && Casted(t1, t2.(code := CASTING[i].1))
  }

  /** The table of casts has no cycle, so that following it ends. */
  lemma CastingFalls(i: nat)
    requires i < |CASTING|
    ensures Rank(CASTING[i].1) < Rank(CASTING[i].0)
  {}

  /** As the source computes it. */
  method IsCasted(t1: SqlType, t2: SqlType) returns (r: bool)
    ensures r == Casted(t1, t2)
    decreases Rank(t2.code)
  {
    if t1 == t2 {
      return true;
    }
    if t1.code != t2.code {
      var i := |CASTING|;
      while i > 0
        invariant 0 <= i <= |CASTING|
        invariant forall j :: i <= j < |CASTING| && CASTING[j].0 == t2.code ==> !Casted(t1, t2.(code := CASTING[j].1))
      {
        i := i - 1;
        if t2.code != CASTING[i].0 {
          continue;
        }
        CastingFalls(i);
        var casted := IsCasted(t1, t2.(code := CASTING[i].1));
        if casted {
          return true;
        }
      }
      return false;
    }
    match t1.code {
      case Char => r := !(t2.len > t1.len);
      case Num => r := !(t2.len - t2.prec > t1.len - t1.prec || t2.prec > t1.prec);
      case Float => r := !(t2.len > t1.len);
      case _ => r := true;
    }
  }

  // ---- The order of the normal forms ----

  /** The size of a number type; 0 for the others. */
  function Size(c: Code): nat {
    match c
    case Short => 1
    case Int => 2
    case Long => 3
    case Real => 4
    case Double => 5
    case _ => 0
  }

  predicate IsNumber(t: SqlType) { Size(t.code) > 0 }

  /** The undefined type below all, strings by their length, numbers by their size. */
  predicate Below(t2: SqlType, t1: SqlType) {
    || t2 == UNDEF
    || (t1.code == Char && t2.code == Char && t2.len <= t1.len)
    || (IsNumber(t1) && IsNumber(t2) && Size(t2.code) <= Size(t1.code))
  }

  /** One step along the table. */
  lemma OneCast(t1: SqlType, t2: SqlType, i: nat)
    requires t1.code != t2.code && i < |CASTING| && CASTING[i].0 == t2.code && Casted(t1, t2.(code := CASTING[i].1))
    ensures Casted(t1, t2)
  {
    CastingFalls(i);
  }

  lemma SameCodeCasted(t1: SqlType, t2: SqlType)
    requires t1.code == t2.code
    ensures Casted(t1, t2) <==> SameCodeFits(t1, t2)
  {}

  /** The codes that the table leads to from `c`. */
  function Next(c: Code): seq<Code> {
    match c
    case Undef => [Char, Short]
    case Char => [Cstring]
    case Short => [Int]
    case Int => [Long]
    case Long => [Real, Num]
    case Num => [Float]
    case Real => [Double]
    case Double => [Float]
    case _ => []
  }

  lemma NextIs(c: Code)
    ensures forall i :: 0 <= i < |CASTING| && CASTING[i].0 == c ==> CASTING[i].1 in Next(c)
    ensures forall d <- Next(c) :: Rank(d) < Rank(c) && (c, d) in CASTING
  {
    forall d | d in Next(c)
      ensures Rank(d) < Rank(c) && (c, d) in CASTING
    {
      var i := match c
        case Undef => if d == Char then 0 else 1
        case Char => 2
        case Short => 3
        case Int => 4
        case Long => if d == Real then 5 else 6
        case Num => 7
        case Real => 8
        case _ => 9;
      assert CASTING[i] == (c, d);
    }
  }

  lemma CastedNext(t1: SqlType, t2: SqlType)
    requires t1.code != t2.code
    ensures Casted(t1, t2) <==> exists d <- Next(t2.code) :: Casted(t1, t2.(code := d))
  {
    hide SameCodeFits, Next, Rank;
    NextIs(t2.code);
    if d :| d in Next(t2.code) && Casted(t1, t2.(code := d)) {
      var i :| 0 <= i < |CASTING| && CASTING[i] == (t2.code, d);
      OneCast(t1, t2, i);
    }
    if Casted(t1, t2) {
      var i :| 0 <= i < |CASTING| && CASTING[i].0 == t2.code && Casted(t1, t2.(code := CASTING[i].1));
      assert CASTING[i].1 in Next(t2.code);
    }
  }

  /** A number type takes exactly the smaller ones, whatever length they carry on the way. */
  lemma {:induction false} NumberCasted(t1: SqlType, t2: SqlType)
    requires Packed(t1) && IsNumber(t1) && t2.code != Undef
    ensures Casted(t1, t2) <==> IsNumber(t2) && Size(t2.code) <= Size(t1.code)
    decreases Rank(t2.code)
  {
    hide Casted;
    if t1.code == t2.code {
      SameCodeCasted(t1, t2);
    } else {
      CastedNext(t1, t2);
      NextIs(t2.code);
      forall d | d in Next(t2.code)
        ensures Casted(t1, t2.(code := d)) <==> 0 < Size(d) <= Size(t1.code)
      {
        NumberCasted(t1, t2.(code := d));
      }
    }
  }

  /** Casts lead from no other type to strings or to the undefined type. */
  lemma {:induction false} OtherCasted(t1: SqlType, t2: SqlType)
    requires t1.code in {Undef, Char} && t2.code !in {Undef, t1.code}
    ensures !Casted(t1, t2)
    decreases Rank(t2.code)
  {
    forall i | 0 <= i < |CASTING| && CASTING[i].0 == t2.code
      ensures !Casted(t1, t2.(code := CASTING[i].1))
    {
      CastingFalls(i);
      OtherCasted(t1, t2.(code := CASTING[i].1));
    }
  }

  lemma UndefCasted(t1: SqlType)
    requires Packed(t1)
    ensures Casted(t1, UNDEF)
  {
    hide Casted;
    var next := UNDEF.(code := if t1.code == Char then Char else Short);
    if IsNumber(t1) {
      NumberCasted(t1, next);
      OneCast(t1, UNDEF, 1);
    } else if t1 == UNDEF {
      SameCodeCasted(t1, UNDEF);
    } else {
      SameCodeCasted(t1, next);
      OneCast(t1, UNDEF, 0);
    }
  }

  /** Between normal forms the casts are the order `Below`. */
  lemma CastedBelow(t1: SqlType, t2: SqlType)
    requires Packed(t1) && Packed(t2)
    ensures Casted(t1, t2) <==> Below(t2, t1)
  {
    hide Casted;
    if t2 == UNDEF {
      UndefCasted(t1);
    } else if IsNumber(t1) {
      NumberCasted(t1, t2);
    } else if t1.code != t2.code {
      OtherCasted(t1, t2);
    } else {
      SameCodeCasted(t1, t2);
    }
  }

  /** Casting normal forms is reflexive, antisymmetric and transitive. */
  lemma CastedOrder(a: SqlType, b: SqlType, c: SqlType)
    requires Packed(a) && Packed(b) && Packed(c)
    ensures Casted(a, a)
    ensures Casted(a, b) && Casted(b, a) ==> a == b
    ensures Casted(c, b) && Casted(b, a) ==> Casted(c, a)
  {
    hide Casted;
    CastedBelow(a, a);
    CastedBelow(a, b);
    CastedBelow(b, a);
    CastedBelow(c, b);
    CastedBelow(c, a);
  }

  /** A chain of casts leads from one code to the other. */
  predicate Reaches(from: Code, to: Code)
    decreases Rank(from)
  {
    from == to || exists d <- Next(from) :: Rank(d) < Rank(from) && Reaches(d, to)
  }

  /** The first step of a chain. */
  lemma FirstStep(a: Code, b: Code) returns (d: Code)
    requires Reaches(a, b) && a != b
    ensures d in Next(a) && Rank(d) < Rank(a) && Reaches(d, b)
  {
    hide Next, Rank;
    d :| d in Next(a) && Rank(d) < Rank(a) && Reaches(d, b);
  }

  lemma ReachesBefore(a: Code, d: Code, b: Code)
    requires d in Next(a) && Rank(d) < Rank(a) && Reaches(d, b)
    ensures Reaches(a, b)
  {
    hide Next, Rank;
  }

  lemma {:induction false} ReachesTransitive(a: Code, b: Code, c: Code)
    requires Reaches(a, b) && Reaches(b, c)
    ensures Reaches(a, c)
    decreases Rank(a)
  {
    hide Next, Rank, Reaches;
    if a != b {
      var d := FirstStep(a, b);
      ReachesTransitive(d, b, c);
      ReachesBefore(a, d, c);
    }
  }

  lemma {:induction false} ReachesFalls(a: Code, b: Code)
    requires Reaches(a, b)
    ensures a == b || Rank(b) < Rank(a)
    decreases Rank(a)
  {
    hide Next, Rank, Reaches;
    if a != b {
      var d := FirstStep(a, b);
      ReachesFalls(d, b);
    }
  }

  /** Casting is a chain of codes, and the length compared at its end. */
  lemma {:induction false} CastedIff(t1: SqlType, t2: SqlType)
    ensures Casted(t1, t2) <==> Reaches(t2.code, t1.code) && SameCodeFits(t1, t2.(code := t1.code))
    decreases Rank(t2.code)
  {
    if t1.code == t2.code {
      SameCodeCasted(t1, t2);
      assert t2.(code := t1.code) == t2;
    } else {
      hide SameCodeFits, Casted, Next;
      CastedNext(t1, t2);
      NextIs(t2.code);
      forall d | d in Next(t2.code)
        ensures Casted(t1, t2.(code := d)) <==> Reaches(d, t1.code) && SameCodeFits(t1, t2.(code := t1.code))
      {
        CastedIff(t1, t2.(code := d));
      }
    }
  }

  /** Two casts after each other are one if and only if the length of the first type fits the last one. */
  lemma TransitiveIff(a: SqlType, b: SqlType, c: SqlType)
    requires Casted(a, b) && Casted(b, c)
    ensures Casted(a, c) <==> SameCodeFits(a, c.(code := a.code))
  {
    hide Casted, Reaches, SameCodeFits;
    CastedIff(a, b);
    CastedIff(b, c);
    CastedIff(a, c);
    ReachesTransitive(c.code, b.code, a.code);
  }

  /** It fits whenever the outer types are in normal form, or the last one is a number type whose length is
      not compared. */
  lemma TransitiveEnds(a: SqlType, b: SqlType, c: SqlType)
    requires Casted(a, b) && Casted(b, c) && (IsNumber(a) || (Packed(a) && Packed(c)))
    ensures Casted(a, c)
  {
    hide Casted, Reaches;
    TransitiveIff(a, b, c);
    if a.code == Char && c.code == Char {
      CastedIff(a, b);
      CastedIff(b, c);
      ReachesFalls(c.code, b.code);
      ReachesFalls(b.code, a.code);
    } else if a.code == Char {
      CastedIff(a, b);
      CastedIff(b, c);
      ReachesTransitive(c.code, b.code, a.code);
      StringFrom(c.code);
    }
  }

  /** It does not always fit. */
  lemma NotTransitive()
    ensures var a, b, c := SqlType(Num, 0, 6), SqlType(Long, 0, 5), SqlType(Long, 0, 20);
            Casted(a, b) && Casted(b, c) && !Casted(a, c)
  {
    hide Casted;
    var a, b, c := SqlType(Num, 0, 6), SqlType(Long, 0, 5), SqlType(Long, 0, 20);
    SameCodeCasted(a, b.(code := Num));
    OneCast(a, b, 6);
    SameCodeCasted(b, c);
    TransitiveIff(a, b, c);
  }

  /** Only the undefined type has a chain to strings. */
  lemma {:induction false} StringFrom(c: Code)
    requires Reaches(c, Char)
    ensures c in {Char, Undef}
    decreases Rank(c)
  {
    hide Rank, Reaches;
    if c != Char {
      var d := FirstStep(c, Char);
      StringFrom(d);
    }
  }

  // ---- The type of an operation ----

  /** The one of two types that the other can be cast to, if there is one. */
  function CompType(t1: SqlType, t2: SqlType): Option<SqlType> {
    if Casted(t1, t2) then Some(t1) else if Casted(t2, t1) then Some(t2) else None
  }

  predicate AllPacked(ts: seq<SqlType>) { forall x <- ts :: Packed(x) }

  /** All of `ts` can be cast to `u`. */
  predicate Common(u: SqlType, ts: seq<SqlType>) {
    Packed(u) && forall x <- ts :: Casted(u, x)
  }

  /** `t` is the least type that all of `ts` can be cast to. */
  ghost predicate IsLeast(t: SqlType, ts: seq<SqlType>) {
    Common(t, ts) && forall u: SqlType :: Common(u, ts) ==> Casted(u, t)
  }

  /** A string and a number are among the types. */
  predicate Clash(ts: seq<SqlType>) {
    (exists x <- ts :: x.code == Char) && exists x <- ts :: IsNumber(x)
  }

  /** Two types have a common one unless one is a string and the other a number. */
  lemma CompTypeNone(t1: SqlType, t2: SqlType)
    requires Packed(t1) && Packed(t2)
    ensures CompType(t1, t2) == None <==> (t1.code == Char && IsNumber(t2)) || (IsNumber(t1) && t2.code == Char)
  {
    hide Casted;
    CastedBelow(t1, t2);
    CastedBelow(t2, t1);
  }

  /** One more operand: the least common type so far and its type give the new one. */
  lemma LeastSnoc(r: SqlType, ts: seq<SqlType>, x: SqlType)
    requires AllPacked(ts) && Packed(x) && IsLeast(r, ts) && CompType(r, x) != None
    ensures IsLeast(CompType(r, x).value, ts + [x])
  {
    hide Casted;
    var t := CompType(r, x).value;
    CastedOrder(r, r, r);
    CastedOrder(x, x, x);
    forall y | y in ts + [x] ensures Casted(t, y) {
      if y in ts {
        CastedOrder(y, r, t);
      }
    }
    forall u: SqlType | Common(u, ts + [x]) ensures Casted(u, t) {
      assert Common(u, ts) && x in ts + [x];
    }
  }

  /** The types of the operands taken in one after the other; a clash leaves the result so far. */
  function Fold(ts: seq<SqlType>): (SqlType, bool) {
    if ts == [] then (UNDEF, false)
    else
      var (r, clash) := Fold(ts[..|ts| - 1]);
      match CompType(r, ts[|ts| - 1])
      case Some(t) => (t, clash)
      case None => (r, true)
  }

  /** The fold clashes exactly if a string meets a number, and otherwise gives the least type that all
      operands can be cast to. */
  lemma {:induction false} FoldLeast(ts: seq<SqlType>)
    requires AllPacked(ts)
    ensures var (t, clash) := Fold(ts);
            (clash <==> Clash(ts)) && Packed(t) && (t == UNDEF || t in ts) && (!clash ==> IsLeast(t, ts))
  {
    hide Casted;
    if ts == [] {
      forall u: SqlType | Common(u, ts) ensures Casted(u, UNDEF) {
        CastedBelow(u, UNDEF);
      }
    } else {
      var init, x := ts[..|ts| - 1], ts[|ts| - 1];
      assert ts == init + [x];
      FoldLeast(init);
      var (r, clash) := Fold(init);
      CompTypeNone(r, x);
      if !clash {
        forall y | y in init ensures Below(y, r) {
          CastedBelow(r, y);
        }
        if CompType(r, x) != None {
          LeastSnoc(r, init, x);
        }
      }
    }
  }

  /** A clash is exactly what leaves the operands without a common type. */
  lemma ClashIff(ts: seq<SqlType>)
    requires AllPacked(ts)
    ensures Clash(ts) <==> !exists u: SqlType :: Common(u, ts)
  {
    hide Casted;
    if Clash(ts) {
      var c :| c in ts && c.code == Char;
      var n :| n in ts && IsNumber(n);
      forall u: SqlType | Common(u, ts) ensures false {
        CastedBelow(u, c);
        CastedBelow(u, n);
      }
    } else {
      FoldLeast(ts);
    }
  }

  /** The order of the operands does not matter. */
  lemma FoldOrderFree(ts: seq<SqlType>, us: seq<SqlType>)
    requires AllPacked(ts) && multiset(ts) == multiset(us)
    ensures Fold(ts).1 == Fold(us).1
    ensures !Fold(ts).1 ==> Fold(ts) == Fold(us)
  {
    hide Casted;
    assert forall x :: x in ts <==> x in multiset(ts);
    assert forall x :: x in us <==> x in multiset(us);
    FoldLeast(ts);
    FoldLeast(us);
    if !Fold(ts).1 {
      assert Common(Fold(us).0, ts) && Common(Fold(ts).0, us);
      CastedOrder(Fold(ts).0, Fold(us).0, UNDEF);
    }
  }

  /** The first loop: the common type of the operands, and whether one has none yet. */
  method FoldTypes(args: array<SqlType>) returns (t: SqlType, clash: bool, putType: bool)
    ensures (t, clash) == Fold(args[..])
    ensures putType <==> exists i :: 0 <= i < args.Length && args[i].code == Undef
  {
    hide Casted;
    t, clash, putType := UNDEF, false, false;
    var i := 0;
    while i < args.Length
      invariant 0 <= i <= args.Length && (t, clash) == Fold(args[..i])
      invariant putType <==> exists j :: 0 <= j < i && args[j].code == Undef
    {
      assert args[..i + 1][..i] == args[..i];
      putType := putType || args[i].code == Undef;
      var up := IsCasted(t, args[i]);
      var down := IsCasted(args[i], t);
      if !up && down {
        t := args[i];
      } else if !up {
        clash := true;
      }
      i := i + 1;
    }
    assert args[..args.Length] == args[..];
  }

  /** The type of an operation declared as `node` whose operands have the common type `t`. */
  function NodeType(node: SqlType, t: SqlType): SqlType {
    if node.code == Undef then t else node
  }

  /** The type that an operand of type `x` ends up with. */
  function ArgType(x: SqlType, node: SqlType, t: SqlType): SqlType {
    if x.code != Undef || NodeType(node, t).code == Undef then x
    else if t.code == Undef then node else t
  }

  /** Infers the type of an operation from its operands, and gives those without a type one. */
  method CheckArgTypes(args: array<SqlType>, node: SqlType) returns (res: SqlType, clash: bool)
    modifies args
    ensures clash == old(Fold(args[..])).1 && res == NodeType(node, old(Fold(args[..])).0)
    ensures forall i :: 0 <= i < args.Length ==> args[i] == ArgType(old(args[i]), node, old(Fold(args[..])).0)
  {
    hide Fold;
    var t, putType;
    t, clash, putType := FoldTypes(args);
    res := NodeType(node, t);
    if res.code != Undef && putType {
      var i := 0;
      while i < args.Length
        invariant 0 <= i <= args.Length
        invariant forall j :: i <= j < args.Length ==> args[j] == old(args[j])
        invariant forall j :: 0 <= j < i ==> args[j] == ArgType(old(args[j]), node, t)
      {
        if args[i].code == Undef {
          args[i] := if t.code == Undef then res else t;
        }
        i := i + 1;
      }
    }
  }

  /** After inference every operand can be cast to the type of the operation, if that was inferred, and
      to the common type of the operands, if these have one. One that had a type keeps it, and the others get
      the common type or, without one, that of the operation. */
  lemma OperandsFit(ts: seq<SqlType>, x: SqlType, node: SqlType)
    requires AllPacked(ts) && !Clash(ts) && x in ts
    ensures var t := Fold(ts).0;
            && (node.code == Undef ==> Casted(NodeType(node, t), ArgType(x, node, t)))
            && (t != UNDEF ==> Casted(t, ArgType(x, node, t)))
            && (x.code != Undef ==> ArgType(x, node, t) == x)
            && (x.code == Undef && t.code != Undef ==> ArgType(x, node, t) == t)
            && (x.code == Undef && t.code == Undef ==> ArgType(x, node, t).code == node.code)
  {
    hide Casted;
    FoldLeast(ts);
    CastedOrder(Fold(ts).0, Fold(ts).0, UNDEF);
  }
}
