/** The test that the storage engine applies to a row: the codes of the scale against the values in the
    buffer, and when it accepts the rows that the intervals accept. */
module RowTest {
  import opened Expressions
  import opened ScanConditions
  import opened Options

  const EQ := 1
  const SML := 3
  const SMLEQ := 4
  const GRT := 5
  const GRTEQ := 6
  const SS := 7
  const SES := 8
  const SSE := 9
  const SESE := 10
  const EQUAL_NULL := 11
  const NOT_NULL := 12
  const ANY := 13
  const ENDSC := 15

  /** The code under which the interval of a column goes into the scale. */
  function ScaleCode<T>(c: SpCond<T>): nat {
    if c.left.None? && c.right.None? then
      (match c.nulls case NoNullTest => ANY case EQUN => EQUAL_NULL case NEQUN => NOT_NULL)
    else if c.left.None? then if c.right.value.0 == LE then SMLEQ else SML
    else if c.left.value.0 == EQU then EQ
    else if c.right.None? then if c.left.value.0 == GE then GRTEQ else GRT
    else if c.left.value.0 == GE then if c.right.value.0 == LE then SESE else SES
    else if c.right.value.0 == LE then SSE else SS
  }

  /** The bounds that are written; an upper bound beside an equality is not. */
  function Stored<T>(c: SpCond<T>): seq<T> {
    (if c.left.Some? then [c.left.value.1] else [])
    + if c.right.Some? && !(c.left.Some? && c.left.value.0 == EQU) then [c.right.value.1] else []
  }

  lemma ScaleCodeFits<T>(c: SpCond<T>)
    ensures 0 < ScaleCode(c) < ENDSC
  {}

  predicate TwoSided(t: nat) { t in {SS, SES, SSE, SESE} }

  /** The engine's test of one value that is not NULL; the second part is the number of values it
      has gone over. A condition `is NULL` looks at what follows in the buffer and fails anyway. */
  function Fcv<T(==)>(lt: (T, T) -> bool, t: nat, vals: seq<T>, x: T): (bool, nat) {
    if t == ANY || t == NOT_NULL then (true, 0)
    else if t == EQUAL_NULL || vals == [] then (false, 1)
    else if x == vals[0] then (t in {EQ, SES, SESE, SMLEQ, GRTEQ}, 1)
    else if lt(vals[0], x) then
      if TwoSided(t) then
        if |vals| < 2 then (false, 2)
        else if x == vals[1] then (t == SSE || t == SESE, 2)
        else (lt(x, vals[1]), 2)
      else (t == GRT || t == GRTEQ, 1)
    else (t == SML || t == SMLEQ, 1)
  }

  function Passes<T(!new, ==)>(lt: (T, T) -> bool, cs: seq<SpCond<T>>, vals: seq<T>, row: seq<Option<T>>): bool
    requires |row| == |cs|
  {
    if cs == [] then true
    else
      var t := ScaleCode(cs[0]);
      if row[0].None? then (t == EQUAL_NULL || t == ANY) && Passes(lt, cs[1..], vals, row[1..])
      else
        var (pass, over) := Fcv(lt, t, vals, row[0].value);
        pass && over <= |vals| && Passes(lt, cs[1..], vals[over..], row[1..])
  }

  /** The value meets the closed lower end of a two-sided interval: the engine then leaves the upper
      bound in the buffer. */
  predicate LeavesBound<T(==)>(c: SpCond<T>, x: Option<T>) {
    x.Some? && c.left.Some? && c.left.value == (GE, x.value) && c.right.Some?
  }

  function FrontStored<T>(cs: seq<SpCond<T>>): seq<T> {
    if cs == [] then [] else Stored(cs[0]) + FrontStored(cs[1..])
  }

  predicate AcceptsRow<T(==)>(lt: (T, T) -> bool, cs: seq<SpCond<T>>, row: seq<Option<T>>)
    requires |row| == |cs|
  {
    forall i :: 0 <= i < |cs| ==> Accepts(lt, cs[i], row[i])
  }

  lemma AcceptsStep<T>(lt: (T, T) -> bool, cs: seq<SpCond<T>>, row: seq<Option<T>>)
    requires |row| == |cs| && cs != []
    ensures AcceptsRow(lt, cs, row) <==> Accepts(lt, cs[0], row[0]) && AcceptsRow(lt, cs[1..], row[1..])
  {
    hide Accepts;
    assert forall i :: 0 < i < |cs| ==> cs[i] == cs[1..][i - 1] && row[i] == row[1..][i - 1];
  }

  lemma OneColumn<T(!new)>(lt: (T, T) -> bool, c: SpCond<T>, x: Option<T>, rest: seq<T>)
    requires Linear(lt) && Proper(lt, c)
    ensures var t := ScaleCode(c);
            if x.None? then Accepts(lt, c, x) <==> t == EQUAL_NULL || t == ANY
            else
              var (pass, over) := Fcv(lt, t, Stored(c) + rest, x.value);
              && (pass <==> Accepts(lt, c, x))
              && (pass && !LeavesBound(c, x) ==> over == |Stored(c)|)
              && (pass ==> over <= |Stored(c)|)
    ensures x.None? && Accepts(lt, c, x) ==> Stored(c) == []
  {
    var vals := Stored(c) + rest;
    if c.left.Some? {
      assert vals[0] == c.left.value.1;
      if c.right.Some? && c.left.value.0 != EQU {
        assert vals[1] == c.right.value.1;
      }
    } else if c.right.Some? {
      assert vals[0] == c.right.value.1;
    }
  }

  /** One column of the row, whatever values lie behind its own. */
  lemma PassesStep<T(!new)>(lt: (T, T) -> bool, cs: seq<SpCond<T>>, rest: seq<T>, row: seq<Option<T>>)
    requires Linear(lt) && |row| == |cs| && cs != [] && Proper(lt, cs[0])
    ensures var c, x, p := cs[0], row[0], Passes(lt, cs, Stored(cs[0]) + rest, row);
            && (!Accepts(lt, c, x) ==> !p)
            && (Accepts(lt, c, x) && !LeavesBound(c, x) ==> p == Passes(lt, cs[1..], rest, row[1..]))
            && (LeavesBound(c, x) ==> p == Passes(lt, cs[1..], [c.right.value.1] + rest, row[1..]))
  {
    hide Linear, Proper, Accepts, ScaleCode, LeavesBound, Fcv, Stored;
    var c, x := cs[0], row[0];
    OneColumn(lt, c, x, rest);
    var vals := Stored(c) + rest;
    assert vals[|Stored(c)|..] == rest;
    if LeavesBound(c, x) {
      BoundLeft(lt, c, x, rest);
    } else if x.None? && Accepts(lt, c, x) {
      assert vals == rest;
    }
  }

  lemma BoundLeft<T(!new)>(lt: (T, T) -> bool, c: SpCond<T>, x: Option<T>, rest: seq<T>)
    requires Linear(lt) && Proper(lt, c) && LeavesBound(c, x)
    ensures var vals := Stored(c) + rest;
            x.Some? && |vals| > 0 && Fcv(lt, ScaleCode(c), vals, x.value) == (true, 1)
              && vals[1..] == [c.right.value.1] + rest
  {
    var vals := Stored(c) + rest;
    assert vals[0] == x.value && vals[1..] == [c.right.value.1] + rest;
  }

  /** A bound `b` left in front does no harm to the column: it reads none, or just this value. */
  predicate Fitting<T(==)>(c: SpCond<T>, b: T) { Stored(c) == [] || Stored(c) == [b] }

  /** A left-over bound in front of columns that read no other value changes nothing. */
  lemma {:induction false} LeftOverExact<T(!new)>(lt: (T, T) -> bool, cs: seq<SpCond<T>>, b: T, row: seq<Option<T>>)
    requires Linear(lt) && |row| == |cs| && forall c <- cs :: Proper(lt, c) && Fitting(c, b)
    ensures Passes(lt, cs, [b] + FrontStored(cs), row) <==> AcceptsRow(lt, cs, row)
    decreases |cs|
  {
    if cs != [] {
      hide Linear, Proper, Accepts, Passes, AcceptsRow;
      var ds := cs[1..];
      LeftOverPlace(cs, b);
      PassesStep(lt, cs, [b] + FrontStored(ds), row);
      AcceptsStep(lt, cs, row);
      LeftOverExact(lt, ds, b, row[1..]);
      OneBound(cs[0], b, row[0]);
    }
  }

  lemma LeftOverPlace<T>(cs: seq<SpCond<T>>, b: T)
    requires cs != [] && Fitting(cs[0], b)
    ensures [b] + FrontStored(cs) == Stored(cs[0]) + ([b] + FrontStored(cs[1..]))
  {
    hide Stored;
    assert FrontStored(cs) == Stored(cs[0]) + FrontStored(cs[1..]);
  }

  lemma OneBound<T>(c: SpCond<T>, b: T, x: Option<T>)
    requires Fitting(c, b)
    ensures !LeavesBound(c, x)
  {
    assert LeavesBound(c, x) ==> |Stored(c)| == 2;
  }

  /** The engine accepts exactly the rows that every interval accepts, unless a value meets the closed
      lower end of a two-sided interval and a later column reads another value than the upper one. */
  lemma {:induction false} PassesExact<T(!new)>(lt: (T, T) -> bool, cs: seq<SpCond<T>>, row: seq<Option<T>>)
    requires Linear(lt) && |row| == |cs| && forall c <- cs :: Proper(lt, c)
    requires forall i, k :: 0 <= i < k < |cs| && LeavesBound(cs[i], row[i]) ==> Fitting(cs[k], cs[i].right.value.1)
    ensures Passes(lt, cs, FrontStored(cs), row) <==> AcceptsRow(lt, cs, row)
    decreases |cs|
  {
    if cs != [] {
      hide Linear, Proper, Accepts, Passes, AcceptsRow, Stored, LeavesBound, Fitting;
      var c, x, ds, rest := cs[0], row[0], cs[1..], row[1..];
      PassesStep(lt, cs, FrontStored(ds), row);
      AcceptsStep(lt, cs, row);
      if LeavesBound(c, x) {
        assert c.right.Some? && Accepts(lt, c, x) by { AcceptsEnd(lt, c, x); }
        forall d | d in ds
          ensures Fitting(d, c.right.value.1)
        {
          var k :| 0 <= k < |ds| && ds[k] == d;
          assert cs[k + 1] == d;
        }
        LeftOverExact(lt, ds, c.right.value.1, rest);
      } else {
        assert forall i :: 0 <= i < |ds| ==> ds[i] == cs[i + 1] && rest[i] == row[i + 1];
        PassesExact(lt, ds, rest);
      }
    }
  }

  lemma AcceptsEnd<T(!new)>(lt: (T, T) -> bool, c: SpCond<T>, x: Option<T>)
    requires Linear(lt) && Proper(lt, c) && LeavesBound(c, x)
    ensures c.right.Some? && Accepts(lt, c, x)
  {}

  // ---- When the engine is right about all rows ----

  predicate ClosedTwoSided<T>(c: SpCond<T>) { c.left.Some? && c.left.value.0 == GE && c.right.Some? }

  /** No column behind a two-sided interval with a closed lower end reads another value than its upper
      bound. */
  predicate Readable<T(==)>(cs: seq<SpCond<T>>) {
    forall i, k :: 0 <= i < k < |cs| && ClosedTwoSided(cs[i]) ==> Fitting(cs[k], cs[i].right.value.1)
  }

  lemma ReadableExact<T(!new)>(lt: (T, T) -> bool, cs: seq<SpCond<T>>, row: seq<Option<T>>)
    requires Linear(lt) && |row| == |cs| && (forall c <- cs :: Proper(lt, c)) && Readable(cs)
    ensures Passes(lt, cs, FrontStored(cs), row) <==> AcceptsRow(lt, cs, row)
  {
    hide Linear, Proper, Accepts, Passes, AcceptsRow, Stored, Fitting, FrontStored;
    PassesExact(lt, cs, row);
  }

  /** A row that every interval accepts and that meets no closed lower end. */
  lemma {:induction false} Inner<T(!new)>(lt: (T, T) -> bool, cs: seq<SpCond<T>>) returns (row: seq<Option<T>>)
    requires Linear(lt) && Dense(lt) && forall c <- cs :: Proper(lt, c)
    ensures |row| == |cs| && AcceptsRow(lt, cs, row) && forall i :: 0 <= i < |cs| ==> !LeavesBound(cs[i], row[i])
    decreases |cs|
  {
    row := [];
    if cs != [] {
      hide Linear, Dense, Proper, Accepts, LeavesBound;
      var x := InnerValue(lt, cs[0]);
      var rest := Inner(lt, cs[1..]);
      row := [x] + rest;
      assert row[1..] == rest;
      AcceptsStep(lt, cs, row);
      assert forall i :: 0 < i < |cs| ==> cs[i] == cs[1..][i - 1] && row[i] == rest[i - 1];
    }
  }

  lemma InnerValue<T(!new)>(lt: (T, T) -> bool, c: SpCond<T>) returns (x: Option<T>)
    requires Linear(lt) && Dense(lt) && Proper(lt, c)
    ensures Accepts(lt, c, x) && !LeavesBound(c, x)
  {
    if ClosedTwoSided(c) {
      var y := MiddleValue(lt, Some(c.left.value.1), Some(c.right.value.1));
      x := Some(y);
    } else {
      Inhabited(lt, c);
      x :| Accepts(lt, c, x);
    }
  }

  lemma MiddleValue<T(!new)>(lt: (T, T) -> bool, a: Option<T>, b: Option<T>) returns (x: T)
    requires Dense(lt) && Below(lt, a, b)
    ensures Between(lt, a, x, b)
  {
    x :| Between(lt, a, x, b);
  }

  /** Behind a left-over bound `b` a column that reads another value is misjudged: it refuses an accepted
      value, or it takes an accepted value `x` and a refused one `y` alike. */
  lemma Misjudged<T(!new)>(lt: (T, T) -> bool, c: SpCond<T>, b: T, rest: seq<T>) returns (x: T, y: T)
    requires Linear(lt) && Dense(lt) && Proper(lt, c) && !Fitting(c, b)
    ensures Accepts(lt, c, Some(x))
    ensures var t, vals := ScaleCode(c), [b] + Stored(c) + rest;
            !Fcv(lt, t, vals, x).0 || (Fcv(lt, t, vals, x) == Fcv(lt, t, vals, y) && !Accepts(lt, c, Some(y)))
  {
    hide Dense;
    var vals := [b] + Stored(c) + rest;
    assert vals[0] == b;
    if c.left.Some? && (c.left.value.0 == EQU || c.right.Some?) {
      x, y := JudgedTwo(lt, c, b, vals);
    } else if c.left.Some? {
      x, y := JudgedLower(lt, c, b, vals);
    } else {
      x, y := JudgedUpper(lt, c, b, vals);
    }
  }

  /** An equality, or both bounds: an accepted value other than `b` is refused. */
  lemma JudgedTwo<T(!new)>(lt: (T, T) -> bool, c: SpCond<T>, b: T, vals: seq<T>) returns (x: T, y: T)
    requires Linear(lt) && Dense(lt) && Proper(lt, c) && !Fitting(c, b) && [b] + Stored(c) <= vals
    requires c.left.Some? && (c.left.value.0 == EQU || c.right.Some?)
    ensures Accepts(lt, c, Some(x)) && !Fcv(lt, ScaleCode(c), vals, x).0
  {
    hide Dense;
    var l := c.left.value.1;
    y := b;
    assert vals[0] == b && vals[1] == ([b] + Stored(c))[1] == l;
    if c.left.value.0 == EQU {
      x := l;
    } else {
      var u := c.right.value.1;
      x := MiddleValue(lt, Some(l), Some(u));
      if x == b {
        x := MiddleValue(lt, Some(l), Some(b));
      }
    }
  }

  /** A lower bound only. */
  lemma JudgedLower<T(!new)>(lt: (T, T) -> bool, c: SpCond<T>, b: T, vals: seq<T>) returns (x: T, y: T)
    requires Linear(lt) && Dense(lt) && Proper(lt, c) && !Fitting(c, b) && vals != [] && vals[0] == b
    requires c.left.Some? && c.left.value.0 != EQU && c.right.None?
    ensures Accepts(lt, c, Some(x))
    ensures var t := ScaleCode(c);
            !Fcv(lt, t, vals, x).0 || (Fcv(lt, t, vals, x) == Fcv(lt, t, vals, y) && !Accepts(lt, c, Some(y)))
  {
    hide Dense;
    var l := c.left.value.1;
    assert Stored(c) == [l];
    if lt(l, b) {
      x := MiddleValue(lt, Some(l), Some(b));
      y := x;
    } else {
      x := MiddleValue(lt, Some(l), None);
      y := MiddleValue(lt, Some(b), Some(l));
    }
  }

  /** An upper bound only. */
  lemma JudgedUpper<T(!new)>(lt: (T, T) -> bool, c: SpCond<T>, b: T, vals: seq<T>) returns (x: T, y: T)
    requires Linear(lt) && Dense(lt) && Proper(lt, c) && !Fitting(c, b) && vals != [] && vals[0] == b
    requires c.left.None? && c.right.Some?
    ensures Accepts(lt, c, Some(x))
    ensures var t := ScaleCode(c);
            !Fcv(lt, t, vals, x).0 || (Fcv(lt, t, vals, x) == Fcv(lt, t, vals, y) && !Accepts(lt, c, Some(y)))
  {
    hide Dense;
    var u := c.right.value.1;
    assert Stored(c) == [u];
    if lt(b, u) {
      x := MiddleValue(lt, Some(b), Some(u));
      y := x;
    } else {
      x := MiddleValue(lt, None, Some(u));
      y := MiddleValue(lt, Some(u), Some(b));
    }
  }

  /** The same decision and the same values read: the row fares alike with either value. */
  lemma AlikePasses<T(!new)>(lt: (T, T) -> bool, cs: seq<SpCond<T>>, vals: seq<T>, x: T, y: T, rest: seq<Option<T>>)
    requires cs != [] && |rest| == |cs| - 1 && Fcv(lt, ScaleCode(cs[0]), vals, x) == Fcv(lt, ScaleCode(cs[0]), vals, y)
    ensures Passes(lt, cs, vals, [Some(x)] + rest) == Passes(lt, cs, vals, [Some(y)] + rest)
    ensures !Fcv(lt, ScaleCode(cs[0]), vals, x).0 ==> !Passes(lt, cs, vals, [Some(x)] + rest)
  {
    hide Fcv, ScaleCode;
    assert ([Some(x)] + rest)[1..] == rest && ([Some(y)] + rest)[1..] == rest;
  }

  /** Behind a left-over bound some row is misjudged, if a column reads another value. */
  lemma {:induction false} LeftOverMisjudged<T(!new)>(lt: (T, T) -> bool, cs: seq<SpCond<T>>, b: T)
    returns (row: seq<Option<T>>)
    requires Linear(lt) && Dense(lt) && (forall c <- cs :: Proper(lt, c)) && exists c <- cs :: !Fitting(c, b)
    ensures |row| == |cs| && (Passes(lt, cs, [b] + FrontStored(cs), row) <==> !AcceptsRow(lt, cs, row))
    decreases |cs|
  {
    hide Linear, Dense, Proper, Accepts, Passes, AcceptsRow, Stored, LeavesBound, Fcv, ScaleCode, Fitting;
    var c, ds, vals := cs[0], cs[1..], [b] + FrontStored(cs);
    if Fitting(c, b) {
      var x := InnerValue(lt, c);
      var rest := LeftOverMisjudged(lt, ds, b);
      row := [x] + rest;
      assert row[1..] == rest;
      LeftOverPlace(cs, b);
      PassesStep(lt, cs, [b] + FrontStored(ds), row);
      AcceptsStep(lt, cs, row);
    } else {
      var rest := Inner(lt, ds);
      assert vals == [b] + Stored(c) + FrontStored(ds);
      var x, y := Misjudged(lt, c, b, FrontStored(ds));
      row := [Some(x)] + rest;
      assert row[1..] == rest && ([Some(y)] + rest)[1..] == rest;
      AcceptsStep(lt, cs, row);
      AcceptsStep(lt, cs, [Some(y)] + rest);
      if Fcv(lt, ScaleCode(c), vals, x).0 {
        AlikePasses(lt, cs, vals, x, y, rest);
        if Passes(lt, cs, vals, row) {
          row := [Some(y)] + rest;
        }
      } else {
        AlikePasses(lt, cs, vals, x, x, rest);
      }
    }
  }

  /** If a column reads another value than the upper bound of an earlier closed interval, the engine
      misjudges some row. */
  lemma {:induction false} SomeMisjudged<T(!new)>(lt: (T, T) -> bool, cs: seq<SpCond<T>>, i: nat, k: nat)
    returns (row: seq<Option<T>>)
    requires Linear(lt) && Dense(lt) && forall c <- cs :: Proper(lt, c)
    requires i < k < |cs| && ClosedTwoSided(cs[i]) && !Fitting(cs[k], cs[i].right.value.1)
    ensures |row| == |cs| && (Passes(lt, cs, FrontStored(cs), row) <==> !AcceptsRow(lt, cs, row))
    decreases i
  {
    hide Linear, Dense, Proper, Accepts, Passes, AcceptsRow, Stored, Fitting;
    var c, ds := cs[0], cs[1..];
    var x, rest;
    if i == 0 {
      x := Some(c.left.value.1);
      assert ds[k - 1] == cs[k];
      rest := LeftOverMisjudged(lt, ds, c.right.value.1);
      AcceptsEnd(lt, c, x);
    } else {
      x := InnerValue(lt, c);
      rest := SomeMisjudged(lt, ds, i - 1, k - 1);
    }
    row := [x] + rest;
    assert row[1..] == rest;
    PassesStep(lt, cs, FrontStored(ds), row);
    AcceptsStep(lt, cs, row);
  }

  /** Over a dense order the engine accepts exactly the rows that all intervals accept, if and only if no
      column behind a two-sided interval with a closed lower end reads another value than its upper bound. */
  lemma PassesIff<T(!new)>(lt: (T, T) -> bool, cs: seq<SpCond<T>>)
    requires Linear(lt) && Dense(lt) && forall c <- cs :: Proper(lt, c)
    ensures (forall row: seq<Option<T>> | |row| == |cs| ::
               Passes(lt, cs, FrontStored(cs), row) <==> AcceptsRow(lt, cs, row))
            <==> Readable(cs)
  {
    hide Linear, Dense, Proper, Accepts, Passes, AcceptsRow, Stored, Fitting, FrontStored;
    if Readable(cs) {
      forall row: seq<Option<T>> | |row| == |cs|
        ensures Passes(lt, cs, FrontStored(cs), row) <==> AcceptsRow(lt, cs, row)
      {
        ReadableExact(lt, cs, row);
      }
    } else {
      var i, k :| 0 <= i < k < |cs| && ClosedTwoSided(cs[i]) && !Fitting(cs[k], cs[i].right.value.1);
      var row := SomeMisjudged(lt, cs, i, k);
    }
  }

  /** With `a` between 1 and 5 and `b` equal to 7 the row (1, 7) meets both conditions, but the engine
      compares 7 with the 5 it left behind and drops the row. */
  lemma RowLost()
    ensures var lt := (x: int, y: int) => x < y;
            var cs := [SpCond(Some((GE, 1)), Some((LE, 5)), NoNullTest), SpCond(Some((EQU, 7)), None, NoNullTest)];
            var row := [Some(1), Some(7)];
            && Accepts(lt, cs[0], row[0]) && Accepts(lt, cs[1], row[1])
            && !Passes(lt, cs, FrontStored(cs), row)
  {
    var lt := (x: int, y: int) => x < y;
    var cs := [SpCond(Some((GE, 1)), Some((LE, 5)), NoNullTest), SpCond(Some((EQU, 7)), None, NoNullTest)];
    var row := [Some(1), Some(7)];
    assert cs[1..] == [cs[1]] && row[1..] == [row[1]];
    assert FrontStored(cs[1..]) == [7];
    assert FrontStored(cs) == [1, 5, 7];
    assert Fcv(lt, SESE, [1, 5, 7], 1) == (true, 1);
    assert [1, 5, 7][1..] == [5, 7];
    assert !Passes(lt, cs[1..], [5, 7], row[1..]);
  }

  const ONE_TO_FIVE := SpCond(Some((GE, 1)), Some((LE, 5)), NoNullTest)
  const FOUR_TO_FIVE := SpCond(Some((GT, 4)), Some((LT, 5)), NoNullTest)

  lemma NeverBetween(vals: seq<int>, x: Option<int>)
    requires vals in {[4, 5], [5, 4, 5]}
    ensures !Accepts(LessInt, FOUR_TO_FIVE, x) && !Passes(LessInt, [FOUR_TO_FIVE], vals, [x])
  {
    assert ScaleCode(FOUR_TO_FIVE) == SS;
    hide Passes, ScaleCode;
    assert x.Some? ==> !Fcv(LessInt, SS, vals, x.value).0;
    hide Fcv;
    PassesFirst(LessInt, FOUR_TO_FIVE, vals, x);
  }

  lemma PassesFirst<T(!new)>(lt: (T, T) -> bool, c: SpCond<T>, vals: seq<T>, x: Option<T>)
    ensures Passes(lt, [c], vals, [x]) ==>
              if x.Some? then Fcv(lt, ScaleCode(c), vals, x.value).0 else ScaleCode(c) in {EQUAL_NULL, ANY}
  {}

  /** Density is needed: over the integers a bound can be misread without harm, if no value meets the
      condition behind it anyway. */
  lemma GapSpared(row: seq<Option<int>>)
    requires |row| == 2
    ensures var cs := [ONE_TO_FIVE, FOUR_TO_FIVE];
            !Readable(cs) && (Passes(LessInt, cs, FrontStored(cs), row) <==> AcceptsRow(LessInt, cs, row))
  {
    var cs := [ONE_TO_FIVE, FOUR_TO_FIVE];
    assert ClosedTwoSided(cs[0]) && !Fitting(cs[1], 5);
    assert Stored(cs[0]) == [1, 5] && Stored(cs[1]) == [4, 5];
    assert cs[1..] == [FOUR_TO_FIVE] && row[1..] == [row[1]];
    assert FrontStored([FOUR_TO_FIVE]) == [4, 5];
    assert [5] + [4, 5] == [5, 4, 5];
    assert Linear(LessInt) && Proper(LessInt, ONE_TO_FIVE);
    hide Linear, Proper, Passes, FrontStored, Stored, Readable, Accepts;
    assert FrontStored(cs) == [1, 5] + [4, 5] by { FrontTwo(cs); }
    PassesStep(LessInt, cs, [4, 5], row);
    NeverBetween([4, 5], row[1]);
    NeverBetween([5, 4, 5], row[1]);
  }

  lemma FrontTwo<T>(cs: seq<SpCond<T>>)
    requires |cs| == 2
    ensures FrontStored(cs) == Stored(cs[0]) + Stored(cs[1])
  {
    hide Stored;
    assert cs[1..][1..] == [];
    assert FrontStored(cs[1..]) == Stored(cs[1]);
  }
}
