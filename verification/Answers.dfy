/** What a query means, independent of how it is carried out: the combinations of rows on which every
    condition is TRUE. The loops that are emitted for it produce exactly that. */
module Answers {
  import opened TableMasks
  import opened Expressions
  import opened ThreeValued
  import opened ScanConditions
  import opened RowTest
  import opened Program
  import opened Interp
  import opened Options

  // ---- The declarative meaning ----

  /** SQL's WHERE keeps a row only if the condition is TRUE. */
  predicate True(n: Node, env: Env) { n.Node? && Sem(n, env) == Some(TRUE) }

  /** A condition of a scan, written as a condition on the current row. */
  function TreeOf(p: Simple, hole: int, col: nat): Node {
    match p
    case NullTest(negated) =>
      Node(if negated then ISNOTNULL else ISNULL, 1, Node(OPERAND, 0, Nil, Nil, Column(hole, col)), Nil, Const(HOLE))
    case ColumnTest(code, expr) =>
      Node(code, 2, Node(OPERAND, 0, Nil, if expr.Node? then expr.(rh := Nil) else Nil, Column(hole, col)), Nil,
           Const(HOLE))
  }

  ghost predicate ColumnTrue(t: Table, c: nat, e: Env)
    requires c < |t.list|
  {
    forall i :: 0 <= i < |t.list[c]| ==> True(TreeOf(t.list[c][i], t.hole, c), e)
  }

  ghost predicate ScanTrue(t: Table, e: Env) {
    forall c :: 0 <= c < |t.list| ==> ColumnTrue(t, c, e)
  }

  /** Every condition of the tables and every conjunct is TRUE. */
  ghost predicate AllTrue(tables: seq<Table>, ands: seq<Option<Node>>, e: Env) {
    && (forall i :: 0 <= i < |ands| && ands[i].Some? ==> True(ands[i].value, e))
    && (forall t :: t in tables ==> ScanTrue(t, e))
  }

  /** All combinations of rows of the tables, the first table varying slowest. */
  ghost function Product(tables: seq<Table>, db: Database, env: Env): seq<Env>
    decreases |tables|, 1, 0
  {
    if tables == [] then [env]
    else if tables[0].base in db then ProductRows(db[tables[0].base], tables, db, env) else []
  }

  ghost function ProductRows(rows: seq<Row>, tables: seq<Table>, db: Database, env: Env): seq<Env>
    requires tables != []
    decreases |tables|, 0, |rows|
  {
    if rows == [] then []
    else Product(tables[1..], db, env[tables[0].hole := rows[0]]) + ProductRows(rows[1..], tables, db, env)
  }

  /** The result of one combination. */
  ghost function Given(tables: seq<Table>, ands: seq<Option<Node>>, outs: seq<Node>, e: Env): seq<Row> {
    if AllTrue(tables, ands, e) && exists row :: IsRow(outs, e, row) then
      var row :| IsRow(outs, e, row);
      [row]
    else []
  }

  lemma GivenIs(tables: seq<Table>, ands: seq<Option<Node>>, outs: seq<Node>, e: Env)
    ensures Given(tables, ands, outs, e)
            == if AllTrue(tables, ands, e) && Outs(outs, e).Ok? then [Outs(outs, e).value] else []
  {
    hide IsRow, Outs, AllTrue;
    forall row | IsRow(outs, e, row)
      ensures Outs(outs, e) == Ok(row)
    {
      OutsIff(outs, e, row);
    }
    if Outs(outs, e).Ok? {
      OutsIff(outs, e, Outs(outs, e).value);
    }
  }

  ghost function Results(es: seq<Env>, tables: seq<Table>, ands: seq<Option<Node>>, outs: seq<Node>): seq<Row> {
    if es == [] then [] else Given(tables, ands, outs, es[0]) + Results(es[1..], tables, ands, outs)
  }

  lemma {:induction false} ResultsConcat(ds: seq<Env>, es: seq<Env>, tables: seq<Table>, ands: seq<Option<Node>>,
                                         outs: seq<Node>)
    ensures Results(ds + es, tables, ands, outs) == Results(ds, tables, ands, outs) + Results(es, tables, ands, outs)
    decreases |ds|
  {
    hide Given;
    if ds == [] {
      assert ds + es == es;
    } else {
      assert (ds + es)[1..] == ds[1..] + es;
      ResultsConcat(ds[1..], es, tables, ands, outs);
    }
  }

  // ---- The meaning depends only on the rows referred to ----

  lemma {:induction false} SemAgree(n: Node, d: Env, e: Env, known: set<int>)
    requires n.Node? && Deps(n) <= known && Agree(d, e, known)
    ensures Sem(n, d) == Sem(n, e)
    decreases n, 0
  {
    hide Meaning;
    if !Leaf(n) {
      SemAllAgree(n.dn, d, e, known);
    }
  }

  lemma {:induction false} SemAllAgree(cur: Node, d: Env, e: Env, known: set<int>)
    requires DepsAll(cur) <= known && Agree(d, e, known)
    ensures SemAll(cur, d) == SemAll(cur, e)
    decreases cur, 1
  {
    hide Sem, Deps;
    if cur.Node? {
      SemAgree(cur, d, e, known);
      SemAllAgree(cur.rh, d, e, known);
    }
  }

  // ---- When evaluation cannot fail ----

  /** The tree is well typed and has a value. */
  ghost predicate Sound(n: Node, e: Env) { n.Node? && Typed(n, BOOL, e) && Sem(n, e).Some? }

  /** The rows referred to are among those that can be current: `cand` has the rows of each place. */
  ghost predicate Chosen(e: Env, cand: Database, deps: set<int>) {
    forall h :: h in deps ==> h in e && h in cand && e[h] in cand[h]
  }

  /** The tree is sound whatever rows are current. */
  ghost predicate AlwaysSound(n: Node, cand: Database) {
    n.Node? && forall e: Env :: Chosen(e, cand, Deps(n)) ==> Sound(n, e)
  }

  ghost predicate AlwaysYields(n: Node, cand: Database) {
    n.Node? && forall e: Env :: Chosen(e, cand, Deps(n)) ==> Run(n, e).Ok?
  }

  lemma Unlinked(n: Node, rh: Node, t: Type, e: Env)
    requires n.Node?
    ensures Run(n.(rh := rh), e) == Run(n, e) && Sem(n.(rh := rh), e) == Sem(n, e)
            && (Typed(n.(rh := rh), t, e) <==> Typed(n, t, e))
  {
    hide Meaning;
  }

  /** A sound condition lets a row through if and only if it is TRUE. */
  lemma GoesIff(n: Node, e: Env)
    requires Sound(n, e)
    ensures Run(n, e).Ok? && (Goes(Run(n, e).value) <==> True(n, e))
    ensures Sem(n, e).value in {Missing, FALSE, TRUE}
  {
    RunMeans(n, BOOL, e);
  }

  lemma {:induction false} ChainMeans(cs: seq<Node>, e: Env)
    requires forall c :: c in cs ==> c.Node? && Sound(c, e)
    ensures Count(Chain(cs)) == |cs| && AllTyped(Chain(cs), BOOL, e) && SemAll(Chain(cs), e).Some?
    ensures var vs := SemAll(Chain(cs), e).value;
            |vs| == |cs| && (forall i :: 0 <= i < |cs| ==> Sem(cs[i], e) == Some(vs[i]))
  {
    hide Typed, Sem;
    if cs != [] {
      ChainMeans(cs[1..], e);
      var ch := Chain(cs);
      Unlinked(cs[0], Chain(cs[1..]), BOOL, e);
      assert ch.rh == Chain(cs[1..]);
      var ws := SemAll(ch.rh, e).value;
      assert SemAll(ch, e).value == [Sem(cs[0], e).value] + ws;
      assert forall i :: 0 < i < |cs| ==> cs[i] == cs[1..][i - 1];
    }
  }

  /** The tree that a loop tests lets a row through if and only if every conjunct of the level is TRUE. */
  lemma UntilMeans(cs: seq<Node>, e: Env)
    requires forall c :: c in cs ==> c.Node? && Sound(c, e)
    ensures Verdict(UntilTree(cs), e) == Ok(forall c :: c in cs ==> True(c, e))
  {
    hide Typed, Run, Chain;
    if |cs| == 1 {
      Unlinked(cs[0], Nil, BOOL, e);
      GoesIff(cs[0], e);
    } else if |cs| > 1 {
      ChainMeans(cs, e);
      var n, vs := UntilTree(cs).value, SemAll(Chain(cs), e).value;
      forall i | 0 <= i < |cs|
        ensures vs[i] in {Missing, FALSE, TRUE} && (vs[i] == TRUE <==> True(cs[i], e))
      {
        assert cs[i] in cs;
        GoesIff(cs[i], e);
      }
      AndTyped(n, e);
      GoesIff(n, e);
      assert Sem(n, e) == Some(Conjunction(vs)) by { AndSem(n, e); }
      if forall i :: 0 <= i < |cs| ==> vs[i] == TRUE {
        assert forall c :: c in cs ==> True(c, e);
        assert FALSE !in vs && Missing !in vs;
      } else {
        var i :| 0 <= i < |cs| && vs[i] != TRUE;
        assert cs[i] in cs && !True(cs[i], e);
        assert vs[i] in vs;
      }
    }
  }

  lemma AndTyped(n: Node, e: Env)
    requires n.Node? && n.code == AND && n.dn.Node? && n.arity == Count(n.dn) >= 2 && AllTyped(n.dn, BOOL, e)
             && SemAll(n.dn, e).Some?
    ensures Sound(n, e)
  {
    AndSem(n, e);
  }

  lemma AndSem(n: Node, e: Env)
    requires n.Node? && n.code == AND && n.dn.Node? && SemAll(n.dn, e).Some?
    ensures Sem(n, e) == Some(Conjunction(SemAll(n.dn, e).value))
  {}

  // ---- The conditions of a scan ----

  lemma {:induction false} CompareSymmetric(s: string, t: string)
    ensures Compare(s, t) == -Compare(t, s) && (Compare(s, t) == 0 <==> s == t)
  {
    if s != [] && t != [] && s[0] == t[0] {
      CompareSymmetric(s[1..], t[1..]);
      assert s == [s[0]] + s[1..] && t == [t[0]] + t[1..];
    }
  }

  lemma {:induction false} CompareTransitive(s: string, t: string, u: string)
    requires Compare(s, t) < 0 && Compare(t, u) < 0
    ensures Compare(s, u) < 0
  {
    if s != [] && t != [] && u != [] && s[0] == t[0] == u[0] {
      CompareTransitive(s[1..], t[1..], u[1..]);
    }
  }

  lemma LessLinear()
    ensures Linear(Less)
  {
    forall a: Key, b: Key
      ensures Less(a, b) ==> !Less(b, a)
      ensures Less(a, b) || Less(b, a) || a == b
    {
      if a.KStr? && b.KStr? {
        CompareSymmetric(a.s, b.s);
      }
    }
    forall a: Key, b: Key, c: Key | Less(a, b) && Less(b, c)
      ensures Less(a, c)
    {
      if a.KStr? && b.KStr? && c.KStr? {
        CompareTransitive(a.s, b.s, c.s);
      }
    }
  }

  /** The order of the keys is the comparison of expressions. */
  lemma RelatedHolds(code: Code, a: Value, b: Value)
    requires code in {EQU, LE, GE, LT, GT} && a.kind == b.kind
    ensures Related(Less, code, KeyOf(a), KeyOf(b))
            <==> Holds(code, if a.kind == Num then a.num - b.num else Compare(a.str, b.str))
  {
    CompareSymmetric(a.str, b.str);
  }

  /** A scan condition holds of a column value exactly when its tree is TRUE of the row. */
  lemma SimpleMeans(p: Simple, hole: int, col: nat, env: Env, row: Row)
    requires Sound(TreeOf(p, hole, col), env[hole := row])
    requires p.ColumnTest? ==> p.code in {EQU, LE, GE, LT, GT} && p.expr.Node? && hole !in Deps(p.expr)
    ensures Satisfies(Less, PredicateOf(p, env), ColumnValue(row, col))
            <==> True(TreeOf(p, hole, col), env[hole := row])
    ensures p.ColumnTest? ==> Run(p.expr, env).Ok?
  {
    hide Compare, Holds, Related, Run;
    var e, n := env[hole := row], TreeOf(p, hole, col);
    var leaf := Node(OPERAND, 0, Nil, n.dn.rh, Column(hole, col));
    assert n.dn == leaf;
    assert SemAll(n.dn, e).Some?;
    SemAllStep(n.dn, e);
    assert col < |row| && row[col].nl != Unknown && Sem(leaf, e) == Some(Abs(row[col]));
    if p.ColumnTest? {
      ColumnTestMeans(p, hole, col, env, row);
    } else {
      assert SemAll(n.dn, e).value == [Abs(row[col])];
      assert Sem(n, e) == Meaning(n.code, [Abs(row[col])]);
    }
  }

  lemma ColumnTestMeans(p: Simple, hole: int, col: nat, env: Env, row: Row)
    requires p.ColumnTest? && p.code in {EQU, LE, GE, LT, GT} && p.expr.Node? && hole !in Deps(p.expr)
    requires Sound(TreeOf(p, hole, col), env[hole := row]) && col < |row| && row[col].nl != Unknown
    ensures Run(p.expr, env).Ok?
    ensures Satisfies(Less, PredicateOf(p, env), ColumnValue(row, col))
            <==> True(TreeOf(p, hole, col), env[hole := row])
  {
    hide Compare, Holds, Related, Deps, Run, NumbersRelate, TextsRelate;
    var e, n, colv := env[hole := row], TreeOf(p, hole, col), row[col];
    var x := n.dn.rh;
    var t := if AllTyped(n.dn, NUMBER, e) then NUMBER else TEXT;
    assert n.dn == Node(OPERAND, 0, Nil, x, Column(hole, col));
    assert Fetch(n.dn.src, e) == colv;
    assert AllTyped(n.dn, t, e) && AllTyped(x, t, e);
    assert Typed(n.dn, t, e);
    assert Fits(colv, t);
    SemAllStep(n.dn, e);
    SemAllStep(x, e);
    RunMeans(x, t, e);
    var v := Standing(x, t, e);
    assert SemAll(n.dn, e).value == [Abs(colv), Abs(v)];
    assert Sem(n, e) == Compared(p.code, Abs(colv), Abs(v));
    Unlinked(p.expr, Nil, t, e);
    assert Agree(env, e, Deps(p.expr));
    RunAgree(p.expr, env, e, Deps(p.expr));
    RelatedHolds(p.code, colv, v);
    HoldsNumbers(p.code, colv.num, v.num);
    HoldsTexts(p.code, colv.str, v.str);
  }

  ghost predicate SimpleSound(p: Simple, hole: int, col: nat, cand: Database, known: set<int>) {
    && AlwaysSound(TreeOf(p, hole, col), cand)
    && (p.ColumnTest?
        ==> p.code in {EQU, LE, GE, LT, GT} && p.expr.Node? && Deps(p.expr) <= known && AlwaysYields(p.expr, cand))
  }

  /** The engine reads the right bounds for every row. */
  ghost predicate ScanReadable(list: seq<seq<Simple>>, env: Env) {
    && (forall ps :: ps in list ==> WellFormed(ps))
    && var r := ConditionsOf(list, env); r.Intervals? ==> Readable(r.cs)
  }

  /** The scan of `t` has the rows of its base table, its conditions refer to rows known before, and the
      engine reads their bounds right. */
  ghost predicate TableSound(t: Table, cand: Database, db: Database, known: set<int>) {
    && t.hole !in known && t.base in db && t.hole in cand && cand[t.hole] == db[t.base]
    && (forall c, i :: 0 <= c < |t.list| && 0 <= i < |t.list[c]| ==> SimpleSound(t.list[c][i], t.hole, c, cand, known))
    && (forall env: Env :: Chosen(env, cand, known) ==> ScanReadable(t.list, env))
  }

  lemma TreeDeps(p: Simple, hole: int, col: nat)
    requires p.ColumnTest? ==> p.expr.Node?
    ensures Deps(TreeOf(p, hole, col)) == {hole} + if p.ColumnTest? then Deps(p.expr) else {}
  {
    hide Deps;
    var n := TreeOf(p, hole, col);
    DepsOf(n);
    DepsOf(n.dn);
    if p.ColumnTest? {
      DepsUnlinked(p.expr, Nil);
      assert n.dn.rh.rh.Nil?;
      assert DepsAll(n.dn.rh) == Deps(n.dn.rh) + DepsAll(Nil);
    }
    assert DepsAll(n.dn) == Deps(n.dn) + DepsAll(n.dn.rh);
  }

  lemma DepsOf(n: Node)
    requires n.Node?
    ensures Deps(n) == if Leaf(n) then (if n.src.Column? then {n.src.table} else {}) else DepsAll(n.dn)
  {}

  /** The predicates of one column are satisfied by its value if and only if its conditions are TRUE. */
  lemma ColumnSatisfies(t: Table, c: nat, env: Env, row: Row, cand: Database, db: Database, known: set<int>)
    requires TableSound(t, cand, db, known) && Chosen(env, cand, known) && c < |t.list| && row in db[t.base]
    ensures WellFormed(t.list[c])
    ensures var qs := Predicates(t.list[c], env);
            && (forall q <- qs :: ScanConditions.Simple(q))
            && (SatisfiesAll(Less, qs, ColumnValue(row, c)) <==> ColumnTrue(t, c, env[t.hole := row]))
  {
    hide Deps, Run, Satisfies, TreeOf, Sound, True;
    var ps, e := t.list[c], env[t.hole := row];
    var qs := Predicates(ps, env);
    forall i | 0 <= i < |ps|
      ensures Satisfies(Less, qs[i], ColumnValue(row, c)) <==> True(TreeOf(ps[i], t.hole, c), e)
      ensures ScanConditions.Simple(qs[i])
    {
      assert SimpleSound(ps[i], t.hole, c, cand, known);
      TreeDeps(ps[i], t.hole, c);
      assert Chosen(e, cand, Deps(TreeOf(ps[i], t.hole, c)));
      SimpleMeans(ps[i], t.hole, c, env, row);
    }
  }

  /** The conditions of one column. */
  lemma ColumnMeans(t: Table, c: nat, env: Env, row: Row, cand: Database, db: Database, known: set<int>)
    requires TableSound(t, cand, db, known) && Chosen(env, cand, known) && c < |t.list| && row in db[t.base]
    ensures WellFormed(t.list[c])
    ensures var r, ts := Interval(Less, Predicates(t.list[c], env)), env[t.hole := row];
            && (r.Bounds? ==> (Accepts(Less, r.c, ColumnValue(row, c)) <==> ColumnTrue(t, c, ts)))
            && (r.Incompatible? ==> !ColumnTrue(t, c, ts))
  {
    hide Accepts, Interval, Linear, SatisfiesAll, ColumnTrue, TableSound, Chosen, Less, Predicates, ColumnValue;
    ColumnSatisfies(t, c, env, row, cand, db, known);
    LessLinear();
    ColumnExact(Less, Predicates(t.list[c], env), ColumnValue(row, c));
  }

  /** Scan conditions never fail, and no interval fails for lack of rows. */
  lemma ColumnYields(t: Table, c: nat, env: Env, cand: Database, db: Database, known: set<int>)
    requires TableSound(t, cand, db, known) && Chosen(env, cand, known) && c < |t.list|
    ensures WellFormed(t.list[c]) && !Interval(Less, Predicates(t.list[c], env)).Failed?
    ensures Interval(Less, Predicates(t.list[c], env)).Bounds?
            ==> Proper(Less, Interval(Less, Predicates(t.list[c], env)).c)
  {
    hide Deps, Run, Accepts, Interval, Linear, Satisfies, TreeOf, Sound, True;
    var ps := t.list[c];
    var qs := Predicates(ps, env);
    forall i | 0 <= i < |ps|
      ensures ScanConditions.Simple(qs[i]) && (qs[i].Comparison? ==> !qs[i].c.Fault?)
    {
      assert SimpleSound(ps[i], t.hole, c, cand, known);
      if ps[i].ColumnTest? {
        assert Chosen(env, cand, Deps(ps[i].expr));
      }
    }
    LessLinear();
    ColumnExact(Less, qs, None);
    ColumnProper(Less, qs);
  }

  /** The intervals from column `k` on. */
  lemma {:induction false} ColumnsMean(t: Table, k: nat, env: Env, cand: Database, db: Database, known: set<int>)
    requires TableSound(t, cand, db, known) && Chosen(env, cand, known) && k <= |t.list|
    ensures forall ps :: ps in t.list[k..] ==> WellFormed(ps)
    ensures var r := ConditionsOf(t.list[k..], env);
            && !r.Fails?
            && (r.Intervals? ==> |r.cs| == |t.list| - k && forall j :: 0 <= j < |r.cs| ==>
                                  Interval(Less, Predicates(t.list[k + j], env)) == Bounds(r.cs[j])
                                    && Proper(Less, r.cs[j]))
            && (r.Nothing?
                ==> exists c :: k <= c < |t.list| && Interval(Less, Predicates(t.list[c], env)).Incompatible?)
    decreases |t.list| - k
  {
    hide Interval, TableSound, Predicates, Less;
    if k < |t.list| {
      ColumnYields(t, k, env, cand, db, known);
      ColumnsMean(t, k + 1, env, cand, db, known);
      assert t.list[k..][1..] == t.list[k + 1..] && t.list[k..][0] == t.list[k];
      var r, q := ConditionsOf(t.list[k..], env), ConditionsOf(t.list[k + 1..], env);
      if r.Intervals? {
        assert forall j :: 0 < j < |r.cs| ==> r.cs[j] == q.cs[j - 1] && t.list[k + j] == t.list[k + 1 + (j - 1)];
      }
    }
  }

  /** A scan delivers exactly the rows on which all its conditions are TRUE; it is not opened only if
      there is no such row. */
  lemma ScanMeans(t: Table, env: Env, cand: Database, db: Database, known: set<int>)
    requires TableSound(t, cand, db, known) && Chosen(env, cand, known)
    ensures forall ps :: ps in t.list ==> WellFormed(ps)
    ensures var r := ConditionsOf(t.list, env);
            && !r.Fails?
            && forall row :: row in db[t.base]
                 ==> (ScanTrue(t, env[t.hole := row]) <==> r.Intervals? && RowAccepted(r.cs, row))
  {
    var rows := db[t.base];
    hide SimpleSound, Interval, ConditionsOf, Accepts, ColumnTrue, Predicates, Less, ColumnValue, Proper, Readable,
         Linear, Passes, FrontStored, Chosen;
    ColumnsMean(t, 0, env, cand, db, known);
    assert t.list[0..] == t.list;
    var r := ConditionsOf(t.list, env);
    forall row | row in rows
      ensures ScanTrue(t, env[t.hole := row]) <==> r.Intervals? && RowAccepted(r.cs, row)
    {
      var e := env[t.hole := row];
      forall c | 0 <= c < |t.list|
        ensures var o := Interval(Less, Predicates(t.list[c], env));
                && (o.Bounds? ==> (Accepts(Less, o.c, ColumnValue(row, c)) <==> ColumnTrue(t, c, e)))
                && (o.Incompatible? ==> !ColumnTrue(t, c, e))
      {
        ColumnMeans(t, c, env, row, cand, db, known);
      }
      if r.Intervals? {
        assert forall j :: 0 <= j < |t.list|
                 ==> (Accepts(Less, r.cs[j], ColumnValue(row, j)) <==> ColumnTrue(t, j, e)) by {
          assert forall j :: 0 <= j < |t.list| ==> Interval(Less, Predicates(t.list[0 + j], env)) == Bounds(r.cs[j]);
        }
        LessLinear();
        assert Readable(r.cs) by { assert ScanReadable(t.list, env); }
        ReadableExact(Less, r.cs, RowValues(row, |r.cs|));
      }
    }
  }

  predicate HasTest(ps: seq<Simple>, codes: set<Code>) {
    exists i :: 0 <= i < |ps| && ps[i].ColumnTest? && ps[i].code in codes
  }

  /** No column with tests behind one that has both a `>=` and a `<=` or `<`. */
  predicate PlainList(list: seq<seq<Simple>>) {
    forall i, k :: 0 <= i < k < |list| && HasTest(list[i], {GE}) && HasTest(list[i], {LE, LT})
      ==> forall p <- list[k] :: !p.ColumnTest?
  }

  /** A list that is plain by itself is read right whatever the values are. */
  lemma PlainReadable(list: seq<seq<Simple>>, env: Env)
    requires PlainList(list) && forall ps <- list :: WellFormed(ps)
    requires forall ps <- list, p <- ps :: p.ColumnTest? ==> p.code in {EQU, LE, GE, LT, GT}
    ensures ScanReadable(list, env)
  {
    hide Interval, Less;
    var r := ConditionsOf(list, env);
    if r.Intervals? {
      IntervalsOf(list, env);
      forall i, k | 0 <= i < k < |r.cs| && ClosedTwoSided(r.cs[i])
        ensures Fitting(r.cs[k], r.cs[i].right.value.1)
      {
        TestsBehind(list[i], env, r.cs[i]);
        TestsBehind(list[k], env, r.cs[k]);
      }
    }
  }

  lemma {:induction false} IntervalsOf(list: seq<seq<Simple>>, env: Env)
    requires (forall ps <- list :: WellFormed(ps)) && ConditionsOf(list, env).Intervals?
    ensures var cs := ConditionsOf(list, env).cs;
            |cs| == |list| && forall i :: 0 <= i < |cs| ==> Interval(Less, Predicates(list[i], env)) == Bounds(cs[i])
  {
    if list != [] {
      hide Interval, Predicates, Less;
      IntervalsOf(list[1..], env);
      assert forall i :: 0 < i < |list| ==> list[i] == list[1..][i - 1];
    }
  }

  lemma TestsBehind(ps: seq<Simple>, env: Env, c: SpCond<Key>)
    requires WellFormed(ps) && Interval(Less, Predicates(ps, env)) == Bounds(c)
    requires forall p <- ps :: p.ColumnTest? ==> p.code in {EQU, LE, GE, LT, GT}
    ensures ClosedTwoSided(c) ==> HasTest(ps, {GE}) && HasTest(ps, {LE, LT})
    ensures (forall p <- ps :: !p.ColumnTest?) ==> Stored(c) == []
  {
    hide Interval, Less, Run;
    var qs := Predicates(ps, env);
    forall q | q in qs
      ensures ScanConditions.Simple(q)
    {
      var i :| 0 <= i < |qs| && qs[i] == q;
      assert ps[i] in ps;
    }
    BoundsFrom(Less, qs);
    forall q, i | q in qs && q.Comparison? && 0 <= i < |qs| && qs[i] == q
      ensures HasTest(ps, {q.code}) && ps[i] in ps
    {
      assert ps[i].ColumnTest? && ps[i].code in {q.code};
    }
  }

  // ---- The loops of a query produce its answer ----

  ghost predicate TablesSound(tables: seq<Table>, cand: Database, db: Database, known: set<int>) {
    tables == [] || (TableSound(tables[0], cand, db, known)
                     && TablesSound(tables[1..], cand, db, known + {tables[0].hole}))
  }

  /** The conjuncts still to be tested: each is sound, and its rows will be current in the end. */
  ghost predicate AndsSound(tables: seq<Table>, ands: seq<Option<Node>>, masks: seq<set<int>>, done: set<int>,
                            cand: Database) {
    && |ands| == |masks|
    && (forall i :: 0 <= i < |ands| && ands[i].Some? ==>
          AlwaysSound(ands[i].value, cand) && masks[i] == Deps(ands[i].value) && masks[i] <= done + Holes(tables))
    && (tables == [] ==> forall i :: 0 <= i < |ands| ==> ands[i].None?)
  }

  ghost predicate OutsSound(tables: seq<Table>, outs: seq<Node>, cand: Database, known: set<int>) {
    forall n :: n in outs ==> AlwaysYields(n, cand) && Deps(n) <= known + Holes(tables)
  }

  lemma {:induction false} OutsYield(outs: seq<Node>, cand: Database, env: Env, known: set<int>)
    requires (forall n :: n in outs ==> AlwaysYields(n, cand) && Deps(n) <= known) && Chosen(env, cand, known)
    ensures Outs(outs, env).Ok?
    decreases |outs|
  {
    if outs != [] {
      assert outs[0] in outs && Chosen(env, cand, Deps(outs[0]));
      OutsYield(outs[1..], cand, env, known);
    }
  }

  lemma {:induction false} ProductAgree(tables: seq<Table>, cand: Database, db: Database, env: Env, known: set<int>)
    requires TablesSound(tables, cand, db, known)
    ensures forall e :: e in Product(tables, db, env) ==> Agree(e, env, known)
    decreases |tables|, 1, 0
  {
    if tables != [] {
      ProductRowsAgree(db[tables[0].base], tables, cand, db, env, known);
    }
  }

  lemma {:induction false} ProductRowsAgree(rows: seq<Row>, tables: seq<Table>, cand: Database, db: Database, env: Env,
                                            known: set<int>)
    requires tables != [] && TablesSound(tables, cand, db, known)
    ensures forall e :: e in ProductRows(rows, tables, db, env) ==> Agree(e, env, known)
    decreases |tables|, 0, |rows|
  {
    if rows != [] {
      var h := tables[0].hole;
      var d := env[h := rows[0]];
      ProductAgree(tables[1..], cand, db, d, known + {h});
      ProductRowsAgree(rows[1..], tables, cand, db, env, known);
      forall e | e in Product(tables[1..], db, d)
        ensures Agree(e, env, known)
      {
        AgreeUpdated(e, env, h, rows[0], known);
      }
    }
  }

  lemma {:induction false} ResultsSame(es: seq<Env>, ts: seq<Table>, us: seq<Table>, ands: seq<Option<Node>>,
                                       bnds: seq<Option<Node>>, outs: seq<Node>)
    requires forall e :: e in es ==> (AllTrue(ts, ands, e) <==> AllTrue(us, bnds, e))
    ensures Results(es, ts, ands, outs) == Results(es, us, bnds, outs)
    decreases |es|
  {
    hide AllTrue;
    if es != [] {
      assert es[0] in es;
      ResultsSame(es[1..], ts, us, ands, bnds, outs);
    }
  }

  lemma {:induction false} ResultsNone(es: seq<Env>, ts: seq<Table>, ands: seq<Option<Node>>, outs: seq<Node>)
    requires forall e :: e in es ==> !AllTrue(ts, ands, e)
    ensures Results(es, ts, ands, outs) == []
    decreases |es|
  {
    hide AllTrue;
    if es != [] {
      assert es[0] in es;
      ResultsNone(es[1..], ts, ands, outs);
    }
  }

  lemma {:induction false} PickedAll(ands: seq<Option<Node>>, masks: seq<set<int>>, all: set<int>)
    requires |ands| == |masks|
    ensures forall i :: 0 <= i < |ands| && ands[i].Some? && CanBeUsed(masks[i], all)
              ==> ands[i].value in Picked(ands, masks, all)
  {
    if ands != [] {
      hide CanBeUsed;
      var k := |ands| - 1;
      PickedAll(ands[..k], masks[..k], all);
      assert forall i :: 0 <= i < k ==> ands[..k][i] == ands[i] && masks[..k][i] == masks[i];
    }
  }

  /** The conditions of a scan do not change with the rows of later tables. */
  lemma ScanTrueAgree(t: Table, cand: Database, db: Database, known: set<int>, d: Env, e: Env)
    requires TableSound(t, cand, db, known) && Agree(d, e, known + {t.hole})
    ensures ScanTrue(t, d) <==> ScanTrue(t, e)
  {
    hide Agree, Deps, TreeOf, Sem;
    forall c, i | 0 <= c < |t.list| && 0 <= i < |t.list[c]|
      ensures True(TreeOf(t.list[c][i], t.hole, c), d) <==> True(TreeOf(t.list[c][i], t.hole, c), e)
    {
      assert SimpleSound(t.list[c][i], t.hole, c, cand, known);
      TreeDeps(t.list[c][i], t.hole, c);
      SemAgree(TreeOf(t.list[c][i], t.hole, c), d, e, known + {t.hole});
    }
    forall c | 0 <= c < |t.list|
      ensures ColumnTrue(t, c, d) <==> ColumnTrue(t, c, e)
    {}
  }

  /** What the first level says about all combinations with its current row. */
  lemma LevelSplits(tables: seq<Table>, ands: seq<Option<Node>>, masks: seq<set<int>>, done: set<int>, cand: Database,
                    db: Database, known: set<int>, d: Env, e: Env)
    requires tables != [] && TablesSound(tables, cand, db, known) && AndsSound(tables, ands, masks, done, cand)
             && done <= known
    requires Agree(e, d, known + {tables[0].hole})
    ensures var all := done + {tables[0].hole};
            AllTrue(tables, ands, e) <==>
              ScanTrue(tables[0], d) && (forall c :: c in Picked(ands, masks, all) ==> True(c, d))
                && AllTrue(tables[1..], Unused(ands, masks, all), e)
  {
    hide Agree, Deps, Sem, ScanTrue, TableSound, Holes, Picked, AlwaysSound;
    var t, all := tables[0], done + {tables[0].hole};
    var us, k := Unused(ands, masks, all), known + {t.hole};
    ScanTrueAgree(t, cand, db, known, e, d);
    PickedAll(ands, masks, all);
    PickedDeps(ands, masks, all) by { SoundNodes(tables, ands, masks, done, cand); }
    forall c | c in Picked(ands, masks, all)
      ensures True(c, d) <==> True(c, e)
    {
      SemAgree(c, e, d, k);
    }
    assert forall u :: u in tables <==> u == t || u in tables[1..];
  }

  lemma SoundNodes(tables: seq<Table>, ands: seq<Option<Node>>, masks: seq<set<int>>, done: set<int>, cand: Database)
    requires AndsSound(tables, ands, masks, done, cand)
    ensures forall i :: 0 <= i < |ands| && ands[i].Some? ==> ands[i].value.Node? && masks[i] == Deps(ands[i].value)
  {
    hide Deps, Sound;
  }

  lemma AndsSoundInner(tables: seq<Table>, ands: seq<Option<Node>>, masks: seq<set<int>>, done: set<int>,
                       cand: Database)
    requires tables != [] && AndsSound(tables, ands, masks, done, cand)
    ensures var all := done + {tables[0].hole};
            AndsSound(tables[1..], Unused(ands, masks, all), masks, all, cand)
  {
    hide Deps, AlwaysSound;
    var all := done + {tables[0].hole};
    assert done + Holes(tables) == all + Holes(tables[1..]);
    if tables[1..] == [] {
      assert Holes(tables[1..]) == {};
      assert forall i :: 0 <= i < |ands| && ands[i].Some? ==> CanBeUsed(masks[i], all);
    }
  }

  ghost predicate AllSound(tables: seq<Table>, ands: seq<Option<Node>>, masks: seq<set<int>>, done: set<int>,
                           outs: seq<Node>, cand: Database, db: Database, known: set<int>) {
    && TablesSound(tables, cand, db, known) && AndsSound(tables, ands, masks, done, cand)
    && OutsSound(tables, outs, cand, known) && done <= known
  }

  lemma AllSoundInner(tables: seq<Table>, ands: seq<Option<Node>>, masks: seq<set<int>>, done: set<int>,
                      outs: seq<Node>, cand: Database, db: Database, known: set<int>)
    requires tables != [] && AllSound(tables, ands, masks, done, outs, cand, db, known)
    ensures var h := tables[0].hole;
            AllSound(tables[1..], Unused(ands, masks, done + {h}), masks, done + {h}, outs, cand, db, known + {h})
  {
    hide AndsSound, AlwaysYields, Deps;
    AndsSoundInner(tables, ands, masks, done, cand);
    assert known + Holes(tables) == known + {tables[0].hole} + Holes(tables[1..]);
  }

  /** The loops from a level on, with the rows of the outer levels current in `env`. */
  lemma {:induction false} NestedMeans(tables: seq<Table>, ands: seq<Option<Node>>, masks: seq<set<int>>,
                                       done: set<int>, outs: seq<Node>, cand: Database, db: Database, known: set<int>,
                                       env: Env)
    requires |ands| == |masks| && AllSound(tables, ands, masks, done, outs, cand, db, known) && Chosen(env, cand, known)
    requires Trees(ands) && LevelsOk(Levels(tables, ands, masks, done))
    ensures Nested(Levels(tables, ands, masks, done), outs, db, env)
            == Trace(Results(Product(tables, db, env), tables, ands, outs), true)
    decreases |tables|, 1, 0
  {
    hide Deps, Chosen, Results, AndsSound, OutsSound, LevelsOk, Over, Levels, AllTrue;
    LevelsEmpty(tables, ands, masks, done);
    if tables == [] {
      BaseMeans(ands, masks, done, outs, cand, db, known, env);
    } else {
      var lv, t := Levels(tables, ands, masks, done), tables[0];
      LevelsFirst(tables, ands, masks, done);
      assert lv[0].table == t;
      ScanMeans(t, env, cand, db, known);
      var r := ConditionsOf(t.list, env);
      var sel := if r.Intervals? then Selected(db[t.base], r.cs) else [];
      OverMeans(tables, ands, masks, done, outs, cand, db, known, env, db[t.base], sel);
      if r.Nothing? {
        OverNone(lv, outs, db, env);
      }
    }
  }

  lemma LevelsEmpty(tables: seq<Table>, ands: seq<Option<Node>>, masks: seq<set<int>>, done: set<int>)
    requires |ands| == |masks| && Trees(ands)
    ensures tables == [] ==> Levels(tables, ands, masks, done) == []
  {}

  lemma OverNone(lv: seq<Level>, outs: seq<Node>, db: Database, env: Env)
    requires LevelsOk(lv) && lv != []
    ensures Over(lv, outs, db, env, []) == Trace([], true)
  {}

  lemma BaseMeans(ands: seq<Option<Node>>, masks: seq<set<int>>, done: set<int>, outs: seq<Node>, cand: Database,
                  db: Database, known: set<int>, env: Env)
    requires AllSound([], ands, masks, done, outs, cand, db, known) && Chosen(env, cand, known)
    ensures Nested([], outs, db, env) == Trace(Results(Product([], db, env), [], ands, outs), true)
  {
    hide Deps;
    OutsYield(outs, cand, env, known);
    assert Product([], db, env) == [env];
    assert AllTrue([], ands, env);
    assert Results([env], [], ands, outs) == Given([], ands, outs, env) + Results([env][1..], [], ands, outs);
    GivenIs([], ands, outs, env);
  }

  /** `sel` is what the scan delivers of `rows`. */
  ghost predicate Delivers(r: Conditions, rows: seq<Row>, sel: seq<Row>) {
    sel == if r.Intervals? then Selected(rows, r.cs) else []
  }

  lemma {:induction false} OverMeans(tables: seq<Table>, ands: seq<Option<Node>>, masks: seq<set<int>>, done: set<int>,
                                     outs: seq<Node>, cand: Database, db: Database, known: set<int>, env: Env,
                                     rows: seq<Row>, sel: seq<Row>)
    requires tables != [] && |ands| == |masks| && AllSound(tables, ands, masks, done, outs, cand, db, known)
             && Chosen(env, cand, known)
    requires tables[0].base in db
    requires Trees(ands) && LevelsOk(Levels(tables, ands, masks, done))
    requires (forall ps :: ps in tables[0].list ==> WellFormed(ps))
             && Delivers(ConditionsOf(tables[0].list, env), rows, sel)
    requires forall row :: row in rows ==> row in db[tables[0].base]
    ensures Over(Levels(tables, ands, masks, done), outs, db, env, sel) ==
            Trace(Results(ProductRows(rows, tables, db, env), tables, ands, outs), true)
    decreases |tables|, 0, |rows|
  {
    hide Deps, Chosen, Results, AndsSound, OutsSound, LevelsOk, Levels, AllTrue, Over, RowAccepted, TableSound,
         ScanTrue, ConditionsOf, Product;
    var lv, t := Levels(tables, ands, masks, done), tables[0];
    if rows == [] {
      OverNone(lv, outs, db, env);
      NoResults(tables, ands, outs);
    } else {
      var r, row, rest := ConditionsOf(t.list, env), rows[0], rows[1..];
      var d := env[t.hole := row];
      var es := Product(tables[1..], db, d);
      LevelsFirst(tables, ands, masks, done);
      assert lv[0].table == t;
      ScanMeans(t, env, cand, db, known);
      RowMeans(tables, ands, masks, done, outs, cand, db, known, env, row);
      ResultsConcat(es, ProductRows(rest, tables, db, env), tables, ands, outs);
      assert row in db[t.base];
      if r.Intervals? && RowAccepted(r.cs, row) {
        assert sel == [row] + Selected(rest, r.cs);
        assert sel[1..] == Selected(rest, r.cs);
        OverMeans(tables, ands, masks, done, outs, cand, db, known, env, rest, sel[1..]);
        OverStep(lv, outs, db, env, sel);
      } else {
        assert sel == if r.Intervals? then Selected(rest, r.cs) else [];
        OverMeans(tables, ands, masks, done, outs, cand, db, known, env, rest, sel);
      }
    }
  }

  lemma NoResults(tables: seq<Table>, ands: seq<Option<Node>>, outs: seq<Node>)
    ensures Results([], tables, ands, outs) == []
  {}

  /** One row of the first table. */
  lemma {:induction false} RowMeans(tables: seq<Table>, ands: seq<Option<Node>>, masks: seq<set<int>>, done: set<int>,
                                    outs: seq<Node>, cand: Database, db: Database, known: set<int>, env: Env, row: Row)
    requires tables != [] && |ands| == |masks| && AllSound(tables, ands, masks, done, outs, cand, db, known)
             && Chosen(env, cand, known)
    requires tables[0].base in db
    requires Trees(ands) && LevelsOk(Levels(tables, ands, masks, done)) && row in db[tables[0].base]
    ensures var d := env[tables[0].hole := row];
            var rs := Results(Product(tables[1..], db, d), tables, ands, outs);
            && (!ScanTrue(tables[0], d) ==> rs == [])
            && (ScanTrue(tables[0], d) ==> ForRow(Levels(tables, ands, masks, done), outs, db, d) == Trace(rs, true))
    decreases |tables|, -1, 0
  {
    hide Deps, Results, OutsSound, Levels, AllTrue, ScanTrue, Product, Nested, UntilTree, Verdict, Picked, Unused,
         AndsSound;
    hide LevelsOk, Trees;
    var t, d := tables[0], env[tables[0].hole := row];
    var all, k := done + {t.hole}, known + {t.hole};
    var us, es := Unused(ands, masks, all), Product(tables[1..], db, d);
    var lv := Levels(tables, ands, masks, done);
    LevelsFirst(tables, ands, masks, done);
    LevelOk(lv);
    AllSoundInner(tables, ands, masks, done, outs, cand, db, known);
    ProductAgree(tables[1..], cand, db, d, k);
    forall e | e in es
      ensures AllTrue(tables, ands, e) <==>
                ScanTrue(t, d) && (forall c :: c in Picked(ands, masks, all) ==> True(c, d))
                  && AllTrue(tables[1..], us, e)
    {
      LevelSplits(tables, ands, masks, done, cand, db, known, d, e);
    }
    var pass := forall c :: c in Picked(ands, masks, all) ==> True(c, d);
    if !ScanTrue(t, d) || !pass {
      ResultsNone(es, tables, ands, outs);
    }
    if ScanTrue(t, d) {
      assert Chosen(d, cand, k);
      PickedSound(tables, ands, masks, done, cand, all, d, k);
      UntilMeans(Picked(ands, masks, all), d);
      ForRowStep(lv, outs, db, d);
      if pass {
        NestedMeans(tables[1..], us, masks, all, outs, cand, db, k, d);
        ResultsSame(es, tables, tables[1..], ands, us, outs);
      }
    }
  }

  lemma PickedSound(tables: seq<Table>, ands: seq<Option<Node>>, masks: seq<set<int>>, done: set<int>, cand: Database,
                    all: set<int>, d: Env, k: set<int>)
    requires AndsSound(tables, ands, masks, done, cand) && Chosen(d, cand, k) && all <= k
    ensures forall c :: c in Picked(ands, masks, all) ==> c.Node? && Sound(c, d)
  {
    hide Deps, Sound;
    SoundNodes(tables, ands, masks, done, cand);
    PickedDeps(ands, masks, all);
    forall c | c in Picked(ands, masks, all)
      ensures c.Node? && Sound(c, d)
    {
      assert Some(c) in ands;
      assert AlwaysSound(c, cand);
      assert Chosen(d, cand, Deps(c));
    }
  }
}
