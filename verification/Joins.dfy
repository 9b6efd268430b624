/** A query from its compilation to its answer, and why the order of its tables does not matter. */
module Joins {
  import opened Counting
  import opened TableMasks
  import opened Expressions
  import opened ThreeValued
  import opened Program
  import opened Interp
  import opened Answers
  import opened Options

  // ---- From the code to the answer ----

  /** The answer of a query: for every combination of rows on which all conditions are TRUE, its result. */
  ghost function Answer(tables: seq<Table>, where: seq<Node>, outs: seq<Node>, db: Database, env: Env): seq<Row> {
    Results(Product(tables, db, env), tables, Ands(where), outs)
  }

  /** No evaluation of the query can fail: `cand` has the rows that each place can hold, `known` the
      places that outer queries have filled. */
  ghost predicate QuerySound(tables: seq<Table>, where: seq<Node>, outs: seq<Node>, cand: Database, db: Database,
                             known: set<int>) {
    && tables != [] && TablesSound(tables, cand, db, known) && OutsSound(tables, outs, cand, known)
    && forall n :: n in where ==> n.Node? && AlwaysSound(n, cand) && Deps(n) <= known + Holes(tables)
  }

  lemma {:induction false} DepsInAll(where: seq<Node>)
    ensures forall i :: 0 <= i < |where| ==> Deps(where[i]) <= AllDeps(where)
  {
    if where != [] {
      hide Deps;
      var k := |where| - 1;
      DepsInAll(where[..k]);
      assert forall i :: 0 <= i < k ==> where[..k][i] == where[i];
    }
  }

  lemma {:induction false} AllDepsWithin(where: seq<Node>, all: set<int>)
    requires forall n :: n in where ==> Deps(n) <= all
    ensures AllDeps(where) <= all
  {
    if where != [] {
      hide Deps;
      AllDepsWithin(where[..|where| - 1], all);
    }
  }

  lemma {:induction false} TablesOrdered(tables: seq<Table>, outs: seq<Node>, cand: Database, db: Database,
                                         known: set<int>)
    requires TablesSound(tables, cand, db, known) && forall n :: n in outs ==> Deps(n) <= known + Holes(tables)
    ensures Ordered(tables, outs, known)
    decreases |tables|
  {
    hide Deps, AlwaysSound, AlwaysYields;
    if tables != [] {
      var t := tables[0];
      assert known + Holes(tables) == known + {t.hole} + Holes(tables[1..]);
      TablesOrdered(tables[1..], outs, cand, db, known + {t.hole});
      forall ps | ps in t.list
        ensures WellFormed(ps) && SimpleKnown(ps, known)
      {
        var c :| 0 <= c < |t.list| && t.list[c] == ps;
        assert forall i :: 0 <= i < |ps| ==> SimpleSound(t.list[c][i], t.hole, c, cand, known);
      }
    }
  }

  lemma QueryAllSound(tables: seq<Table>, where: seq<Node>, outs: seq<Node>, cand: Database, db: Database,
                      known: set<int>)
    requires QuerySound(tables, where, outs, cand, db, known)
    ensures AllSound(tables, Ands(where), Masks(where), External(where, tables), outs, cand, db, known)
    ensures Ordered(tables, outs, known) && External(where, tables) <= known
  {
    hide Deps, AlwaysSound, AlwaysYields, Holes, AllDeps, TablesSound, Ordered;
    DepsInAll(where);
    AllDepsWithin(where, known + Holes(tables));
    TablesOrdered(tables, outs, cand, db, known);
    assert forall i :: 0 <= i < |where| ==> where[i] in where;
  }

  /** The compiled query gives the caller exactly its answer, each row in the order of the nested loops and
      with SQLCODE 0, and ends with SQLCODE 100. */
  lemma CompiledQueryAnswers(mem: Memory, db: Database, c: Compiled, cand: Database, known: set<int>, s: State)
    returns (n: nat)
    requires QuerySound(c.tables, c.where, c.outs, cand, db, known) && Chosen(s.env, cand, known)
    requires Emitted(c, RetPar(c.outs), mem)
    requires s.status == Running && s.cur == c.begin && s.scans == map[] && s.clean
    ensures var t := Steps(n, mem, db, s);
            && t.out == s.out + Answer(c.tables, c.where, c.outs, db, s.env) && t.clean
            && t.status == Ended && t.sqlcode == 100
  {
    hide Loops, At, Steps, Deps, Levels, Holes, AllDeps, LevelsOk, Ordered, Chosen, AllSound, Nested, Results, Product;
    var tables, where := c.tables, c.where;
    QueryAllSound(tables, where, c.outs, cand, db, known);
    n := QueryRuns(mem, db, c, RetPar(c.outs), known, s);
    NestedMeans(tables, Ands(where), Masks(where), External(where, tables), c.outs, cand, db, known, s.env);
  }

  // ---- The order of the tables ----

  ghost function Sum(rows: seq<Row>, f: Row -> multiset<Row>): multiset<Row> {
    if rows == [] then multiset{} else f(rows[0]) + Sum(rows[1..], f)
  }

  lemma {:induction false} SumSame(rows: seq<Row>, f: Row -> multiset<Row>, g: Row -> multiset<Row>)
    requires forall r :: r in rows ==> f(r) == g(r)
    ensures Sum(rows, f) == Sum(rows, g)
  {
    if rows != [] {
      SumSame(rows[1..], f, g);
    }
  }

  lemma {:induction false} SumPlus(rows: seq<Row>, f: Row -> multiset<Row>, g: Row -> multiset<Row>)
    ensures Sum(rows, r => f(r) + g(r)) == Sum(rows, f) + Sum(rows, g)
  {
    if rows != [] {
      SumPlus(rows[1..], f, g);
    }
  }

  lemma {:induction false} SumNothing(rows: seq<Row>)
    ensures Sum(rows, r => multiset{}) == multiset{}
  {
    if rows != [] {
      SumNothing(rows[1..]);
    }
  }

  /** Two nested sums can be taken in either order. */
  lemma {:induction false} SumExchange(as_: seq<Row>, bs: seq<Row>, f: (Row, Row) -> multiset<Row>)
    ensures Sum(as_, a => Sum(bs, b => f(a, b))) == Sum(bs, b => Sum(as_, a => f(a, b)))
  {
    var inner := b => Sum(as_, a => f(a, b));
    if as_ == [] {
      SumSame(bs, inner, r => multiset{});
      SumNothing(bs);
    } else {
      var first, rest := as_[0], as_[1..];
      SumExchange(rest, bs, f);
      var g, h := b => f(first, b), b => Sum(rest, a => f(a, b));
      SumPlus(bs, g, h);
      SumSame(bs, inner, b => g(b) + h(b));
    }
  }

  /** What the combinations of the tables give altogether. */
  ghost function Bag(tables: seq<Table>, db: Database, env: Env, g: Env -> multiset<Row>): multiset<Row>
    decreases |tables|
  {
    if tables == [] then g(env)
    else if tables[0].base !in db then multiset{}
    else Sum(db[tables[0].base], r => Bag(tables[1..], db, env[tables[0].hole := r], g))
  }

  /** What the rows of the first table give. */
  ghost function PerRow(tables: seq<Table>, db: Database, env: Env, g: Env -> multiset<Row>): Row -> multiset<Row>
    requires tables != []
  {
    r => Bag(tables[1..], db, env[tables[0].hole := r], g)
  }

  lemma BagStep(tables: seq<Table>, db: Database, env: Env, g: Env -> multiset<Row>)
    requires tables != [] && tables[0].base in db
    ensures Bag(tables, db, env, g) == Sum(db[tables[0].base], PerRow(tables, db, env, g))
    ensures forall r: Row :: PerRow(tables, db, env, g)(r) == Bag(tables[1..], db, env[tables[0].hole := r], g)
  {}

  /** Two lists of tables with the same first table. */
  lemma BagTails(ts: seq<Table>, us: seq<Table>, db: Database, env: Env, g: Env -> multiset<Row>)
    requires ts != [] && us != [] && ts[0] == us[0] && ts[0].base in db
    requires forall r: Row :: PerRow(ts, db, env, g)(r) == PerRow(us, db, env, g)(r)
    ensures Bag(ts, db, env, g) == Bag(us, db, env, g)
  {
    hide Bag, PerRow;
    BagStep(ts, db, env, g);
    BagStep(us, db, env, g);
    SumSame(db[ts[0].base], PerRow(ts, db, env, g), PerRow(us, db, env, g));
  }

  ghost predicate Bound(tables: seq<Table>, db: Database) {
    && (forall i :: 0 <= i < |tables| ==> tables[i].base in db)
    && (forall i, j :: 0 <= i < j < |tables| ==> tables[i].hole != tables[j].hole)
  }

  lemma RowsCommute(env: Env, h: int, r: Row, k: int, s: Row)
    requires h != k
    ensures env[h := r][k := s] == env[k := s][h := r]
  {
    assert env[h := r][k := s] == env[k := s][h := r];
  }

  /** Two neighbouring tables can be exchanged. */
  lemma BagSwap(a: Table, b: Table, rest: seq<Table>, db: Database, env: Env, g: Env -> multiset<Row>)
    requires a.hole != b.hole && a.base in db && b.base in db
    ensures Bag([a, b] + rest, db, env, g) == Bag([b, a] + rest, db, env, g)
  {
    hide Bag;
    var f := (r, s) => Bag(rest, db, env[a.hole := r][b.hole := s], g);
    TwoSums(a, b, rest, db, env, g, f);
    var h := (s, r) => Bag(rest, db, env[b.hole := s][a.hole := r], g);
    TwoSums(b, a, rest, db, env, g, h);
    SumExchange(db[a.base], db[b.base], f);
    var p, q := s => Sum(db[a.base], r => f(r, s)), s => Sum(db[a.base], r => h(s, r));
    forall s: Row
      ensures p(s) == q(s)
    {
      forall r: Row
        ensures f(r, s) == h(s, r)
      {
        RowsCommute(env, a.hole, r, b.hole, s);
      }
      SumSame(db[a.base], r => f(r, s), r => h(s, r));
    }
    SumSame(db[b.base], p, q);
  }

  lemma TwoSums(a: Table, b: Table, rest: seq<Table>, db: Database, env: Env, g: Env -> multiset<Row>,
                f: (Row, Row) -> multiset<Row>)
    requires a.base in db && b.base in db
    requires forall r, s :: f(r, s) == Bag(rest, db, env[a.hole := r][b.hole := s], g)
    ensures Bag([a, b] + rest, db, env, g) == Sum(db[a.base], r => Sum(db[b.base], s => f(r, s)))
  {
    var ts := [a, b] + rest;
    assert ts[1..] == [b] + rest && ([b] + rest)[1..] == rest;
    BagStep(ts, db, env, g);
    var p, q := PerRow(ts, db, env, g), r => Sum(db[b.base], s => f(r, s));
    forall r: Row
      ensures p(r) == q(r)
    {
      BagStep(ts[1..], db, env[a.hole := r], g);
      SumSame(db[b.base], PerRow(ts[1..], db, env[a.hole := r], g), s => f(r, s));
    }
    SumSame(db[a.base], p, q);
  }

  /** A table can be moved to the front. */
  lemma {:induction false} BagFront(front: seq<Table>, t: Table, rest: seq<Table>, db: Database, env: Env,
                                    g: Env -> multiset<Row>)
    requires Bound(front + [t] + rest, db)
    ensures Bag(front + [t] + rest, db, env, g) == Bag([t] + front + rest, db, env, g)
    decreases |front|
  {
    if front == [] {
      assert front + [t] + rest == [t] + front + rest;
    } else {
      hide Bag, PerRow, Bound;
      var a, more := front[0], front[1..];
      var ts, us := front + [t] + rest, [a] + ([t] + more + rest);
      Shapes(front, t, rest);
      BoundTwo(ts, |front|, db);
      BagStep(ts, db, env, g);
      BagStep(us, db, env, g);
      forall r: Row
        ensures PerRow(ts, db, env, g)(r) == PerRow(us, db, env, g)(r)
      {
        BagFront(more, t, rest, db, env[a.hole := r], g);
      }
      BagTails(ts, us, db, env, g);
      BagSwap(a, t, more + rest, db, env, g);
    }
  }

  lemma Shapes(front: seq<Table>, t: Table, rest: seq<Table>)
    requires front != []
    ensures var a, more := front[0], front[1..];
            var ts, us := front + [t] + rest, [a] + ([t] + more + rest);
            && ts[0] == a && ts[|front|] == t && ts[1..] == more + [t] + rest && us[0] == a
            && us[1..] == [t] + more + rest
            && us == [a, t] + (more + rest) && [t, a] + (more + rest) == [t] + front + rest
  {
    var a, more := front[0], front[1..];
    var ts, us := front + [t] + rest, [a] + ([t] + more + rest);
    assert front == [a] + more;
    assert ts[1..] == more + [t] + rest;
    assert us[1..] == [t] + more + rest;
    assert us == [a, t] + (more + rest);
    assert [t, a] + (more + rest) == [t] + front + rest;
  }

  lemma BoundTwo(ts: seq<Table>, k: nat, db: Database)
    requires Bound(ts, db) && 0 < k < |ts|
    ensures Bound(ts[1..], db) && ts[0].hole != ts[k].hole && ts[0].base in db && ts[k].base in db
  {
    assert forall i :: 0 <= i < |ts| - 1 ==> ts[1..][i] == ts[i + 1];
  }

  lemma BoundWithout(ts: seq<Table>, k: nat, db: Database)
    requires Bound(ts, db) && k < |ts|
    ensures Bound(ts[..k] + ts[k + 1..], db) && ts[k].base in db
  {
    var us := ts[..k] + ts[k + 1..];
    assert forall i :: 0 <= i < |us| ==> us[i] == ts[if i < k then i else i + 1];
  }

  /** Any order of the tables gives the same altogether. */
  lemma {:induction false} BagPermuted(ts: seq<Table>, us: seq<Table>, db: Database, env: Env, g: Env -> multiset<Row>)
    requires multiset(ts) == multiset(us) && Bound(ts, db) && Bound(us, db)
    ensures Bag(ts, db, env, g) == Bag(us, db, env, g)
    decreases |ts|
  {
    hide Bag, PerRow, Bound;
    if ts == [] {
      assert |multiset(us)| == 0;
    } else {
      var t := ts[0];
      var k := Found(ts, us);
      var front, rest := us[..k], us[k + 1..];
      var vs := [t] + front + rest;
      Around(us, k);
      BagFront(front, t, rest, db, env, g);
      Removed(ts, us, k);
      BoundWithout(ts, 0, db);
      Around(ts, 0);
      BoundWithout(us, k, db);
      BagStep(ts, db, env, g);
      BagStep(vs, db, env, g);
      forall r: Row
        ensures PerRow(ts, db, env, g)(r) == PerRow(vs, db, env, g)(r)
      {
        BagPermuted(ts[1..], front + rest, db, env[t.hole := r], g);
      }
      BagTails(ts, vs, db, env, g);
    }
  }

  lemma Found<T>(ts: seq<T>, us: seq<T>) returns (k: nat)
    requires multiset(ts) == multiset(us) && ts != []
    ensures k < |us| && us[k] == ts[0]
  {
    assert ts[0] in multiset(us);
    k :| 0 <= k < |us| && us[k] == ts[0];
  }

  lemma Around<T>(us: seq<T>, k: nat)
    requires k < |us|
    ensures us == us[..k] + [us[k]] + us[k + 1..] && ([us[k]] + us[..k] + us[k + 1..])[1..] == us[..k] + us[k + 1..]
    ensures k == 0 ==> us[..k] + us[k + 1..] == us[1..]
  {
    assert us == us[..k] + [us[k]] + us[k + 1..];
    assert ([us[k]] + us[..k] + us[k + 1..])[1..] == us[..k] + us[k + 1..];
  }

  lemma Removed<T>(ts: seq<T>, us: seq<T>, k: nat)
    requires multiset(ts) == multiset(us) && ts != [] && k < |us| && us[k] == ts[0]
    ensures multiset(ts[1..]) == multiset(us[..k] + us[k + 1..])
  {
    var front, rest := us[..k], us[k + 1..];
    assert us == front + [us[k]] + rest;
    assert ts == [ts[0]] + ts[1..];
    assert multiset(ts[1..]) == multiset(ts) - multiset{ts[0]};
    assert multiset(front + rest) == multiset(us) - multiset{us[k]};
  }

  // ---- Reordering a query ----

  ghost function GivenBag(tables: seq<Table>, ands: seq<Option<Node>>, outs: seq<Node>): Env -> multiset<Row> {
    e => multiset(Given(tables, ands, outs, e))
  }

  lemma {:induction false} ResultsBag(tables: seq<Table>, all: seq<Table>, ands: seq<Option<Node>>, outs: seq<Node>,
                                      db: Database, env: Env)
    ensures multiset(Results(Product(tables, db, env), all, ands, outs))
            == Bag(tables, db, env, GivenBag(all, ands, outs))
    decreases |tables|, 1, 0
  {
    hide Given;
    if tables == [] {
      assert Results([env], all, ands, outs) == Given(all, ands, outs, env) + Results([env][1..], all, ands, outs);
    } else if tables[0].base in db {
      ResultsRowsBag(db[tables[0].base], tables, all, ands, outs, db, env);
    }
  }

  lemma {:induction false} ResultsRowsBag(rows: seq<Row>, tables: seq<Table>, all: seq<Table>, ands: seq<Option<Node>>,
                                          outs: seq<Node>, db: Database, env: Env)
    requires tables != []
    ensures multiset(Results(ProductRows(rows, tables, db, env), all, ands, outs)) ==
            Sum(rows, PerRow(tables, db, env, GivenBag(all, ands, outs)))
    decreases |tables|, 0, |rows|
  {
    hide Given, Bag, Product, Results;
    if rows == [] {
      NoResults(all, ands, outs);
    } else {
      var d := env[tables[0].hole := rows[0]];
      ResultsBag(tables[1..], all, ands, outs, db, d);
      ResultsRowsBag(rows[1..], tables, all, ands, outs, db, env);
      ResultsConcat(Product(tables[1..], db, d), ProductRows(rows[1..], tables, db, env), all, ands, outs);
    }
  }

  lemma {:induction false} SoundBound(tables: seq<Table>, cand: Database, db: Database, known: set<int>)
    requires TablesSound(tables, cand, db, known)
    ensures Bound(tables, db) && forall i :: 0 <= i < |tables| ==> tables[i].hole !in known
    decreases |tables|
  {
    hide SimpleSound;
    if tables != [] {
      SoundBound(tables[1..], cand, db, known + {tables[0].hole});
      assert forall i :: 0 < i < |tables| ==> tables[i] == tables[1..][i - 1];
    }
  }

  /** Whatever order the tables are scanned in, the answer has the same rows equally often. */
  lemma ReorderedAnswer(ts: seq<Table>, us: seq<Table>, where: seq<Node>, outs: seq<Node>, db: Database, env: Env)
    requires multiset(ts) == multiset(us) && Bound(ts, db)
    ensures multiset(Answer(ts, where, outs, db, env)) == multiset(Answer(us, where, outs, db, env))
  {
    hide Given, Bag, Product, Results;
    BoundPermuted(ts, us, db);
    BagPermuted(ts, us, db, env, GivenBag(ts, Ands(where), outs));
    ResultsBag(ts, ts, Ands(where), outs, db, env);
    ResultsBag(us, ts, Ands(where), outs, db, env);
    forall t
      ensures t in ts <==> t in us
    {
      assert t in multiset(ts) <==> t in multiset(us);
    }
    forall e | e in Product(us, db, env)
      ensures AllTrue(ts, Ands(where), e) <==> AllTrue(us, Ands(where), e)
    {}
    ResultsSame(Product(us, db, env), ts, us, Ands(where), Ands(where), outs);
  }

  lemma BoundPermuted(ts: seq<Table>, us: seq<Table>, db: Database)
    requires multiset(ts) == multiset(us) && Bound(ts, db)
    ensures Bound(us, db)
  {
    forall i | 0 <= i < |us|
      ensures us[i].base in db
    {
      assert us[i] in multiset(ts);
    }
    forall i, j | 0 <= i < j < |us|
      ensures us[i].hole != us[j].hole
    {
      if us[i].hole == us[j].hole {
        assert us[i] in multiset(ts) && us[j] in multiset(ts);
        var k :| 0 <= k < |ts| && ts[k] == us[i];
        var l :| 0 <= l < |ts| && ts[l] == us[j];
        assert k == l;
        Twice(us, i, j);
        Once(ts, k);
      }
    }
  }

  /** Compiled for either order of its tables, the query gives the same rows equally often. */
  lemma ReorderedRuns(mem: Memory, c: Compiled, mem': Memory, c': Compiled, db: Database, cand: Database,
                      known: set<int>, s: State)
    returns (n: nat, n': nat)
    requires multiset(c.tables) == multiset(c'.tables) && c.where == c'.where && c.outs == c'.outs
    requires QuerySound(c.tables, c.where, c.outs, cand, db, known)
             && QuerySound(c'.tables, c.where, c.outs, cand, db, known)
    requires Emitted(c, RetPar(c.outs), mem) && Emitted(c', RetPar(c.outs), mem') && Chosen(s.env, cand, known)
    requires s.status == Running && s.cur == c.begin && s.scans == map[] && s.clean && s.out == []
    ensures var t, t' := Steps(n, mem, db, s), Steps(n', mem', db, s.(cur := c'.begin));
            t.status == t'.status == Ended && multiset(t.out) == multiset(t'.out)
  {
    hide Loops, At, Steps, Levels, Chosen, Results, Product;
    n := CompiledQueryAnswers(mem, db, c, cand, known, s);
    n' := CompiledQueryAnswers(mem', db, c', cand, known, s.(cur := c'.begin));
    SoundBound(c.tables, cand, db, known);
    ReorderedAnswer(c.tables, c'.tables, c.where, c.outs, db, s.env);
  }

  // ---- Pushing conditions into scans ----

  ghost predicate SameRows(ts: seq<Table>, us: seq<Table>) {
    |ts| == |us| && forall i :: 0 <= i < |ts| ==> ts[i].hole == us[i].hole && ts[i].base == us[i].base
  }

  lemma {:induction false} ProductSame(ts: seq<Table>, us: seq<Table>, db: Database, env: Env)
    requires SameRows(ts, us)
    ensures Product(ts, db, env) == Product(us, db, env)
    decreases |ts|, 1, 0
  {
    if ts != [] && ts[0].base in db {
      ProductRowsSame(db[ts[0].base], ts, us, db, env);
    }
  }

  lemma {:induction false} ProductRowsSame(rows: seq<Row>, ts: seq<Table>, us: seq<Table>, db: Database, env: Env)
    requires SameRows(ts, us) && ts != []
    ensures ProductRows(rows, ts, db, env) == ProductRows(rows, us, db, env)
    decreases |ts|, 0, |rows|
  {
    hide Product;
    if rows != [] {
      ProductSame(ts[1..], us[1..], db, env[ts[0].hole := rows[0]]);
      ProductRowsSame(rows[1..], ts, us, db, env);
    }
  }

  /** The table with one more condition on its scan, at the head of the list of the column `c`. */
  function WithCondition(t: Table, c: nat, p: Simple): Table
    requires c < |t.list|
  {
    t.(list := t.list[c := [p] + t.list[c]])
  }

  lemma ScanTrueWith(t: Table, c: nat, p: Simple, e: Env)
    requires c < |t.list|
    ensures ScanTrue(WithCondition(t, c, p), e) <==> ScanTrue(t, e) && True(TreeOf(p, t.hole, c), e)
  {
    hide True, TreeOf;
    var u := WithCondition(t, c, p);
    forall d | 0 <= d < |t.list|
      ensures ColumnTrue(u, d, e) <==> ColumnTrue(t, d, e) && (d == c ==> True(TreeOf(p, t.hole, c), e))
    {
      if d == c {
        var l := u.list[c];
        assert l[0] == p && forall i :: 0 < i < |l| ==> l[i] == t.list[c][i - 1];
        assert forall i :: 0 <= i < |t.list[c]| ==> t.list[c][i] == l[i + 1];
      }
    }
    assert ColumnTrue(u, c, e) <==> ColumnTrue(t, c, e) && True(TreeOf(p, t.hole, c), e);
  }

  /** A conjunct of WHERE that becomes a condition of a scan leaves the answer as it is, row by row. */
  lemma PushedDown(front: seq<Table>, t: Table, rest: seq<Table>, where: seq<Node>, c: nat, p: Simple, outs: seq<Node>,
                   db: Database, env: Env)
    requires c < |t.list|
    ensures Answer(front + [WithCondition(t, c, p)] + rest, where, outs, db, env) ==
            Answer(front + [t] + rest, where + [TreeOf(p, t.hole, c)], outs, db, env)
  {
    hide Results, Product, ScanTrue, True, TreeOf, WithCondition;
    var ts, us, n := front + [t] + rest, front + [WithCondition(t, c, p)] + rest, TreeOf(p, t.hole, c);
    var v, w := Ands(where), Ands(where + [n]);
    PushedRows(t, c, p);
    ProductSame(us, ts, db, env);
    forall e | e in Product(us, db, env)
      ensures AllTrue(us, v, e) <==> AllTrue(ts, w, e)
    {
      ScanTrueWith(t, c, p, e);
      assert forall i :: 0 <= i < |v| ==> w[i] == v[i];
      assert w[|v|] == Some(n);
      assert (forall i :: 0 <= i < |w| && w[i].Some? ==> True(w[i].value, e)) <==>
             (forall i :: 0 <= i < |v| && v[i].Some? ==> True(v[i].value, e)) && True(n, e);
      assert forall x :: x in ts <==> x in front || x == t || x in rest;
      assert forall x :: x in us <==> x in front || x == WithCondition(t, c, p) || x in rest;
    }
    ResultsSame(Product(us, db, env), us, ts, v, w, outs);
  }

  lemma PushedRows(t: Table, c: nat, p: Simple)
    requires c < |t.list|
    ensures WithCondition(t, c, p).hole == t.hole && WithCondition(t, c, p).base == t.base
  {}

  /** Nor does the order of the conjuncts matter. */
  lemma WhereReordered(tables: seq<Table>, where: seq<Node>, where': seq<Node>, outs: seq<Node>, db: Database, env: Env)
    requires multiset(where) == multiset(where')
    ensures Answer(tables, where, outs, db, env) == Answer(tables, where', outs, db, env)
  {
    hide Results, Product, ScanTrue, True;
    forall n
      ensures n in where <==> n in where'
    {
      assert n in multiset(where) <==> n in multiset(where');
    }
    forall e | e in Product(tables, db, env)
      ensures AllTrue(tables, Ands(where), e) <==> AllTrue(tables, Ands(where'), e)
    {
      AndsTrue(where, e);
      AndsTrue(where', e);
    }
    ResultsSame(Product(tables, db, env), tables, tables, Ands(where), Ands(where'), outs);
  }

  lemma AndsTrue(where: seq<Node>, e: Env)
    ensures (forall i :: 0 <= i < |Ands(where)| && Ands(where)[i].Some? ==> True(Ands(where)[i].value, e))
            <==> (forall n :: n in where ==> True(n, e))
  {
    hide True;
    if forall i :: 0 <= i < |Ands(where)| && Ands(where)[i].Some? ==> True(Ands(where)[i].value, e) {
      forall n | n in where
        ensures True(n, e)
      {
        var i :| 0 <= i < |where| && where[i] == n;
        assert Ands(where)[i] == Some(n);
      }
    }
  }

  // ---- Every conjunct is tested at exactly one level ----

  function Values(ands: seq<Option<Node>>): seq<Node> {
    if ands == [] then []
    else Values(ands[..|ands| - 1]) + if ands[|ands| - 1].Some? then [ands[|ands| - 1].value] else []
  }

  /** The conjuncts of all levels, one level after the other. */
  function Tested(tables: seq<Table>, ands: seq<Option<Node>>, masks: seq<set<int>>, done: set<int>): seq<Node>
    requires |ands| == |masks|
    decreases |tables|
  {
    if tables == [] then []
    else
      var all := done + {tables[0].hole};
      Picked(ands, masks, all) + Tested(tables[1..], Unused(ands, masks, all), masks, all)
  }

  lemma {:induction false} PickedOrUnused(ands: seq<Option<Node>>, masks: seq<set<int>>, all: set<int>)
    requires |ands| == |masks|
    ensures multiset(Picked(ands, masks, all)) + multiset(Values(Unused(ands, masks, all))) == multiset(Values(ands))
  {
    if ands != [] {
      hide CanBeUsed, Values, Unused;
      var k := |ands| - 1;
      PickedOrUnused(ands[..k], masks[..k], all);
      var us := Unused(ands, masks, all);
      assert us[..k] == Unused(ands[..k], masks[..k], all);
      ValuesLast(us);
      ValuesLast(ands);
    }
  }

  lemma ValuesLast(ands: seq<Option<Node>>)
    requires ands != []
    ensures var k := |ands| - 1;
            && (ands[k].Some? ==> multiset(Values(ands)) == multiset(Values(ands[..k])) + multiset{ands[k].value})
            && (ands[k].None? ==> multiset(Values(ands)) == multiset(Values(ands[..k])))
  {}

  /** No conjunct is lost and none is tested twice. */
  lemma {:induction false} ConjunctsConserved(tables: seq<Table>, ands: seq<Option<Node>>, masks: seq<set<int>>,
                                              done: set<int>)
    requires |ands| == |masks|
    ensures multiset(Tested(tables, ands, masks, done)) + multiset(Values(Rest(tables, ands, masks, done)))
            == multiset(Values(ands))
    decreases |tables|
  {
    hide Picked, Unused, Values;
    if tables != [] {
      var all := done + {tables[0].hole};
      PickedOrUnused(ands, masks, all);
      ConjunctsConserved(tables[1..], Unused(ands, masks, all), masks, all);
    }
  }

  lemma {:induction false} NoneLeft(tables: seq<Table>, ands: seq<Option<Node>>, masks: seq<set<int>>, done: set<int>,
                                    i: nat)
    requires |ands| == |masks| && i < |ands| && tables != [] && masks[i] <= done + Holes(tables)
    ensures Rest(tables, ands, masks, done)[i] == Option.None
    decreases |tables|
  {
    var all := done + {tables[0].hole};
    var us := Unused(ands, masks, all);
    assert done + Holes(tables) == all + Holes(tables[1..]);
    if |tables| > 1 {
      NoneLeft(tables[1..], us, masks, all, i);
    } else {
      assert tables[1..] == [] && Holes(tables[1..]) == {};
      assert CanBeUsed(masks[i], all);
    }
  }

  lemma {:induction false} ValuesNone(ands: seq<Option<Node>>)
    requires forall i :: 0 <= i < |ands| ==> ands[i].None?
    ensures Values(ands) == []
  {
    if ands != [] {
      ValuesNone(ands[..|ands| - 1]);
    }
  }

  lemma {:induction false} ValuesAnds(where: seq<Node>)
    ensures Values(Ands(where)) == where
  {
    if where != [] {
      var k := |where| - 1;
      ValuesAnds(where[..k]);
      assert Ands(where)[..k] == Ands(where[..k]);
    }
  }

  /** The levels of a query test all conjuncts of WHERE, each of them once. */
  lemma QueryTestsEachOnce(tables: seq<Table>, where: seq<Node>)
    requires tables != []
    ensures multiset(Tested(tables, Ands(where), Masks(where), External(where, tables))) == multiset(where)
  {
    hide Deps, AllDeps, Holes, Tested, Values;
    var ands, masks, done := Ands(where), Masks(where), External(where, tables);
    DepsInAll(where);
    forall i | 0 <= i < |ands|
      ensures Rest(tables, ands, masks, done)[i].None?
    {
      assert Deps(where[i]) <= AllDeps(where);
      NoneLeft(tables, ands, masks, done, i);
    }
    ConjunctsConserved(tables, ands, masks, done);
    ValuesNone(Rest(tables, ands, masks, done));
    ValuesAnds(where);
  }

  // ---- A query for which all this holds ----

  function N(n: int): Value { Value(Regular, Num, n, "") }
  const MISSING := Value(Null, Num, 0, "")

  const ORDERS := Table(1, 10, [])
  const ITEMS := Table(2, 20, [[NullTest(true)]])
  const SAMPLE: Database := map[10 := [[N(1)], [MISSING]], 20 := [[MISSING], [N(1)], [N(2)]]]

  function Col(hole: int): Node { Node(OPERAND, 0, Nil, Nil, Column(hole, 0)) }

  const JOINED := Node(EQU, 2, Node(OPERAND, 0, Nil, Col(2), Column(1, 0)), Nil, Const(HOLE))

  const CANDIDATES: Database := map[1 := SAMPLE[10], 2 := SAMPLE[20]]

  const TEST := TreeOf(NullTest(true), 2, 0)

  lemma JoinedAlways()
    ensures AlwaysSound(JOINED, CANDIDATES) && Deps(JOINED) == {1, 2}
  {
    assert Deps(Col(2)) == {2} && DepsAll(Col(2)) == {2} && JOINED.dn.rh == Col(2);
    assert Deps(JOINED.dn) == {1} && DepsAll(JOINED.dn) == {1} + DepsAll(Col(2));
    forall e: Env | Chosen(e, CANDIDATES, Deps(JOINED))
      ensures Sound(JOINED, e)
    {
      assert 1 in Deps(JOINED) && 2 in Deps(JOINED);
      assert e[1] in CANDIDATES[1] && e[2] in CANDIDATES[2];
      JoinedSound(e);
    }
  }

  lemma TestAlways()
    ensures AlwaysSound(TEST, CANDIDATES) && Deps(TEST) == {2}
  {
    assert TEST.dn == Col(2) && DepsAll(TEST.dn) == {2} && Deps(TEST) == {2};
    forall e: Env | Chosen(e, CANDIDATES, Deps(TEST))
      ensures Sound(TEST, e)
    {
      assert 2 in Deps(TEST);
      assert e[2] in CANDIDATES[2];
      TestSound(TEST, e);
    }
  }

  lemma ColAlways()
    ensures AlwaysYields(Col(2), CANDIDATES) && Deps(Col(2)) == {2}
  {
    forall e: Env | Chosen(e, CANDIDATES, Deps(Col(2)))
      ensures Run(Col(2), e).Ok?
    {
      assert 2 in Deps(Col(2));
    }
  }

  lemma TwoTables(a: Table, b: Table)
    requires TableSound(a, CANDIDATES, SAMPLE, {}) && TableSound(b, CANDIDATES, SAMPLE, {a.hole})
    ensures TablesSound([a, b], CANDIDATES, SAMPLE, {})
  {
    hide TableSound;
    assert [a, b][1..] == [b] && [b][1..] == [] && {} + {a.hole} == {a.hole};
    assert TablesSound([], CANDIDATES, SAMPLE, {a.hole} + {b.hole});
    assert TablesSound([b], CANDIDATES, SAMPLE, {a.hole});
  }

  lemma TwoHoles(a: Table, b: Table)
    ensures Holes([a, b]) == {a.hole, b.hole}
  {
    assert [a, b][1..] == [b] && [b][1..] == [];
    assert Holes([]) == {} && Holes([b]) == {b.hole};
  }

  /** Two tables joined on a column that may be NULL, one of them scanned with a condition: the query is
      sound, so that the results above speak of it. */
  lemma SampleSound()
    ensures QuerySound([ORDERS, ITEMS], [JOINED], [Col(2)], CANDIDATES, SAMPLE, {})
  {
    JoinedAlways();
    ColAlways();
    TestAlways();
    TwoHoles(ORDERS, ITEMS);
    hide Deps, AlwaysSound, AlwaysYields, TreeOf, Chosen, Holes;
    forall env: Env { PlainReadable(ITEMS.list, env); }
    forall env: Env { PlainReadable(ORDERS.list, env); }
    TwoTables(ORDERS, ITEMS);
  }

  lemma JoinedSound(e: Env)
    requires 1 in e && 2 in e && |e[1]| == 1 && |e[2]| == 1
    requires e[1][0].kind == Num && e[2][0].kind == Num && e[1][0].nl != Unknown && e[2][0].nl != Unknown
    ensures Sound(JOINED, e)
  {
    var a, b := JOINED.dn, JOINED.dn.rh;
    assert b == Col(2) && a == Node(OPERAND, 0, Nil, b, Column(1, 0));
    assert AllTyped(b.rh, NUMBER, e) && AllTyped(b, NUMBER, e) && AllTyped(a, NUMBER, e);
    assert Count(b) == 1 && Count(a) == 2;
    assert SemAll(b.rh, e) == Some([]);
    var x, y := Abs(e[1][0]), Abs(e[2][0]);
    assert Sem(b, e) == Some(y) && Sem(a, e) == Some(x);
    assert [y] + [] == [y] && [x] + [y] == [x, y];
    assert SemAll(b, e) == Some([y]);
    assert SemAll(a, e) == Some([x, y]);
    assert Sem(JOINED, e) == Meaning(EQU, [x, y]);
  }

  lemma TestSound(test: Node, e: Env)
    requires test == TreeOf(NullTest(true), 2, 0) && 2 in e && |e[2]| == 1 && e[2][0].kind == Num
             && e[2][0].nl != Unknown
    ensures Sound(test, e)
  {
    assert test.dn == Col(2);
    assert AllTyped(test.dn.rh, NUMBER, e) && AllTyped(test.dn, NUMBER, e) && Count(test.dn) == 1;
    assert SemAll(test.dn.rh, e) == Some([]);
    var y := Abs(e[2][0]);
    assert Sem(test.dn, e) == Some(y) && [y] + [] == [y];
    assert SemAll(test.dn, e) == Some([y]);
    assert Sem(test, e) == Meaning(ISNOTNULL, [y]);
  }
}
