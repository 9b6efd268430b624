/** From a SELECT as it is written to its rows: the order of its tables is chosen, its conjuncts are
    distributed, the result is compiled and carried out. The rows are those of the query as written. */
module Planning {
  import opened Concatenation
  import opened Counting
  import opened TableMasks
  import opened Expressions
  import opened Program
  import opened Interp
  import opened Answers
  import opened Joins
  import T = TableOrder
  import O = Optimizer
  import P = Placement
  import Statement

  /** A SELECT before the search. `simple[t][p]` is the condition that the conjunct `p` can become on the scan
      of the table `t`, if it is a simple predicate of this table. */
  datatype Query = Query(tables: seq<Table>, where: seq<Node>, outs: seq<Node>, simple: seq<seq<Simple>>)

  /** The conjunct says of every row what the condition does. */
  ghost predicate Becomes(n: Node, s: Simple, hole: int, col: nat) {
    forall e: Env :: True(n, e) <==> True(TreeOf(s, hole, col), e)
  }

  predicate NoConditions(t: Table) { forall c :: 0 <= c < |t.list| ==> t.list[c] == [] }

  /** The estimation is about this query. */
  ghost predicate Describes(pr: O.Problem, q: Query) {
    && pr.Valid() && |q.tables| == |q.simple| == |pr.bits| && |q.where| == |pr.conjuncts|
    && (forall t :: 0 <= t < |q.tables| ==>
          && q.tables[t].hole == pr.bits[t] && |q.tables[t].list| == pr.cols[t] && NoConditions(q.tables[t])
          && |q.simple[t]| == pr.sps)
    && (forall t, p :: 0 <= t < |q.tables| && 0 <= p < pr.sps && pr.info[t][p].sel != 0.0 ==>
          Becomes(q.where[p], q.simple[t][p], q.tables[t].hole, pr.info[t][p].col))
  }

  // ---- The query after the search ----

  predicate Within(ps: seq<int>, n: nat) { forall i :: 0 <= i < |ps| ==> 0 <= ps[i] < n }

  lemma WithinIn(ps: seq<int>, n: nat)
    ensures Within(ps, n) <==> forall p <- ps :: 0 <= p < n
  {
    forall i | 0 <= i < |ps|
      ensures ps[i] in ps
    {}
  }

  function Pick<A>(s: seq<A>, ps: seq<int>): (r: seq<A>)
    requires Within(ps, |s|)
    ensures |r| == |ps| && forall i :: 0 <= i < |r| ==> r[i] == s[ps[i]]
  {
    seq(|ps|, i requires 0 <= i < |ps| => s[ps[i]])
  }

  /** The conjuncts that the index has on the column `c`. */
  function FromIndex(ind: seq<seq<int>>, index: seq<nat>, c: nat): seq<int>
    requires |ind| == |index|
  {
    if ind == [] then []
    else
      var k := |ind| - 1;
      FromIndex(ind[..k], index[..k], c) + if index[k] == c then ind[k] else []
  }

  lemma {:induction false} FromIndexIn(ind: seq<seq<int>>, index: seq<nat>, c: nat, p: int)
    requires |ind| == |index|
    ensures p in FromIndex(ind, index, c) <==> exists j :: 0 <= j < |ind| && index[j] == c && p in ind[j]
  {
    if ind != [] {
      var k := |ind| - 1;
      FromIndexIn(ind[..k], index[..k], c, p);
      assert forall j :: 0 <= j < k ==> ind[..k][j] == ind[j] && index[..k][j] == index[j];
    }
  }

  function AtColumn(tab: seq<seq<int>>, ind: seq<seq<int>>, index: seq<nat>, c: nat): seq<int>
    requires |ind| == |index| && c < |tab|
  {
    tab[c] + FromIndex(ind, index, c)
  }

  lemma AtColumnPlaced(pr: O.Problem, order: seq<int>, k: nat, index: seq<nat>, tab: seq<seq<int>>, ind: seq<seq<int>>,
                       c: nat)
    requires O.Orders(pr, order) && k < |order| && P.PlacedAt(pr, order, k, index, tab, ind) && c < |tab|
    ensures P.Placed(pr, order, k, c, AtColumn(tab, ind, index, c))
  {
    hide CanBeUsed, O.Covered, FromIndex;
    forall p | p in AtColumn(tab, ind, index, c)
      ensures P.Placed(pr, order, k, c, [p])
    {
      FromIndexIn(ind, index, c, p);
      if p in tab[c] {
        assert P.Placed(pr, order, k, c, tab[c]);
      } else {
        var j :| 0 <= j < |ind| && index[j] == c && p in ind[j];
        assert P.Placed(pr, order, k, index[j], ind[j]);
      }
    }
    forall p | p in AtColumn(tab, ind, index, c)
      ensures 0 <= p < pr.sps
    {
      assert P.Placed(pr, order, k, c, [p]) && p in [p];
    }
  }

  /** The table at the position `k` of the order, with the conditions that its scan and its index have. */
  function PlannedTable(q: Query, pr: O.Problem, order: seq<int>, index: seq<nat>, tab: seq<seq<int>>,
                        ind: seq<seq<int>>, k: nat): (t: Table)
    requires Describes(pr, q) && O.Orders(pr, order) && k < |order| && P.PlacedAt(pr, order, k, index, tab, ind)
    ensures t.hole == q.tables[order[k]].hole && t.base == q.tables[order[k]].base && |t.list| == |tab|
  {
    q.tables[order[k]].(list := seq(|tab|, c requires 0 <= c < |tab| =>
      AtColumnPlaced(pr, order, k, index, tab, ind, c);
      WithinIn(AtColumn(tab, ind, index, c), pr.sps);
      Pick(q.simple[order[k]], AtColumn(tab, ind, index, c))))
  }

  function Planned(q: Query, pr: O.Problem, order: seq<int>, indexes: seq<seq<nat>>, r: P.Places): (ts: seq<Table>)
    requires Describes(pr, q) && O.Orders(pr, order) && P.Distributed(pr, order, indexes, r)
    ensures |ts| == |order|
    ensures forall k :: 0 <= k < |ts| ==> ts[k] == PlannedTable(q, pr, order, indexes[k], r.tab[k], r.ind[k], k)
  {
    seq(|order|, k requires 0 <= k < |order| => PlannedTable(q, pr, order, indexes[k], r.tab[k], r.ind[k], k))
  }

  // ---- Its meaning ----

  /** The conjunct is with the table. */
  ghost predicate OnTable(tab: seq<seq<int>>, ind: seq<seq<int>>, p: int) {
    (exists c :: 0 <= c < |tab| && p in tab[c]) || exists j :: 0 <= j < |ind| && p in ind[j]
  }

  /** The conditions of a planned table are TRUE if and only if its conjuncts are. */
  lemma TableTrue(q: Query, pr: O.Problem, order: seq<int>, index: seq<nat>, tab: seq<seq<int>>, ind: seq<seq<int>>,
                  k: nat, e: Env)
    requires Describes(pr, q) && O.Orders(pr, order) && k < |order| && P.PlacedAt(pr, order, k, index, tab, ind)
    ensures forall p | OnTable(tab, ind, p) :: 0 <= p < |q.where|
    ensures ScanTrue(PlannedTable(q, pr, order, index, tab, ind, k), e)
            <==> forall p | OnTable(tab, ind, p) :: True(q.where[p], e)
  {
    hide True, TreeOf, CanBeUsed, O.Covered, FromIndex;
    var t, o := PlannedTable(q, pr, order, index, tab, ind, k), order[k];
    forall p | OnTable(tab, ind, p)
      ensures 0 <= p < pr.sps && exists c :: 0 <= c < |tab| && p in AtColumn(tab, ind, index, c)
    {
      if c :| 0 <= c < |tab| && p in tab[c] {
        assert P.Placed(pr, order, k, c, tab[c]);
        assert p in AtColumn(tab, ind, index, c);
      } else {
        var j :| 0 <= j < |ind| && p in ind[j];
        assert P.Placed(pr, order, k, index[j], ind[j]);
        FromIndexIn(ind, index, index[j], p);
        assert p in AtColumn(tab, ind, index, index[j]);
      }
    }
    forall c | 0 <= c < |tab|
      ensures forall p <- AtColumn(tab, ind, index, c) :: 0 <= p < |q.where|
      ensures ColumnTrue(t, c, e) <==> forall p <- AtColumn(tab, ind, index, c) :: True(q.where[p], e)
    {
      AtColumnPlaced(pr, order, k, index, tab, ind, c);
      WithinIn(AtColumn(tab, ind, index, c), pr.sps);
      ColumnPicked(q, pr, o, AtColumn(tab, ind, index, c), c, t, e);
    }
    forall c, p | 0 <= c < |tab| && p in AtColumn(tab, ind, index, c)
      ensures OnTable(tab, ind, p)
    {
      FromIndexIn(ind, index, c, p);
    }
  }

  lemma ColumnPicked(q: Query, pr: O.Problem, o: int, ps: seq<int>, c: nat, t: Table, e: Env)
    requires Describes(pr, q) && 0 <= o < |q.tables| && c < |t.list| && t.hole == q.tables[o].hole
    requires forall p <- ps :: 0 <= p < pr.sps && pr.info[o][p].sel != 0.0 && pr.info[o][p].col == c
    requires Within(ps, pr.sps) && t.list[c] == Pick(q.simple[o], ps)
    ensures forall p <- ps :: 0 <= p < |q.where|
    ensures ColumnTrue(t, c, e) <==> forall p <- ps :: True(q.where[p], e)
  {
    hide True, TreeOf;
    forall i | 0 <= i < |ps|
      ensures ps[i] in ps
    {}
    forall i | 0 <= i < |ps|
      ensures True(TreeOf(t.list[c][i], t.hole, c), e) <==> True(q.where[ps[i]], e)
    {
      assert ps[i] in ps;
      assert Becomes(q.where[ps[i]], q.simple[o][ps[i]], t.hole, c);
    }
    if forall i :: 0 <= i < |ps| ==> True(TreeOf(t.list[c][i], t.hole, c), e) {
      forall p | p in ps
        ensures True(q.where[p], e)
      {
        var i :| 0 <= i < |ps| && ps[i] == p;
        assert True(TreeOf(t.list[c][i], t.hole, c), e);
      }
    }
  }

  lemma AllIn(lists: seq<seq<seq<int>>>, p: int)
    ensures p in P.All(lists) <==> exists k, c :: 0 <= k < |lists| && 0 <= c < |lists[k]| && p in lists[k][c]
  {
    hide Concat;
    ConcatIn(Concat(lists), p);
    if p in P.All(lists) {
      var i :| 0 <= i < |Concat(lists)| && p in Concat(lists)[i];
      ConcatIn(lists, Concat(lists)[i]);
      var k :| 0 <= k < |lists| && Concat(lists)[i] in lists[k];
      var c :| 0 <= c < |lists[k]| && lists[k][c] == Concat(lists)[i];
    }
    if k, c :| 0 <= k < |lists| && 0 <= c < |lists[k]| && p in lists[k][c] {
      ConcatIn(lists, lists[k][c]);
      var i :| 0 <= i < |Concat(lists)| && Concat(lists)[i] == lists[k][c];
    }
  }

  /** Every conjunct is with some table or in the rest, and nothing else is. */
  lemma Somewhere(pr: O.Problem, order: seq<int>, indexes: seq<seq<nat>>, r: P.Places, p: int)
    requires O.Orders(pr, order) && P.Distributed(pr, order, indexes, r)
    ensures 0 <= p < |pr.conjuncts| <==> p in r.rest || exists k :: 0 <= k < |order| && OnTable(r.tab[k], r.ind[k], p)
  {
    hide P.All, P.PlacedAt, O.Orders;
    AllIn(r.tab, p);
    AllIn(r.ind, p);
    assert p in multiset(T.Identity(|pr.conjuncts|)) <==> p in P.All(r.tab) || p in P.All(r.ind) || p in r.rest;
    assert p in T.Identity(|pr.conjuncts|) <==> 0 <= p < |pr.conjuncts| by {
      assert 0 <= p < |pr.conjuncts| ==> T.Identity(|pr.conjuncts|)[p] == p;
    }
    if p in P.All(r.tab) {
      var k, c :| 0 <= k < |r.tab| && 0 <= c < |r.tab[k]| && p in r.tab[k][c];
      assert OnTable(r.tab[k], r.ind[k], p);
    }
    if p in P.All(r.ind) {
      var k, c :| 0 <= k < |r.ind| && 0 <= c < |r.ind[k]| && p in r.ind[k][c];
      assert OnTable(r.tab[k], r.ind[k], p);
    }
  }

  lemma RestInWhere(pr: O.Problem, order: seq<int>, indexes: seq<seq<nat>>, r: P.Places)
    requires O.Orders(pr, order) && P.Distributed(pr, order, indexes, r)
    ensures forall p <- r.rest :: 0 <= p < |pr.conjuncts|
  {
    hide P.Distributed, O.Orders;
    forall p | p in r.rest
      ensures 0 <= p < |pr.conjuncts|
    {
      Somewhere(pr, order, indexes, r, p);
    }
  }

  /** The tables in the chosen order, as they were written. */
  function InOrder(q: Query, order: seq<int>): seq<Table>
    requires Within(order, |q.tables|)
  {
    Pick(q.tables, order)
  }

  lemma OrdersWithin(pr: O.Problem, order: seq<int>)
    requires O.Orders(pr, order)
    ensures Within(order, |pr.bits|)
  {}

  function RestOf(q: Query, r: P.Places): seq<Node>
    requires Within(r.rest, |q.where|)
  {
    Pick(q.where, r.rest)
  }

  lemma RestWithin(pr: O.Problem, order: seq<int>, indexes: seq<seq<nat>>, r: P.Places)
    requires O.Orders(pr, order) && P.Distributed(pr, order, indexes, r)
    ensures Within(r.rest, |pr.conjuncts|)
  {
    hide P.Distributed, O.Orders;
    RestInWhere(pr, order, indexes, r);
    WithinIn(r.rest, |pr.conjuncts|);
  }

  /** One combination of rows: the conditions after the search say what the conjuncts as written say. */
  lemma PlannedTrue(q: Query, pr: O.Problem, order: seq<int>, indexes: seq<seq<nat>>, r: P.Places, e: Env)
    requires Describes(pr, q) && O.Orders(pr, order) && P.Distributed(pr, order, indexes, r)
    requires Within(r.rest, |q.where|) && Within(order, |q.tables|)
    ensures AllTrue(Planned(q, pr, order, indexes, r), Ands(RestOf(q, r)), e)
            <==> AllTrue(InOrder(q, order), Ands(q.where), e)
  {
    hide True, ScanTrue, O.Orders, P.PlacedAt, OnTable;
    var ts, us := Planned(q, pr, order, indexes, r), InOrder(q, order);
    AndsTrue(RestOf(q, r), e);
    AndsTrue(q.where, e);
    forall u | u in us
      ensures ScanTrue(u, e)
    {
      var k :| 0 <= k < |us| && us[k] == u;
      Unconditional(q.tables[order[k]], e);
    }
    if forall n <- q.where :: True(n, e) {
      forall t | t in ts
        ensures ScanTrue(t, e)
      {
        var k :| 0 <= k < |ts| && ts[k] == t;
        TableTrue(q, pr, order, indexes[k], r.tab[k], r.ind[k], k, e);
      }
    }
    if (forall n <- RestOf(q, r) :: True(n, e)) && forall t <- ts :: ScanTrue(t, e) {
      forall n | n in q.where
        ensures True(n, e)
      {
        var p :| 0 <= p < |q.where| && q.where[p] == n;
        Somewhere(pr, order, indexes, r, p);
        if p in r.rest {
          var i :| 0 <= i < |r.rest| && r.rest[i] == p;
          assert RestOf(q, r)[i] == n;
        } else {
          var k :| 0 <= k < |order| && OnTable(r.tab[k], r.ind[k], p);
          assert ts[k] in ts;
          TableTrue(q, pr, order, indexes[k], r.tab[k], r.ind[k], k, e);
        }
      }
    }
  }

  lemma Unconditional(t: Table, e: Env)
    requires NoConditions(t)
    ensures ScanTrue(t, e)
  {}

  /** Distributing the conjuncts leaves the answer as it is, row by row. */
  lemma PlannedAnswer(q: Query, pr: O.Problem, order: seq<int>, indexes: seq<seq<nat>>, r: P.Places, db: Database,
                      env: Env)
    requires Describes(pr, q) && O.Orders(pr, order) && P.Distributed(pr, order, indexes, r)
    requires Within(r.rest, |q.where|) && Within(order, |q.tables|)
    ensures Answer(Planned(q, pr, order, indexes, r), RestOf(q, r), q.outs, db, env)
            == Answer(InOrder(q, order), q.where, q.outs, db, env)
  {
    hide Results, Product, AllTrue, O.Orders, P.Distributed, Describes;
    var ts, us := Planned(q, pr, order, indexes, r), InOrder(q, order);
    assert SameRows(ts, us);
    ProductSame(ts, us, db, env);
    forall e | e in Product(ts, db, env)
      ensures AllTrue(ts, Ands(RestOf(q, r)), e) <==> AllTrue(us, Ands(q.where), e)
    {
      PlannedTrue(q, pr, order, indexes, r, e);
    }
    ResultsSame(Product(ts, db, env), ts, us, Ands(RestOf(q, r)), Ands(q.where), q.outs);
  }

  /** Picking in another order gives the same elements. */
  lemma {:induction false} PickSame<A>(s: seq<A>, ps: seq<int>, qs: seq<int>)
    requires Within(ps, |s|) && Within(qs, |s|) && multiset(ps) == multiset(qs)
    ensures multiset(Pick(s, ps)) == multiset(Pick(s, qs))
    decreases |ps|
  {
    if ps == [] {
      assert |multiset(qs)| == 0;
    } else {
      var k := Joins.Found(ps, qs);
      var rest := qs[..k] + qs[k + 1..];
      Removed(ps, qs, k);
      assert Within(rest, |s|);
      PickSame(s, ps[1..], rest);
      var us, vs := Pick(s, ps), Pick(s, qs);
      SplitAt(us, 0);
      SplitAt(vs, k);
      assert us[1..] == Pick(s, ps[1..]) && vs[..k] + vs[k + 1..] == Pick(s, rest);
    }
  }

  lemma InOrderSame(q: Query, order: seq<int>)
    requires Within(order, |q.tables|) && T.Permutation(order, |q.tables|)
    ensures multiset(InOrder(q, order)) == multiset(q.tables)
  {
    var id := T.Identity(|q.tables|);
    PickSame(q.tables, order, id);
    assert Pick(q.tables, id) == q.tables;
  }

  /** Whatever order is chosen and however the conjuncts are distributed, the answer has the same rows
      equally often as that of the query as it was written. */
  lemma SameAnswer(q: Query, pr: O.Problem, order: seq<int>, indexes: seq<seq<nat>>, r: P.Places, db: Database,
                   env: Env)
    requires Describes(pr, q) && O.Orders(pr, order) && P.Distributed(pr, order, indexes, r)
    requires T.Permutation(order, |q.tables|) && Bound(q.tables, db)
    ensures Within(r.rest, |q.where|)
    ensures multiset(Answer(Planned(q, pr, order, indexes, r), RestOf(q, r), q.outs, db, env)) ==
            multiset(Answer(q.tables, q.where, q.outs, db, env))
  {
    hide Answer, P.Distributed, T.Permutation;
    OrdersWithin(pr, order);
    RestWithin(pr, order, indexes, r);
    PlannedAnswer(q, pr, order, indexes, r, db, env);
    InOrderSame(q, order);
    ReorderedAnswer(q.tables, InOrder(q, order), q.where, q.outs, db, env);
  }

  // ---- No evaluation fails after the search either ----

  /** The simple predicates of a table as conditions of its scan: sound, and referring to what the conjunct
      refers to without the table itself. */
  ghost predicate SimplesSound(q: Query, pr: O.Problem, cand: Database)
    requires Describes(pr, q)
  {
    forall t, p :: 0 <= t < |q.tables| && 0 <= p < pr.sps && pr.info[t][p].sel != 0.0 ==>
      SimpleSound(q.simple[t][p], q.tables[t].hole, pr.info[t][p].col, cand,
                  pr.conjuncts[p].depend - {q.tables[t].hole})
  }

  /** What holds of the tables whatever their order. */
  ghost predicate Available(tables: seq<Table>, cand: Database, db: Database) {
    && Bound(tables, db)
    && forall i :: 0 <= i < |tables| ==> tables[i].hole in cand && cand[tables[i].hole] == db[tables[i].base]
  }

  lemma {:induction false} SoundAvailable(tables: seq<Table>, cand: Database, db: Database, known: set<int>)
    requires TablesSound(tables, cand, db, known)
    ensures Available(tables, cand, db) && forall i :: 0 <= i < |tables| ==> tables[i].hole !in known
    decreases |tables|
  {
    hide SimpleSound, ScanReadable;
    SoundBound(tables, cand, db, known);
    if tables != [] {
      SoundAvailable(tables[1..], cand, db, known + {tables[0].hole});
      assert forall i :: 0 < i < |tables| ==> tables[i] == tables[1..][i - 1];
    }
  }

  /** The rows that are current when the scan at position `k` is opened. */
  ghost function KnownAt(q: Query, order: seq<int>, known: set<int>, k: nat): set<int>
    requires Within(order, |q.tables|) && k <= |order|
  {
    if k == 0 then known else KnownAt(q, order, known, k - 1) + {q.tables[order[k - 1]].hole}
  }

  /** The engine reads the bounds of the scan right whenever it is opened. */
  ghost predicate ReadableFor(t: Table, cand: Database, known: set<int>) {
    forall env: Env :: Chosen(env, cand, known) ==> ScanReadable(t.list, env)
  }

  ghost predicate ScansReadable(q: Query, order: seq<int>, ts: seq<Table>, cand: Database, known: set<int>)
    requires Within(order, |q.tables|) && |ts| == |order|
  {
    forall k :: 0 <= k < |ts| ==> ReadableFor(ts[k], cand, KnownAt(q, order, known, k))
  }

  lemma {:induction false} CoveredKnown(q: Query, pr: O.Problem, order: seq<int>, known: set<int>, k: nat)
    requires Describes(pr, q) && O.Orders(pr, order) && Within(order, |q.tables|) && k <= |order| && pr.ext <= known
    ensures O.Covered(pr, order, k) <= KnownAt(q, order, known, k)
  {
    if k > 0 {
      hide Becomes, NoConditions;
      CoveredKnown(q, pr, order, known, k - 1);
    }
  }

  lemma {:induction false} KnownIs(q: Query, order: seq<int>, known: set<int>, k: nat, h: int)
    requires Within(order, |q.tables|) && k <= |order|
    ensures h in KnownAt(q, order, known, k) <==> h in known || exists i :: 0 <= i < k && q.tables[order[i]].hole == h
  {
    if k > 0 {
      KnownIs(q, order, known, k - 1, h);
    }
  }

  /** The place of a table is not filled before its scan. */
  lemma NotYet(q: Query, order: seq<int>, known: set<int>, k: nat, cand: Database, db: Database)
    requires Within(order, |q.tables|) && T.Permutation(order, |q.tables|) && k < |order|
             && Available(q.tables, cand, db)
    requires forall i :: 0 <= i < |q.tables| ==> q.tables[i].hole !in known
    ensures q.tables[order[k]].hole !in KnownAt(q, order, known, k)
  {
    hide KnownAt;
    var h := q.tables[order[k]].hole;
    KnownIs(q, order, known, k, h);
    assert T.Distinct(order) by {
      T.DistinctSame(T.Identity(|q.tables|), order);
    }
    forall i | 0 <= i < k
      ensures q.tables[order[i]].hole != h
    {
      assert order[i] != order[k];
    }
  }

  /** A condition in the list of a planned table. */
  lemma Condition(q: Query, pr: O.Problem, order: seq<int>, index: seq<nat>, tab: seq<seq<int>>, ind: seq<seq<int>>,
                  k: nat, c: nat, i: nat)
    returns (p: int)
    requires Describes(pr, q) && O.Orders(pr, order) && k < |order| && P.PlacedAt(pr, order, k, index, tab, ind)
    requires c < |tab| && i < |PlannedTable(q, pr, order, index, tab, ind, k).list[c]|
    ensures 0 <= p < pr.sps && pr.info[order[k]][p].sel != 0.0 && pr.info[order[k]][p].col == c
    ensures CanBeUsed(pr.conjuncts[p].depend, O.Covered(pr, order, k + 1))
    ensures PlannedTable(q, pr, order, index, tab, ind, k).list[c][i] == q.simple[order[k]][p]
  {
    hide CanBeUsed, O.Covered, FromIndex, Becomes, NoConditions;
    AtColumnPlaced(pr, order, k, index, tab, ind, c);
    WithinIn(AtColumn(tab, ind, index, c), pr.sps);
    p := AtColumn(tab, ind, index, c)[i];
  }

  lemma PlannedTableSound(q: Query, pr: O.Problem, order: seq<int>, index: seq<nat>, tab: seq<seq<int>>,
                          ind: seq<seq<int>>, k: nat, cand: Database, db: Database, known: set<int>)
    requires Describes(pr, q) && O.Orders(pr, order) && k < |order| && P.PlacedAt(pr, order, k, index, tab, ind)
    requires SimplesSound(q, pr, cand) && Available(q.tables, cand, db)
    requires ReadableFor(PlannedTable(q, pr, order, index, tab, ind, k), cand, known)
    requires q.tables[order[k]].hole !in known && O.Covered(pr, order, k + 1) <= known + {q.tables[order[k]].hole}
    ensures TableSound(PlannedTable(q, pr, order, index, tab, ind, k), cand, db, known)
  {
    hide Describes, P.PlacedAt, O.Covered, AlwaysSound, AlwaysYields, Deps, TreeOf, ScanReadable, PlannedTable;
    var t, o := PlannedTable(q, pr, order, index, tab, ind, k), order[k];
    DescribesSizes(pr, q);
    forall c, i | 0 <= c < |t.list| && 0 <= i < |t.list[c]|
      ensures SimpleSound(t.list[c][i], t.hole, c, cand, known)
    {
      var p := Condition(q, pr, order, index, tab, ind, k, c, i);
      assert SimpleSound(q.simple[o][p], q.tables[o].hole, c, cand, pr.conjuncts[p].depend - {q.tables[o].hole});
    }
  }

  lemma DescribesSizes(pr: O.Problem, q: Query)
    requires Describes(pr, q)
    ensures |q.tables| == |q.simple| == |pr.bits| == |pr.info| && |q.where| == |pr.conjuncts|
            && pr.sps <= |pr.conjuncts|
    ensures forall t :: 0 <= t < |q.tables|
              ==> |q.simple[t]| == |pr.info[t]| == pr.sps && q.tables[t].hole == pr.bits[t]
  {
    hide Becomes, NoConditions;
  }

  /** The tables from position `k` on. */
  lemma {:induction false} PlannedFromSound(q: Query, pr: O.Problem, order: seq<int>, indexes: seq<seq<nat>>,
                                            r: P.Places, k: nat, cand: Database, db: Database, known: set<int>)
    requires Describes(pr, q) && O.Orders(pr, order) && P.Distributed(pr, order, indexes, r) && k <= |order|
    requires SimplesSound(q, pr, cand) && Available(q.tables, cand, db) && pr.ext <= known
    requires Within(order, |q.tables|) && T.Permutation(order, |q.tables|)
    requires ScansReadable(q, order, Planned(q, pr, order, indexes, r), cand, known)
    requires forall i :: 0 <= i < |q.tables| ==> q.tables[i].hole !in known
    ensures TablesSound(Planned(q, pr, order, indexes, r)[k..], cand, db, KnownAt(q, order, known, k))
    decreases |order| - k
  {
    hide Describes, P.PlacedAt, O.Covered, O.Orders, TableSound, PlannedTable, SimplesSound, Available,
         T.Permutation, ReadableFor;
    var ts := Planned(q, pr, order, indexes, r);
    if k < |order| {
      NotYet(q, order, known, k, cand, db);
      CoveredKnown(q, pr, order, known, k + 1);
      PlannedTableSound(q, pr, order, indexes[k], r.tab[k], r.ind[k], k, cand, db, KnownAt(q, order, known, k));
      PlannedFromSound(q, pr, order, indexes, r, k + 1, cand, db, known);
      assert ts[k..][0] == ts[k] && ts[k..][1..] == ts[k + 1..];
    } else {
      assert ts[k..] == [];
    }
  }

  lemma {:induction false} HolesAre(tables: seq<Table>, h: int)
    ensures h in Holes(tables) <==> exists i :: 0 <= i < |tables| && tables[i].hole == h
  {
    if tables != [] {
      HolesAre(tables[1..], h);
      assert forall i :: 0 < i < |tables| ==> tables[1..][i - 1] == tables[i];
    }
  }

  /** The planned tables fill the same places. */
  lemma PlannedHoles(q: Query, order: seq<int>, ts: seq<Table>)
    requires Within(order, |q.tables|) && T.Permutation(order, |q.tables|) && |ts| == |order|
    requires forall k :: 0 <= k < |ts| ==> ts[k].hole == q.tables[order[k]].hole
    ensures Holes(ts) == Holes(q.tables)
  {
    hide Holes;
    forall h
      ensures h in Holes(ts) <==> h in Holes(q.tables)
    {
      HolesAre(ts, h);
      HolesAre(q.tables, h);
      if i :| 0 <= i < |q.tables| && q.tables[i].hole == h {
        assert T.Identity(|q.tables|)[i] == i;
        assert i in multiset(order);
        var k :| 0 <= k < |order| && order[k] == i;
        assert ts[k].hole == h;
      }
    }
  }

  /** If the query as written is sound, its simple predicates are as conditions, and the engine reads the
      scans right, then the query after the search is sound. */
  lemma PlannedSound(q: Query, pr: O.Problem, order: seq<int>, indexes: seq<seq<nat>>, r: P.Places,
                     cand: Database, db: Database, known: set<int>)
    requires Describes(pr, q) && O.Orders(pr, order) && P.Distributed(pr, order, indexes, r)
             && T.Permutation(order, |q.tables|)
    requires QuerySound(q.tables, q.where, q.outs, cand, db, known) && SimplesSound(q, pr, cand) && pr.ext <= known
    requires Within(order, |q.tables|) && ScansReadable(q, order, Planned(q, pr, order, indexes, r), cand, known)
    ensures Within(r.rest, |q.where|)
    ensures QuerySound(Planned(q, pr, order, indexes, r), RestOf(q, r), q.outs, cand, db, known)
  {
    hide P.Distributed, TablesSound, SimplesSound, Available, T.Permutation, Holes, Deps, AlwaysSound, AlwaysYields,
         ScansReadable;
    var ts := Planned(q, pr, order, indexes, r);
    RestWithin(pr, order, indexes, r);
    SoundAvailable(q.tables, cand, db, known);
    PlannedFromSound(q, pr, order, indexes, r, 0, cand, db, known);
    assert ts[0..] == ts;
    PlannedHoles(q, order, ts);
    forall n | n in RestOf(q, r)
      ensures n in q.where
    {}
  }

  /** The code of the query after the search gives the rows of the query as written, equally often. */
  lemma PlannedRuns(q: Query, pr: O.Problem, order: seq<int>, indexes: seq<seq<nat>>, r: P.Places, mem: Memory,
                    c: Compiled, cand: Database, db: Database, known: set<int>, s: State) returns (n: nat)
    requires Describes(pr, q) && O.Orders(pr, order) && P.Distributed(pr, order, indexes, r)
             && T.Permutation(order, |q.tables|)
    requires QuerySound(q.tables, q.where, q.outs, cand, db, known) && SimplesSound(q, pr, cand) && pr.ext <= known
    requires Within(order, |q.tables|) && ScansReadable(q, order, Planned(q, pr, order, indexes, r), cand, known)
    requires Within(r.rest, |q.where|) && c.tables == Planned(q, pr, order, indexes, r) && c.where == RestOf(q, r)
             && c.outs == q.outs
    requires Emitted(c, RetPar(c.outs), mem) && Chosen(s.env, cand, known)
    requires s.status == Running && s.cur == c.begin && s.scans == map[] && s.clean && s.out == []
    ensures var t := Steps(n, mem, db, s);
            t.status == Ended && t.sqlcode == 100
              && multiset(t.out) == multiset(Answer(q.tables, q.where, q.outs, db, s.env))
  {
    hide QuerySound, Emitted, Chosen, Steps, Answer, P.Distributed, O.Orders, Describes, SimplesSound,
         ScansReadable, T.Permutation, Planned, RestOf;
    PlannedSound(q, pr, order, indexes, r, cand, db, known);
    n := CompiledQueryAnswers(mem, db, c, cand, known, s);
    assert Bound(q.tables, db) by { QueryBound(q, cand, db, known); }
    SameAnswer(q, pr, order, indexes, r, db, s.env);
  }

  lemma QueryBound(q: Query, cand: Database, db: Database, known: set<int>)
    requires QuerySound(q.tables, q.where, q.outs, cand, db, known)
    ensures Bound(q.tables, db)
  {
    hide TablesSound, OutsSound, AlwaysSound;
    SoundBound(q.tables, cand, db, known);
  }

  // ---- All of it ----

  /** The search may end with this order and this distribution of the conjuncts. */
  ghost predicate Outcome(q: Query, pr: O.Problem, indexes: seq<seq<nat>>, order: seq<int>, r: P.Places)
    requires Describes(pr, q) && |indexes| == |q.tables|
  {
    && T.Permutation(order, |q.tables|) && O.Orders(pr, order) && Within(order, |q.tables|)
    && (forall p :: T.Permutation(p, |q.tables|) ==> O.Orders(pr, p) && O.Cost(pr, order) <= O.Cost(pr, p))
    && P.Distributed(pr, order, Pick(indexes, order), r)
  }

  /** Whatever the search ends with, the engine reads the scans right. */
  ghost predicate OutcomesReadable(q: Query, pr: O.Problem, indexes: seq<seq<nat>>, cand: Database, known: set<int>)
    requires Describes(pr, q) && |indexes| == |q.tables|
  {
    forall order, r | Outcome(q, pr, indexes, order, r) ::
      ScansReadable(q, order, Planned(q, pr, order, Pick(indexes, order), r), cand, known)
  }

  /** Chooses the cheapest order, distributes the conjuncts, compiles the result and fetches all rows: they
      are the rows of the query as written, equally often. `indexes` has the columns of an index for each
      table, none if it has no index. */
  method SelectPlanned(q: Query, est: O.Estimator, indexes: seq<seq<nat>>, db: Database, env: Env,
                       ghost cand: Database, ghost known: set<int>)
    returns (rows: seq<Row>)
    requires est.Valid() && O.Positive(est.pr) && Describes(est.pr, q) && |indexes| == |q.tables|
    requires forall t, j :: 0 <= t < |indexes| && 0 <= j < |indexes[t]| ==> indexes[t][j] < est.pr.cols[t]
    requires QuerySound(q.tables, q.where, q.outs, cand, db, known) && Chosen(env, cand, known)
    requires SimplesSound(q, est.pr, cand) && OutcomesReadable(q, est.pr, indexes, cand, known) && est.pr.ext <= known
    modifies est.flag, est.colStat, est.scanned, est.allBits
    ensures multiset(rows) == multiset(Answer(q.tables, q.where, q.outs, db, env))
  {
    hide QuerySound, Chosen, Answer, P.Distributed, SimplesSound, ScansReadable, T.Permutation, Planned, RestOf,
         O.Cost, O.Positive, Becomes;
    var pr := est.pr;
    var best, cost, _ := O.OptQuery(est);
    var order := best[..];
    OrdersWithin(pr, order);
    var chosen := Pick(indexes, order);
    var r := P.PlaceConjuncts(pr, order, chosen);
    RestWithin(pr, order, chosen, r);
    assert Outcome(q, pr, indexes, order, r);
    PlannedSound(q, pr, order, chosen, r, cand, db, known);
    rows := Statement.SelectAll(Planned(q, pr, order, chosen, r), RestOf(q, r), q.outs, db, env, cand, known);
    QueryBound(q, cand, db, known);
    SameAnswer(q, pr, order, chosen, r, db, env);
  }

  // ---- A condition on the query as written ----

  /** A `>=` and a `<=` or `<` are not both simple predicates of a column before one with tests. */
  ghost predicate Calm(q: Query, pr: O.Problem)
    requires Describes(pr, q)
  {
    forall t, a, b, c | 0 <= t < |q.tables| && 0 <= a < pr.sps && 0 <= b < pr.sps && 0 <= c < pr.sps ::
      Tests(q, pr, t, a, {GE}) && Tests(q, pr, t, b, {LE, LT}) && Tests(q, pr, t, c, {EQU, LE, GE, LT, GT})
      ==> pr.info[t][a].col != pr.info[t][b].col || pr.info[t][c].col <= pr.info[t][a].col
  }

  ghost predicate Tests(q: Query, pr: O.Problem, t: int, p: int, codes: set<Code>)
    requires Describes(pr, q) && 0 <= t < |q.tables| && 0 <= p < pr.sps
  {
    pr.info[t][p].sel != 0.0 && q.simple[t][p].ColumnTest? && q.simple[t][p].code in codes
  }

  lemma PlannedPlain(q: Query, pr: O.Problem, order: seq<int>, index: seq<nat>, tab: seq<seq<int>>, ind: seq<seq<int>>,
                     k: nat)
    requires Describes(pr, q) && O.Orders(pr, order) && k < |order| && P.PlacedAt(pr, order, k, index, tab, ind)
             && Calm(q, pr)
    requires var l := PlannedTable(q, pr, order, index, tab, ind, k).list;
             forall ps <- l, p <- ps :: p.ColumnTest? ==> p.code in {EQU, LE, GE, LT, GT}
    ensures PlainList(PlannedTable(q, pr, order, index, tab, ind, k).list)
  {
    hide Describes, P.PlacedAt, O.Covered, PlannedTable;
    var t, o := PlannedTable(q, pr, order, index, tab, ind, k), order[k];
    DescribesSizes(pr, q);
    forall c, d | 0 <= c < d < |t.list| && HasTest(t.list[c], {GE}) && HasTest(t.list[c], {LE, LT})
      ensures forall s <- t.list[d] :: !s.ColumnTest?
    {
      var i :| 0 <= i < |t.list[c]| && t.list[c][i].ColumnTest? && t.list[c][i].code in {GE};
      var j :| 0 <= j < |t.list[c]| && t.list[c][j].ColumnTest? && t.list[c][j].code in {LE, LT};
      var a := Condition(q, pr, order, index, tab, ind, k, c, i);
      var b := Condition(q, pr, order, index, tab, ind, k, c, j);
      assert Tests(q, pr, o, a, {GE}) && Tests(q, pr, o, b, {LE, LT});
      forall s | s in t.list[d]
        ensures !s.ColumnTest?
      {
        var l :| 0 <= l < |t.list[d]| && t.list[d][l] == s;
        var e := Condition(q, pr, order, index, tab, ind, k, d, l);
        assert t.list[d] in t.list;
        assert !Tests(q, pr, o, e, {EQU, LE, GE, LT, GT});
      }
    }
  }

  /** Then the engine reads every scan right, whatever the search ends with. */
  lemma CalmReadable(q: Query, pr: O.Problem, indexes: seq<seq<nat>>, cand: Database, known: set<int>)
    requires Describes(pr, q) && |indexes| == |q.tables| && SimplesSound(q, pr, cand) && Calm(q, pr)
    ensures OutcomesReadable(q, pr, indexes, cand, known)
  {
    hide Describes, P.PlacedAt, O.Orders, O.Cost, SimplesSound, Calm, T.Permutation, PlannedTable, ReadableFor;
    forall order, r | Outcome(q, pr, indexes, order, r)
      ensures ScansReadable(q, order, Planned(q, pr, order, Pick(indexes, order), r), cand, known)
    {
      var chosen := Pick(indexes, order);
      forall k | 0 <= k < |order|
        ensures ReadableFor(Planned(q, pr, order, chosen, r)[k], cand, KnownAt(q, order, known, k))
      {
        CalmTable(q, pr, order, chosen[k], r.tab[k], r.ind[k], k, cand, KnownAt(q, order, known, k));
      }
    }
  }

  lemma CalmTable(q: Query, pr: O.Problem, order: seq<int>, index: seq<nat>, tab: seq<seq<int>>, ind: seq<seq<int>>,
                  k: nat, cand: Database, known: set<int>)
    requires Describes(pr, q) && O.Orders(pr, order) && k < |order| && P.PlacedAt(pr, order, k, index, tab, ind)
    requires SimplesSound(q, pr, cand) && Calm(q, pr)
    ensures ReadableFor(PlannedTable(q, pr, order, index, tab, ind, k), cand, known)
  {
    hide Describes, P.PlacedAt, O.Covered, AlwaysSound, AlwaysYields, Deps, TreeOf, ScanReadable, PlannedTable, Calm;
    var t, o := PlannedTable(q, pr, order, index, tab, ind, k), order[k];
    DescribesSizes(pr, q);
    forall ps | ps in t.list
      ensures WellFormed(ps) && forall p <- ps :: p.ColumnTest? ==> p.code in {EQU, LE, GE, LT, GT}
    {
      var c :| 0 <= c < |t.list| && t.list[c] == ps;
      forall i | 0 <= i < |ps|
        ensures ps[i].ColumnTest? ==> ps[i].expr.Node? && ps[i].code in {EQU, LE, GE, LT, GT}
      {
        var p := Condition(q, pr, order, index, tab, ind, k, c, i);
        assert SimpleSound(q.simple[o][p], q.tables[o].hole, c, cand, pr.conjuncts[p].depend - {q.tables[o].hole});
      }
    }
    PlannedPlain(q, pr, order, index, tab, ind, k);
    forall env: Env
      ensures ScanReadable(t.list, env)
    {
      PlainReadable(t.list, env);
    }
  }

  // ---- A query for which all this holds ----

  const BARE_ORDERS := Table(1, 10, [[]])
  const BARE_ITEMS := Table(2, 20, [[]])
  const WRITTEN := Query([BARE_ORDERS, BARE_ITEMS], [TEST, JOINED], [Col(2)], [[NullTest(true)], [NullTest(true)]])
  const ESTIMATE := O.Problem({}, [1, 2], [2.0, 3.0], [1, 1], [O.Conjunct({2}, {}, 0.0), O.Conjunct({1, 2}, {}, 0.0)],
                              1, [[O.SpInfo(0.0, 0, false)], [O.SpInfo(0.5, 0, false)]], 1.0, 0.1)

  lemma WrittenDescribed()
    ensures Describes(ESTIMATE, WRITTEN)
  {
    hide TreeOf, True;
    assert Becomes(TEST, NullTest(true), 2, 0);
    assert ESTIMATE.Valid();
    hide Becomes;
    forall t, p | 0 <= t < 2 && 0 <= p < 1 && ESTIMATE.info[t][p].sel != 0.0
      ensures Becomes(WRITTEN.where[p], WRITTEN.simple[t][p], WRITTEN.tables[t].hole, ESTIMATE.info[t][p].col)
    {
      assert t == 1 && p == 0;
    }
  }

  lemma WrittenSimples()
    requires Describes(ESTIMATE, WRITTEN)
    ensures SimplesSound(WRITTEN, ESTIMATE, CANDIDATES) && Calm(WRITTEN, ESTIMATE)
  {
    TestAlways();
    hide Describes, Deps, AlwaysSound, AlwaysYields, TreeOf, O.Problem.Valid;
    forall t, p | 0 <= t < 2 && 0 <= p < 1 && ESTIMATE.info[t][p].sel != 0.0
      ensures SimpleSound(WRITTEN.simple[t][p], WRITTEN.tables[t].hole, ESTIMATE.info[t][p].col, CANDIDATES,
                          ESTIMATE.conjuncts[p].depend - {WRITTEN.tables[t].hole})
    {
      assert t == 1 && p == 0;
    }
    forall t, p, codes | 0 <= t < 2 && 0 <= p < 1
      ensures !Tests(WRITTEN, ESTIMATE, t, p, codes)
    {
      assert WRITTEN.simple[t][p] == NullTest(true);
    }
  }

  /** The query of the sample with its condition still in WHERE. */
  lemma WrittenSound()
    ensures Describes(ESTIMATE, WRITTEN) && SimplesSound(WRITTEN, ESTIMATE, CANDIDATES)
    ensures QuerySound(WRITTEN.tables, WRITTEN.where, WRITTEN.outs, CANDIDATES, SAMPLE, {})
  {
    WrittenDescribed();
    WrittenSimples();
    JoinedAlways();
    ColAlways();
    TestAlways();
    TwoHoles(BARE_ORDERS, BARE_ITEMS);
    hide Describes, SimplesSound, Calm, Deps, AlwaysSound, AlwaysYields, TreeOf, Chosen, Holes, True;
    forall env: Env { PlainReadable([[]], env); }
    TwoTables(BARE_ORDERS, BARE_ITEMS);
  }

  lemma WrittenReadable(indexes: seq<seq<nat>>)
    requires |indexes| == 2
    ensures Describes(ESTIMATE, WRITTEN) && OutcomesReadable(WRITTEN, ESTIMATE, indexes, CANDIDATES, {})
  {
    hide Describes, SimplesSound, Calm, OutcomesReadable;
    WrittenDescribed();
    WrittenSimples();
    CalmReadable(WRITTEN, ESTIMATE, indexes, CANDIDATES, {});
  }
}
