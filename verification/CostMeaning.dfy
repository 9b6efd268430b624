/** What the estimated cost of an order is, without the recursions in which it is computed. */
module CostMeaning {
  import opened TableMasks
  import opened TableOrder
  import opened Optimizer

  // ---- Sums and products ----

  ghost function Sum(s: seq<real>): real { if s == [] then 0.0 else s[0] + Sum(s[1..]) }

  ghost function Times(s: seq<real>): real { if s == [] then 1.0 else s[0] * Times(s[1..]) }

  ghost function Power(x: real, n: nat): real { if n == 0 then 1.0 else x * Power(x, n - 1) }

  lemma {:induction false} SumSnoc(s: seq<real>, x: real)
    ensures Sum(s + [x]) == Sum(s) + x
    decreases |s|
  {
    if s == [] {
      assert [x][1..] == [];
    } else {
      SumSnoc(s[1..], x);
      assert (s + [x])[1..] == s[1..] + [x];
    }
  }

  lemma {:induction false} TimesSnoc(s: seq<real>, x: real)
    ensures Times(s + [x]) == Times(s) * x
    decreases |s|
  {
    if s == [] {
      assert [x][1..] == [];
    } else {
      TimesSnoc(s[1..], x);
      assert (s + [x])[1..] == s[1..] + [x];
      Associates(s[0], Times(s[1..]), x);
    }
  }

  lemma Associates(a: real, b: real, c: real)
    ensures a * (b * c) == a * b * c
  {}

  lemma {:induction false} ProductTimes(s: seq<real>)
    ensures Product(s) == Times(s)
  {
    if s != [] {
      var k := |s| - 1;
      ProductTimes(s[..k]);
      TimesSnoc(s[..k], s[k]);
      assert s == s[..k] + [s[k]];
    }
  }

  // ---- When a conjunct comes in ----

  /** The conjunct can be used at the position `k` for the first time. */
  ghost predicate ComesIn(pr: Problem, order: seq<int>, k: nat, p: nat)
    requires Orders(pr, order) && k < |order| && p < |pr.conjuncts|
  {
    Covers(pr, order, k + 1, pr.conjuncts[p].depend) && (k == 0 || !Covers(pr, order, k, pr.conjuncts[p].depend))
  }

  lemma NewAtIs(pr: Problem, order: seq<int>, k: nat, p: nat)
    requires Orders(pr, order) && k < |order| && p < |pr.conjuncts|
    ensures NewAt(pr, order, p, k) <==> ComesIn(pr, order, k, p)
  {
    hide CanBeUsed, Covered, Covers;
    CoversIs(pr, order, k + 1, pr.conjuncts[p].depend);
    CoversIs(pr, order, k, pr.conjuncts[p].depend);
  }

  // ---- Selectivities ----

  /** Among the first `m` simple predicates, `p` comes in at the position `k` and is one of its table. */
  ghost predicate Counts(pr: Problem, order: seq<int>, k: nat, m: nat, p: int)
    requires Orders(pr, order) && k < |order| && m <= pr.sps
  {
    0 <= p < m && ComesIn(pr, order, k, p) && pr.info[order[k]][p].sel != 0.0
  }

  /** `v` is the least of 1 and the selectivities of those on the column `c`. */
  ghost predicate LeastOf(pr: Problem, order: seq<int>, k: nat, m: nat, c: nat, v: real)
    requires Orders(pr, order) && k < |order| && m <= pr.sps
  {
    var info := pr.info[order[k]];
    && v <= 1.0 && (forall p :: Counts(pr, order, k, m, p) && info[p].col == c ==> v <= info[p].sel)
    && (v == 1.0 || exists p :: Counts(pr, order, k, m, p) && info[p].col == c && v == info[p].sel)
  }

  /** `v` is the least of 1 and the selectivities of those on columns with an index. */
  ghost predicate LeastIndexed(pr: Problem, order: seq<int>, k: nat, m: nat, v: real)
    requires Orders(pr, order) && k < |order| && m <= pr.sps
  {
    var info := pr.info[order[k]];
    && v <= 1.0 && (forall p :: Counts(pr, order, k, m, p) && info[p].indexed ==> v <= info[p].sel)
    && (v == 1.0 || exists p :: Counts(pr, order, k, m, p) && info[p].indexed && v == info[p].sel)
  }

  /** Whether there is an index depends on the column. */
  ghost predicate IndexByColumn(pr: Problem)
    requires pr.Valid()
  {
    forall t, p, q :: 0 <= t < |pr.info| && 0 <= p < pr.sps && 0 <= q < pr.sps
      && pr.info[t][p].sel != 0.0 && pr.info[t][q].sel != 0.0 && pr.info[t][p].col == pr.info[t][q].col
      ==> pr.info[t][p].indexed == pr.info[t][q].indexed
  }

  lemma CountsStep(pr: Problem, order: seq<int>, k: nat, m: nat)
    requires Orders(pr, order) && k < |order| && m < pr.sps
    ensures forall p :: Counts(pr, order, k, m + 1, p) <==>
              Counts(pr, order, k, m, p) || (p == m && ComesIn(pr, order, k, m) && pr.info[order[k]][m].sel != 0.0)
  {
    hide ComesIn;
    forall p
      ensures Counts(pr, order, k, m + 1, p) <==>
                Counts(pr, order, k, m, p) || (p == m && ComesIn(pr, order, k, m) && pr.info[order[k]][m].sel != 0.0)
    {}
  }

  lemma {:induction false} ColumnsAre(pr: Problem, order: seq<int>, k: nat, m: nat)
    requires Orders(pr, order) && k < |order| && m <= pr.sps
    ensures var sels := Columns(pr, order, k, m).0;
            forall c :: 0 <= c < |sels| ==> LeastOf(pr, order, k, m, c, sels[c])
  {
    hide NewAt, Counts, ComesIn;
    if m > 0 {
      ColumnsAre(pr, order, k, m - 1);
      NewAtIs(pr, order, k, m - 1);
      CountsStep(pr, order, k, m - 1);
      ColumnsStep(pr, order, k, m - 1);
    } else {
      assert forall p :: !Counts(pr, order, k, 0, p) by { CountsNone(pr, order, k); }
    }
  }

  lemma CountsNone(pr: Problem, order: seq<int>, k: nat)
    requires Orders(pr, order) && k < |order|
    ensures forall p :: !Counts(pr, order, k, 0, p)
  {}

  lemma {:induction false} IndexedIs(pr: Problem, order: seq<int>, k: nat, m: nat)
    requires Orders(pr, order) && k < |order| && m <= pr.sps && IndexByColumn(pr)
    ensures LeastIndexed(pr, order, k, m, Columns(pr, order, k, m).1)
  {
    hide NewAt, ComesIn;
    if m > 0 {
      var n := m - 1;
      IndexedIs(pr, order, k, n);
      ColumnsAre(pr, order, k, n);
      NewAtIs(pr, order, k, n);
      CountsStep(pr, order, k, n);
      ColumnsStep(pr, order, k, n);
      hide Columns;
      var (sels, best) := Columns(pr, order, k, n);
      var info := pr.info[order[k]];
      if Counts(pr, order, k, m, n) && sels[info[n].col] <= info[n].sel && sels[info[n].col] != 1.0 {
        var q :| Counts(pr, order, k, n, q) && info[q].col == info[n].col && sels[info[n].col] == info[q].sel;
        assert info[n].indexed == info[q].indexed;
      }
    } else {
      CountsNone(pr, order, k);
    }
  }

  /** The conjuncts up to `m` that are no simple predicates and come in at the position `k`. */
  ghost function Others(pr: Problem, order: seq<int>, k: nat, m: nat): set<int>
    requires Orders(pr, order) && k < |order| && m <= |pr.conjuncts|
  {
    set p | pr.sps <= p < m && ComesIn(pr, order, k, p)
  }

  lemma OthersStep(pr: Problem, order: seq<int>, k: nat, m: nat)
    requires Orders(pr, order) && k < |order| && pr.sps <= m < |pr.conjuncts|
    ensures |Others(pr, order, k, m + 1)| == |Others(pr, order, k, m)| + if ComesIn(pr, order, k, m) then 1 else 0
  {
    hide ComesIn;
    if ComesIn(pr, order, k, m) {
      assert Others(pr, order, k, m + 1) == Others(pr, order, k, m) + {m};
    } else {
      assert Others(pr, order, k, m + 1) == Others(pr, order, k, m);
    }
  }

  lemma OthersNone(pr: Problem, order: seq<int>, k: nat)
    requires Orders(pr, order) && k < |order|
    ensures Others(pr, order, k, pr.sps) == {}
  {}

  lemma {:induction false} SelectivityIs(pr: Problem, order: seq<int>, k: nat, m: nat)
    requires Orders(pr, order) && k < |order| && pr.sps <= m <= |pr.conjuncts|
    ensures Selectivity(pr, order, k, m)
            == Times(Columns(pr, order, k, pr.sps).0) * Power(pr.defaultSel, |Others(pr, order, k, m)|)
    decreases m
  {
    hide NewAt, ComesIn, Columns, Times, Product, Others;
    if m == pr.sps {
      ProductTimes(Columns(pr, order, k, pr.sps).0);
      OthersNone(pr, order, k);
    } else {
      var n := m - 1;
      SelectivityIs(pr, order, k, n);
      NewAtIs(pr, order, k, n);
      OthersStep(pr, order, k, n);
      var s, x := Times(Columns(pr, order, k, pr.sps).0), Power(pr.defaultSel, |Others(pr, order, k, n)|);
      Inserted(s, x, pr.defaultSel);
    }
  }

  lemma Inserted(a: real, b: real, c: real)
    ensures a * b * c == a * (c * b)
  {}

  // ---- The cost of an order ----

  /** What the estimation assumes of the position `k`: the least selectivity of each column and of the columns
      with an index. */
  datatype Estimate = Estimate(columns: seq<real>, indexed: real)

  ghost predicate Estimates(pr: Problem, order: seq<int>, k: nat, e: Estimate)
    requires Orders(pr, order) && k < |order|
  {
    && |e.columns| == pr.cols[order[k]] && LeastIndexed(pr, order, k, pr.sps, e.indexed)
    && forall c :: 0 <= c < |e.columns| ==> LeastOf(pr, order, k, pr.sps, c, e.columns[c])
  }

  ghost function TableSelectivity(pr: Problem, order: seq<int>, k: nat, e: Estimate): real
    requires Orders(pr, order) && k < |order|
  {
    Times(e.columns) * Power(pr.defaultSel, |Others(pr, order, k, |pr.conjuncts|)|)
  }

  /** What comes out of the table at the position `k` for one row that comes in. */
  ghost function Factor(pr: Problem, order: seq<int>, k: nat, e: Estimate): real
    requires Orders(pr, order) && k < |order|
  {
    pr.rows[order[k]] * TableSelectivity(pr, order, k, e)
  }

  ghost function Factors(pr: Problem, order: seq<int>, es: seq<Estimate>, k: nat): (r: seq<real>)
    requires Orders(pr, order) && k <= |order| == |es|
    ensures |r| == k
    ensures forall i :: 0 <= i < k ==> r[i] == Factor(pr, order, i, es[i])
  {
    seq(k, i requires 0 <= i < k => Factor(pr, order, i, es[i]))
  }

  /** The rows that come to the position `k`: those of the tables before it, each times its selectivity. */
  ghost function RowsIn(pr: Problem, order: seq<int>, es: seq<Estimate>, k: nat): real
    requires Orders(pr, order) && k <= |order| == |es|
  {
    Times(Factors(pr, order, es, k))
  }

  /** The rows read at the position `k`: for each that comes in, those of the table that the index leaves. */
  ghost function RowsRead(pr: Problem, order: seq<int>, es: seq<Estimate>, k: nat): real
    requires Orders(pr, order) && k < |order| == |es|
  {
    pr.rows[order[k]] * es[k].indexed * RowsIn(pr, order, es, k)
  }

  /** The first position that completes the tables of the subqueries of `p`. */
  ghost predicate Completes(pr: Problem, order: seq<int>, p: nat, k: nat)
    requires Orders(pr, order) && p < |pr.conjuncts|
  {
    k < |order| && Covers(pr, order, k + 1, pr.conjuncts[p].sqDeps) && NotBefore(pr, order, p, k)
  }

  ghost predicate NotBefore(pr: Problem, order: seq<int>, p: nat, k: nat)
    requires Orders(pr, order) && p < |pr.conjuncts| && k <= |order|
  {
    forall i :: 1 <= i <= k ==> !Covers(pr, order, i, pr.conjuncts[p].sqDeps)
  }

  /** The rows read at the position `k` and an open scan for every row that comes in. */
  ghost function Share(pr: Problem, order: seq<int>, es: seq<Estimate>, k: nat): real
    requires Orders(pr, order) && k < |order| == |es|
  {
    RowsRead(pr, order, es, k) + pr.openCost * RowsIn(pr, order, es, k)
  }

  ghost function Shares(pr: Problem, order: seq<int>, es: seq<Estimate>, k: nat): (r: seq<real>)
    requires Orders(pr, order) && k <= |order| == |es|
    ensures |r| == k
    ensures forall i :: 0 <= i < k ==> r[i] == Share(pr, order, es, i)
  {
    seq(k, i requires 0 <= i < k => Share(pr, order, es, i))
  }

  /** The subqueries of the conjunct `p`, for every row read at the position `k`. */
  ghost function SubqueryShare(pr: Problem, order: seq<int>, es: seq<Estimate>, p: nat, k: nat): real
    requires Orders(pr, order) && k < |order| == |es| && p < |pr.conjuncts|
  {
    pr.conjuncts[p].sqCost * RowsRead(pr, order, es, k)
  }

  ghost function SubqueryShares(pr: Problem, order: seq<int>, es: seq<Estimate>, at: seq<nat>, m: nat): (r: seq<real>)
    requires Orders(pr, order) && |es| == |order| && m <= |at| && m <= |pr.conjuncts|
    requires forall p :: 0 <= p < m ==> at[p] < |order|
    ensures |r| == m
    ensures forall p :: 0 <= p < m ==> r[p] == SubqueryShare(pr, order, es, p, at[p])
  {
    seq(m, p requires 0 <= p < m => SubqueryShare(pr, order, es, p, at[p]))
  }

  /** The estimates of all positions. */
  ghost function EstimatesOf(pr: Problem, order: seq<int>): (es: seq<Estimate>)
    requires Orders(pr, order)
    ensures |es| == |order|
  {
    seq(|order|, k requires 0 <= k < |order| =>
      var r := Columns(pr, order, k, pr.sps); Estimate(r.0, r.1))
  }

  lemma FactorsStep(pr: Problem, order: seq<int>, es: seq<Estimate>, k: nat)
    requires Orders(pr, order) && k < |order| == |es|
    ensures Factors(pr, order, es, k + 1) == Factors(pr, order, es, k) + [Factor(pr, order, k, es[k])]
  {
    hide Factor, Factors;
    assert Factors(pr, order, es, k + 1) == Factors(pr, order, es, k) + [Factor(pr, order, k, es[k])];
  }

  lemma SharesStep(pr: Problem, order: seq<int>, es: seq<Estimate>, k: nat)
    requires Orders(pr, order) && k < |order| == |es|
    ensures Shares(pr, order, es, k + 1) == Shares(pr, order, es, k) + [Share(pr, order, es, k)]
  {
    hide Share, Shares;
    assert Shares(pr, order, es, k + 1) == Shares(pr, order, es, k) + [Share(pr, order, es, k)];
  }

  lemma SubquerySharesStep(pr: Problem, order: seq<int>, es: seq<Estimate>, at: seq<nat>, k: nat)
    requires Orders(pr, order) && |es| == |order| && |at| < |pr.conjuncts| && k < |order|
    requires forall p :: 0 <= p < |at| ==> at[p] < |order|
    ensures SubqueryShares(pr, order, es, at + [k], |at| + 1)
            == SubqueryShares(pr, order, es, at, |at|) + [SubqueryShare(pr, order, es, |at|, k)]
  {
    hide SubqueryShare, SubqueryShares;
    assert SubqueryShares(pr, order, es, at + [k], |at| + 1)
        == SubqueryShares(pr, order, es, at, |at|) + [SubqueryShare(pr, order, es, |at|, k)];
  }

  lemma NothingIn(pr: Problem, order: seq<int>, es: seq<Estimate>)
    requires Orders(pr, order) && |order| == |es|
    ensures RowsIn(pr, order, es, 0) == 1.0
  {
    assert Factors(pr, order, es, 0) == [];
  }

  lemma {:induction false} RowsInIs(pr: Problem, order: seq<int>, k: nat)
    requires Orders(pr, order) && k <= |order|
    ensures RowsOut(pr, order, k) == RowsIn(pr, order, EstimatesOf(pr, order), k)
  {
    hide Selectivity, Columns, Others, Factors, Times, Power;
    var es := EstimatesOf(pr, order);
    if k == 0 {
      NothingIn(pr, order, es);
    } else {
      var n := k - 1;
      RowsInIs(pr, order, n);
      SelectivityIs(pr, order, n, |pr.conjuncts|);
      FactorsStep(pr, order, es, n);
      TimesSnoc(Factors(pr, order, es, n), Factor(pr, order, n, es[n]));
    }
  }

  lemma RowsReadIs(pr: Problem, order: seq<int>, k: nat)
    requires Orders(pr, order) && k < |order|
    ensures Scanned(pr, order, k) == RowsRead(pr, order, EstimatesOf(pr, order), k)
  {
    hide RowsOut, RowsIn, Columns;
    RowsInIs(pr, order, k);
  }

  lemma {:induction false} ScansCost(pr: Problem, order: seq<int>, k: nat)
    requires Orders(pr, order) && k <= |order|
    ensures ScanCost(pr, order, k) == Sum(Shares(pr, order, EstimatesOf(pr, order), k))
  {
    hide RowsOut, Scanned, RowsIn, RowsRead, EstimatesOf, Shares;
    var es := EstimatesOf(pr, order);
    if k > 0 {
      var n := k - 1;
      ScansCost(pr, order, n);
      RowsInIs(pr, order, n);
      RowsReadIs(pr, order, n);
      SharesStep(pr, order, es, n);
      SumSnoc(Shares(pr, order, es, n), Share(pr, order, es, n));
    }
  }

  lemma {:induction false} LastNeededIs(pr: Problem, order: seq<int>, p: nat, k: nat)
    requires Orders(pr, order) && k < |order| && p < |pr.conjuncts|
    requires CanBeUsed(pr.conjuncts[p].sqDeps, Covered(pr, order, |order|))
    requires NotBefore(pr, order, p, k)
    ensures Completes(pr, order, p, LastNeeded(pr, order, p, k))
    decreases |order| - k
  {
    hide Covered, CanBeUsed, Covers;
    CoversIs(pr, order, k + 1, pr.conjuncts[p].sqDeps);
    if !CanBeUsed(pr.conjuncts[p].sqDeps, Covered(pr, order, k + 1)) && k + 1 < |order| {
      LastNeededIs(pr, order, p, k + 1);
    }
  }

  /** What the subqueries of the first `m` conjuncts cost: each once for every row read where its tables are
      complete. */
  lemma {:induction false} SubqueriesCost(pr: Problem, order: seq<int>, m: nat) returns (at: seq<nat>)
    requires Orders(pr, order) && m <= |pr.conjuncts| && Permutation(order, |pr.bits|)
    ensures |at| == m && forall p :: 0 <= p < m ==> at[p] < |order| && Completes(pr, order, p, at[p])
    ensures SubqueryCost(pr, order, m) == Sum(SubqueryShares(pr, order, EstimatesOf(pr, order), at, m))
  {
    hide Scanned, RowsRead, EstimatesOf, Completes, Covered, CanBeUsed, Permutation, SubqueryShares;
    at := [];
    if m > 0 {
      var n := m - 1;
      var before := SubqueriesCost(pr, order, n);
      AllCovered(pr, order);
      NeededInTheEnd(pr, order, n);
      LastNeededIs(pr, order, n, 0);
      LastNeededBound(pr, order, n, 0);
      var k := LastNeeded(pr, order, n, 0);
      at := before + [k];
      RowsReadIs(pr, order, k);
      var es := EstimatesOf(pr, order);
      SubquerySharesStep(pr, order, es, before, k);
      SumSnoc(SubqueryShares(pr, order, es, before, n), SubqueryShare(pr, order, es, n, k));
    }
  }

  /** The cost of an order: for every position the rows read and an open scan for every row that comes in, and
      for every conjunct its subqueries for every row read where their tables are complete. */
  lemma CostIs(pr: Problem, order: seq<int>) returns (es: seq<Estimate>, at: seq<nat>)
    requires Orders(pr, order) && Permutation(order, |pr.bits|) && IndexByColumn(pr)
    ensures |es| == |order| && forall k :: 0 <= k < |es| ==> Estimates(pr, order, k, es[k])
    ensures |at| == |pr.conjuncts|
    ensures forall p :: 0 <= p < |at| ==> at[p] < |order| && Completes(pr, order, p, at[p])
    ensures Cost(pr, order)
            == Sum(Shares(pr, order, es, |order|)) + Sum(SubqueryShares(pr, order, es, at, |pr.conjuncts|))
  {
    hide Permutation, IndexByColumn, Completes, RowsRead, RowsIn, ScanCost, SubqueryCost, LeastOf, LeastIndexed;
    hide Shares, SubqueryShares;
    es := EstimatesOf(pr, order);
    forall k | 0 <= k < |es|
      ensures Estimates(pr, order, k, es[k])
    {
      ColumnsAre(pr, order, k, pr.sps);
      IndexedIs(pr, order, k, pr.sps);
    }
    ScansCost(pr, order, |order|);
    at := SubqueriesCost(pr, order, |pr.conjuncts|);
  }
}
