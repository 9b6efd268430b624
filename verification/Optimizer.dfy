/** The search for the cheapest order of the tables of a join. */
module Optimizer {
  import opened TableMasks
  import opened TableOrder

  /** A conjunct: the tables it refers to, those its subqueries refer to and what these cost. */
  datatype Conjunct = Conjunct(depend: set<int>, sqDeps: set<int>, sqCost: real)
  /** What a conjunct is as a simple predicate of a table; `sel` 0 if it is none. */
  datatype SpInfo = SpInfo(sel: real, col: nat, indexed: bool)

  /** `ext` has the bits of tables outside the query, `bits` those of its own, in the order written. The
      first `sps` conjuncts are simple predicates; `info` says of which tables. */
  datatype Problem = Problem(ext: set<int>, bits: seq<int>, rows: seq<real>, cols: seq<nat>, conjuncts: seq<Conjunct>,
                             sps: nat, info: seq<seq<SpInfo>>, openCost: real, defaultSel: real)
  {
    ghost predicate Valid() {
      && bits != [] && |rows| == |cols| == |info| == |bits| && sps <= |conjuncts|
      && (forall t :: 0 <= t < |info| ==> |info[t]| == sps)
      && (forall t, p :: 0 <= t < |info| && 0 <= p < sps && info[t][p].sel != 0.0 ==> info[t][p].col < cols[t])
      && (forall p :: 0 <= p < |conjuncts| ==> conjuncts[p].sqDeps <= ext + All(|bits|))
    }

    ghost function All(k: nat): set<int>
      requires k <= |bits|
    {
      set t | 0 <= t < k :: bits[t]
    }
  }

  // ---- The cost of an order ----

  /** The bits of the first `k` tables of the order and of the tables outside. */
  ghost function Covered(pr: Problem, order: seq<int>, k: nat): set<int>
    requires k <= |order| && forall i :: 0 <= i < |order| ==> 0 <= order[i] < |pr.bits|
  {
    if k == 0 then pr.ext else Covered(pr, order, k - 1) + {pr.bits[order[k - 1]]}
  }

  ghost predicate Orders(pr: Problem, order: seq<int>) {
    pr.Valid() && |order| == |pr.bits| && forall i :: 0 <= i < |order| ==> 0 <= order[i] < |pr.bits|
  }

  /** All tables of the mask are outside the query or among the first `k` of the order. */
  ghost predicate Covers(pr: Problem, order: seq<int>, k: nat, mask: set<int>)
    requires Orders(pr, order) && k <= |order|
  {
    forall b <- mask :: b in pr.ext || exists i :: 0 <= i < k && pr.bits[order[i]] == b
  }

  lemma {:induction false} CoveredIs(pr: Problem, order: seq<int>, k: nat, b: int)
    requires Orders(pr, order) && k <= |order|
    ensures b in Covered(pr, order, k) <==> b in pr.ext || exists i :: 0 <= i < k && pr.bits[order[i]] == b
  {
    if k > 0 {
      CoveredIs(pr, order, k - 1, b);
    }
  }

  lemma CoversIs(pr: Problem, order: seq<int>, k: nat, mask: set<int>)
    requires Orders(pr, order) && k <= |order|
    ensures CanBeUsed(mask, Covered(pr, order, k)) <==> Covers(pr, order, k, mask)
  {
    hide Covered;
    var all := Covered(pr, order, k);
    forall b | b in mask
      ensures b in all <==> b in pr.ext || exists i :: 0 <= i < k && pr.bits[order[i]] == b
    {
      CoveredIs(pr, order, k, b);
    }
    if all + mask == all {
      assert forall b <- mask :: b in all + mask;
    }
    if forall b <- mask :: b in all {
      assert all + mask == all;
    }
  }

  /** The conjunct can be used with the table at position `k`, and not before. */
  ghost predicate NewAt(pr: Problem, order: seq<int>, p: nat, k: nat)
    requires Orders(pr, order) && k < |order| && p < |pr.conjuncts|
  {
    && CanBeUsed(pr.conjuncts[p].depend, Covered(pr, order, k + 1))
    && (k == 0 || !CanBeUsed(pr.conjuncts[p].depend, Covered(pr, order, k)))
  }

  function Ones(n: nat): (s: seq<real>)
    ensures |s| == n && forall i :: 0 <= i < n ==> s[i] == 1.0
  {
    seq(n, i => 1.0)
  }

  /** The least selectivity of each column, and of the columns with an index, by the first `m` simple predicates. */
  ghost function Columns(pr: Problem, order: seq<int>, k: nat, m: nat): (r: (seq<real>, real))
    requires Orders(pr, order) && k < |order| && m <= pr.sps
    ensures |r.0| == pr.cols[order[k]]
  {
    if m == 0 then (Ones(pr.cols[order[k]]), 1.0)
    else
      var (sels, best) := Columns(pr, order, k, m - 1);
      var i := pr.info[order[k]][m - 1];
      if NewAt(pr, order, m - 1, k) && i.sel != 0.0 && sels[i.col] > i.sel then
        (sels[i.col := i.sel], if i.indexed && i.sel < best then i.sel else best)
      else (sels, best)
  }

  ghost function Product(s: seq<real>): real {
    if s == [] then 1.0 else Product(s[..|s| - 1]) * s[|s| - 1]
  }

  /** The selectivity of the conjuncts up to `m`, with the default for those that are no simple predicates. */
  ghost function Selectivity(pr: Problem, order: seq<int>, k: nat, m: nat): real
    requires Orders(pr, order) && k < |order| && pr.sps <= m <= |pr.conjuncts|
  {
    if m == pr.sps then Product(Columns(pr, order, k, pr.sps).0)
    else Selectivity(pr, order, k, m - 1) * if NewAt(pr, order, m - 1, k) then pr.defaultSel else 1.0
  }

  /** The rows that come out of the first `k` tables. */
  ghost function RowsOut(pr: Problem, order: seq<int>, k: nat): real
    requires Orders(pr, order) && k <= |order|
  {
    if k == 0 then 1.0
    else RowsOut(pr, order, k - 1) * (pr.rows[order[k - 1]] * Selectivity(pr, order, k - 1, |pr.conjuncts|))
  }

  /** The rows that are read from the table at position `k`. */
  ghost function Scanned(pr: Problem, order: seq<int>, k: nat): real
    requires Orders(pr, order) && k < |order|
  {
    pr.rows[order[k]] * Columns(pr, order, k, pr.sps).1 * RowsOut(pr, order, k)
  }

  ghost function ScanCost(pr: Problem, order: seq<int>, k: nat): real
    requires Orders(pr, order) && k <= |order|
  {
    if k == 0 then 0.0
    else ScanCost(pr, order, k - 1) + (Scanned(pr, order, k - 1) + pr.openCost * RowsOut(pr, order, k - 1))
  }

  /** The first position at which all tables of the conjunct's subqueries are there. */
  ghost function LastNeeded(pr: Problem, order: seq<int>, p: nat, k: nat): nat
    requires Orders(pr, order) && k < |order| && p < |pr.conjuncts|
    decreases |order| - k
  {
    if CanBeUsed(pr.conjuncts[p].sqDeps, Covered(pr, order, k + 1)) || k + 1 == |order| then k
    else LastNeeded(pr, order, p, k + 1)
  }

  ghost function SubqueryCost(pr: Problem, order: seq<int>, m: nat): real
    requires Orders(pr, order) && m <= |pr.conjuncts| && order != []
  {
    if m == 0 then 0.0
    else
      LastNeededBound(pr, order, m - 1, 0);
      SubqueryCost(pr, order, m - 1) + pr.conjuncts[m - 1].sqCost * Scanned(pr, order, LastNeeded(pr, order, m - 1, 0))
  }

  lemma {:induction false} LastNeededBound(pr: Problem, order: seq<int>, p: nat, k: nat)
    requires Orders(pr, order) && k < |order| && p < |pr.conjuncts|
    ensures k <= LastNeeded(pr, order, p, k) < |order|
    decreases |order| - k
  {
    if !(CanBeUsed(pr.conjuncts[p].sqDeps, Covered(pr, order, k + 1)) || k + 1 == |order|) {
      LastNeededBound(pr, order, p, k + 1);
    }
  }

  ghost function Cost(pr: Problem, order: seq<int>): real
    requires Orders(pr, order)
  {
    ScanCost(pr, order, |order|) + SubqueryCost(pr, order, |pr.conjuncts|)
  }

  // ---- The estimation ----

  class Estimator {
    const pr: Problem
    const flag: array<bool>        // the conjunct is used
    const colStat: array<real>
    const scanned: array<real>
    const allBits: array<set<int>>

    constructor (pr: Problem, maxCols: nat)
      requires pr.Valid() && forall t :: 0 <= t < |pr.cols| ==> pr.cols[t] <= maxCols
      ensures this.pr == pr && Valid() && fresh(flag) && fresh(colStat) && fresh(scanned) && fresh(allBits)
    {
      this.pr := pr;
      flag := new bool[|pr.conjuncts|](_ => false);
      colStat := new real[maxCols](_ => 0.0);
      scanned := new real[|pr.bits|](_ => 0.0);
      allBits := new set<int>[|pr.bits|](_ => {});
    }

    /** Between two estimations no conjunct is marked. */
    ghost predicate Valid()
      reads this, flag
    {
      && Shape()
      && forall p :: 0 <= p < flag.Length ==> !flag[p]
    }

    ghost predicate Shape()
      reads this
    {
      && pr.Valid() && flag.Length == |pr.conjuncts| && scanned.Length == allBits.Length == |pr.bits|
      && colStat != scanned && forall t :: 0 <= t < |pr.cols| ==> pr.cols[t] <= colStat.Length
    }

    /** The conjuncts that can be used with the first `k` tables are marked. */
    ghost predicate Marked(order: seq<int>, k: nat)
      requires Shape() && Orders(pr, order) && k <= |order|
      reads this, flag
    {
      forall p :: 0 <= p < flag.Length
             ==> (flag[p] <==> k > 0 && CanBeUsed(pr.conjuncts[p].depend, Covered(pr, order, k)))
    }

    /** The simple predicates at position `k` of the order. */
    method SimplePredicates(order: seq<int>, k: nat, depend: set<int>) returns (best: real)
      requires Shape() && Orders(pr, order) && k < |order| && Marked(order, k) && depend == Covered(pr, order, k + 1)
      modifies flag, colStat
      ensures (colStat[..pr.cols[order[k]]], best) == Columns(pr, order, k, pr.sps)
      ensures forall p :: 0 <= p < pr.sps ==> (flag[p] <==> CanBeUsed(pr.conjuncts[p].depend, depend))
      ensures forall p :: pr.sps <= p < flag.Length ==> flag[p] == old(flag[p])
    {
      hide Covered, Columns, CanBeUsed;
      var t := order[k];
      var i, m := 0, 0;
      while i < pr.cols[t]
        modifies colStat
        invariant 0 <= i <= pr.cols[t] && forall c :: 0 <= c < i ==> colStat[c] == 1.0
      {
        colStat[i] := 1.0;
        i := i + 1;
      }
      best := 1.0;
      ColumnsStart(pr, order, k);
      assert colStat[..pr.cols[t]] == Ones(pr.cols[t]);
      while m < pr.sps
        invariant 0 <= m <= pr.sps
        invariant (colStat[..pr.cols[t]], best) == Columns(pr, order, k, m)
        invariant forall p :: m <= p < flag.Length ==> flag[p] == old(flag[p])
        invariant forall p :: 0 <= p < m ==> (flag[p] <==> CanBeUsed(pr.conjuncts[p].depend, depend))
      {
        ColumnsStep(pr, order, k, m);
        CoveredGrows(pr, order, k, m);
        ghost var sels := colStat[..pr.cols[t]];
        if !flag[m] && CanBeUsed(pr.conjuncts[m].depend, depend) {
          flag[m] := true;
          var info := pr.info[t][m];
          if info.sel != 0.0 {
            if colStat[info.col] > info.sel {
              colStat[info.col] := info.sel;
              if info.indexed && colStat[info.col] < best {
                best := colStat[info.col];
              }
              assert colStat[..pr.cols[t]] == sels[info.col := info.sel];
            }
          }
        }
        m := m + 1;
      }
    }

    /** Multiplies the selectivities of the columns. */
    method ColumnProduct(n: nat) returns (sel: real)
      requires n <= colStat.Length
      ensures sel == Product(colStat[..n])
    {
      var i := 0;
      sel := 1.0;
      while i < n
        invariant 0 <= i <= n && sel == Product(colStat[..i])
      {
        assert colStat[..i + 1][..i] == colStat[..i];
        sel := sel * colStat[i];
        i := i + 1;
      }
    }

    /** The conjuncts that are no simple predicates, at position `k` of the order. */
    method OtherConjuncts(order: seq<int>, k: nat, depend: set<int>, sel0: real) returns (sel: real)
      requires Shape() && Orders(pr, order) && k < |order| && depend == Covered(pr, order, k + 1)
      requires sel0 == Selectivity(pr, order, k, pr.sps)
      requires forall p :: 0 <= p < pr.sps ==> (flag[p] <==> CanBeUsed(pr.conjuncts[p].depend, depend))
      requires forall p :: pr.sps <= p < flag.Length
                 ==> (flag[p] <==> k > 0 && CanBeUsed(pr.conjuncts[p].depend, Covered(pr, order, k)))
      modifies flag
      ensures sel == Selectivity(pr, order, k, |pr.conjuncts|) && Marked(order, k + 1)
    {
      hide Covered, CanBeUsed, Product;
      var m := pr.sps;
      sel := sel0;
      while m < flag.Length
        invariant pr.sps <= m <= flag.Length && sel == Selectivity(pr, order, k, m)
        invariant forall p :: m <= p < flag.Length ==> flag[p] == old(flag[p])
        invariant forall p :: 0 <= p < m ==> (flag[p] <==> CanBeUsed(pr.conjuncts[p].depend, depend))
      {
        CoveredGrows(pr, order, k, m);
        if !flag[m] && CanBeUsed(pr.conjuncts[m].depend, depend) {
          flag[m] := true;
          sel := sel * pr.defaultSel;
        }
        m := m + 1;
      }
    }

    /** The table at position `k`: the rows read from it and the rows that come out of it. */
    method Table(order: seq<int>, k: nat, depend: set<int>, rowNum: real) returns (rows: real)
      requires Shape() && Orders(pr, order) && k < |order| && Marked(order, k) && depend == Covered(pr, order, k + 1)
      requires rowNum == RowsOut(pr, order, k)
      modifies flag, colStat, scanned
      ensures Marked(order, k + 1) && rows == RowsOut(pr, order, k + 1)
      ensures scanned[k] == Scanned(pr, order, k)
              && forall i :: 0 <= i < scanned.Length && i != k ==> scanned[i] == old(scanned[i])
    {
      hide Covered, CanBeUsed, Product, Columns, Selectivity, RowsOut;
      var t := order[k];
      var best := SimplePredicates(order, k, depend);
      var sel := ColumnProduct(pr.cols[t]);
      SelectivityStart(pr, order, k);
      sel := OtherConjuncts(order, k, depend, sel);
      scanned[k] := pr.rows[t] * best * rowNum;
      RowsOutStep(pr, order, k);
      rows := rowNum * (pr.rows[t] * sel);
    }

    /** Adds the cost of the subqueries; each is evaluated once for every row of the table that completes
        its tables. */
    method Subqueries(order: seq<int>, cost: real) returns (all: real)
      requires Shape() && Orders(pr, order) && allBits.Length == |order|
      requires forall k :: 0 <= k < |order|
                 ==> allBits[k] == Covered(pr, order, k + 1) && scanned[k] == Scanned(pr, order, k)
      requires pr.ext + pr.All(|pr.bits|) <= Covered(pr, order, |order|)
      ensures all == cost + SubqueryCost(pr, order, |pr.conjuncts|)
    {
      hide Covered, Scanned, CanBeUsed;
      var m := 0;
      all := cost;
      while m < |pr.conjuncts|
        invariant 0 <= m <= |pr.conjuncts| && all == cost + SubqueryCost(pr, order, m)
      {
        NeededInTheEnd(pr, order, m);
        LastNeededBound(pr, order, m, 0);
        var k := 0;
        while !CanBeUsed(pr.conjuncts[m].sqDeps, allBits[k])
          invariant 0 <= k < |order| && LastNeeded(pr, order, m, 0) == LastNeeded(pr, order, m, k)
          decreases |order| - k
        {
          assert k + 1 < |order|;
          k := k + 1;
        }
        all := all + pr.conjuncts[m].sqCost * scanned[k];
        m := m + 1;
      }
    }

    /** Estimates the cost of an order. Since every mark is taken back, it depends on nothing else. */
    method EstCostOrder(order: seq<int>) returns (cost: real)
      requires Valid() && Orders(pr, order) && Permutation(order, |pr.bits|)
      modifies flag, colStat, scanned, allBits
      ensures Valid() && cost == Cost(pr, order)
    {
      hide Covered, CanBeUsed, Scanned, Columns, Selectivity, RowsOut, ScanCost, SubqueryCost, NewAt, Marked;
      var depend, k, rowNum := pr.ext, 0, 1.0;
      cost := 0.0;
      Nothing(pr, order);
      assert Marked(order, 0) by { MarkedNone(order); }
      while k < |order|
        invariant 0 <= k <= |order| && depend == Covered(pr, order, k) && Marked(order, k)
        invariant rowNum == RowsOut(pr, order, k) && cost == ScanCost(pr, order, k)
        invariant forall i :: 0 <= i < k
                    ==> allBits[i] == Covered(pr, order, i + 1) && scanned[i] == Scanned(pr, order, i)
      {
        CoveredStep(pr, order, k);
        depend := depend + {pr.bits[order[k]]};
        allBits[k] := depend;
        var rows := Table(order, k, depend, rowNum);
        CostStep(pr, order, k);
        cost := cost + (scanned[k] + pr.openCost * rowNum);
        rowNum := rows;
        k := k + 1;
      }
      var p := 0;
      while p < flag.Length
        modifies flag
        invariant 0 <= p <= flag.Length && forall i :: 0 <= i < p ==> !flag[i]
      {
        flag[p] := false;
        p := p + 1;
      }
      AllCovered(pr, order);
      cost := Subqueries(order, cost);
    }

    lemma MarkedNone(order: seq<int>)
      requires Valid() && Orders(pr, order)
      ensures Marked(order, 0)
    {}
  }

  lemma Nothing(pr: Problem, order: seq<int>)
    requires Orders(pr, order)
    ensures Covered(pr, order, 0) == pr.ext && RowsOut(pr, order, 0) == 1.0 && ScanCost(pr, order, 0) == 0.0
  {}

  lemma CoveredStep(pr: Problem, order: seq<int>, k: nat)
    requires Orders(pr, order) && k < |order|
    ensures Covered(pr, order, k + 1) == Covered(pr, order, k) + {pr.bits[order[k]]}
  {}

  lemma CostStep(pr: Problem, order: seq<int>, k: nat)
    requires Orders(pr, order) && k < |order|
    ensures ScanCost(pr, order, k + 1)
            == ScanCost(pr, order, k) + (Scanned(pr, order, k) + pr.openCost * RowsOut(pr, order, k))
  {
    hide Scanned, RowsOut;
  }

  lemma SelectivityStart(pr: Problem, order: seq<int>, k: nat)
    requires Orders(pr, order) && k < |order|
    ensures Selectivity(pr, order, k, pr.sps) == Product(Columns(pr, order, k, pr.sps).0)
  {
    hide Columns, Product;
  }

  lemma RowsOutStep(pr: Problem, order: seq<int>, k: nat)
    requires Orders(pr, order) && k < |order|
    ensures RowsOut(pr, order, k + 1)
            == RowsOut(pr, order, k) * (pr.rows[order[k]] * Selectivity(pr, order, k, |pr.conjuncts|))
  {
    hide Selectivity;
  }

  lemma {:induction false} InCovered(pr: Problem, order: seq<int>, k: nat)
    requires Orders(pr, order) && k <= |order|
    ensures pr.ext <= Covered(pr, order, k) && forall i :: 0 <= i < k ==> pr.bits[order[i]] in Covered(pr, order, k)
  {
    if k > 0 {
      InCovered(pr, order, k - 1);
    }
  }

  lemma AllCovered(pr: Problem, order: seq<int>)
    requires Orders(pr, order) && Permutation(order, |pr.bits|)
    ensures pr.ext + pr.All(|pr.bits|) <= Covered(pr, order, |order|)
  {
    InCovered(pr, order, |order|);
    forall t | 0 <= t < |pr.bits|
      ensures pr.bits[t] in Covered(pr, order, |order|)
    {
      var id := Identity(|pr.bits|);
      assert id[t] in multiset(id);
      assert t in multiset(order);
    }
  }

  lemma NeededInTheEnd(pr: Problem, order: seq<int>, p: nat)
    requires Orders(pr, order) && p < |pr.conjuncts| && pr.ext + pr.All(|pr.bits|) <= Covered(pr, order, |order|)
    ensures CanBeUsed(pr.conjuncts[p].sqDeps, Covered(pr, order, |order|))
  {
    hide Covered;
    assert Covered(pr, order, |order|) + pr.conjuncts[p].sqDeps == Covered(pr, order, |order|);
  }

  lemma ColumnsStart(pr: Problem, order: seq<int>, k: nat)
    requires Orders(pr, order) && k < |order|
    ensures Columns(pr, order, k, 0) == (Ones(pr.cols[order[k]]), 1.0)
  {}

  lemma ColumnsStep(pr: Problem, order: seq<int>, k: nat, m: nat)
    requires Orders(pr, order) && k < |order| && m < pr.sps
    ensures var (sels, best) := Columns(pr, order, k, m);
            var i := pr.info[order[k]][m];
            Columns(pr, order, k, m + 1) ==
            if NewAt(pr, order, m, k) && i.sel != 0.0 && sels[i.col] > i.sel then
              (sels[i.col := i.sel], if i.indexed && i.sel < best then i.sel else best)
            else (sels, best)
  {}

  /** What could be used before can be used now. */
  lemma CoveredGrows(pr: Problem, order: seq<int>, k: nat, p: nat)
    requires Orders(pr, order) && k < |order| && p < |pr.conjuncts|
    ensures CanBeUsed(pr.conjuncts[p].depend, Covered(pr, order, k))
            ==> CanBeUsed(pr.conjuncts[p].depend, Covered(pr, order, k + 1))
  {
    var d, c := pr.conjuncts[p].depend, Covered(pr, order, k);
    if CanBeUsed(d, c) {
      assert c + {pr.bits[order[k]]} + d == (c + d) + {pr.bits[order[k]]};
    }
  }

  // ---- The cost is positive ----

  /** What the statistics and constants of the estimation are. */
  ghost predicate Positive(pr: Problem)
    requires pr.Valid()
  {
    && pr.openCost > 0.0 && pr.defaultSel > 0.0
    && (forall t :: 0 <= t < |pr.rows| ==> pr.rows[t] > 0.0)
    && (forall t, p :: 0 <= t < |pr.info| && 0 <= p < pr.sps ==> pr.info[t][p].sel >= 0.0)
    && (forall p :: 0 <= p < |pr.conjuncts| ==> pr.conjuncts[p].sqCost >= 0.0)
  }

  lemma Times(x: real, y: real)
    requires x >= 0.0 && y >= 0.0
    ensures x * y >= 0.0 && (x > 0.0 && y > 0.0 ==> x * y > 0.0)
  {}

  lemma {:induction false} ColumnsPositive(pr: Problem, order: seq<int>, k: nat, m: nat)
    requires Orders(pr, order) && k < |order| && m <= pr.sps && Positive(pr)
    ensures Columns(pr, order, k, m).1 > 0.0
            && forall c :: 0 <= c < pr.cols[order[k]] ==> Columns(pr, order, k, m).0[c] > 0.0
  {
    if m > 0 {
      ColumnsPositive(pr, order, k, m - 1);
    }
  }

  lemma {:induction false} ProductPositive(s: seq<real>)
    requires forall i :: 0 <= i < |s| ==> s[i] > 0.0
    ensures Product(s) > 0.0
  {
    if s != [] {
      ProductPositive(s[..|s| - 1]);
      Times(Product(s[..|s| - 1]), s[|s| - 1]);
    }
  }

  lemma {:induction false} SelectivityPositive(pr: Problem, order: seq<int>, k: nat, m: nat)
    requires Orders(pr, order) && k < |order| && pr.sps <= m <= |pr.conjuncts| && Positive(pr)
    ensures Selectivity(pr, order, k, m) > 0.0
    decreases m
  {
    hide Columns, Product, NewAt;
    if m == pr.sps {
      ColumnsPositive(pr, order, k, pr.sps);
      ProductPositive(Columns(pr, order, k, pr.sps).0);
    } else {
      SelectivityPositive(pr, order, k, m - 1);
      Times(Selectivity(pr, order, k, m - 1), pr.defaultSel);
    }
  }

  lemma {:induction false} RowsOutPositive(pr: Problem, order: seq<int>, k: nat)
    requires Orders(pr, order) && k <= |order| && Positive(pr)
    ensures RowsOut(pr, order, k) > 0.0
  {
    hide Selectivity;
    if k > 0 {
      RowsOutPositive(pr, order, k - 1);
      SelectivityPositive(pr, order, k - 1, |pr.conjuncts|);
      var r, s := pr.rows[order[k - 1]], Selectivity(pr, order, k - 1, |pr.conjuncts|);
      Times(r, s);
      Times(RowsOut(pr, order, k - 1), r * s);
    }
  }

  lemma ScannedPositive(pr: Problem, order: seq<int>, k: nat)
    requires Orders(pr, order) && k < |order| && Positive(pr)
    ensures Scanned(pr, order, k) > 0.0
  {
    hide Columns, RowsOut;
    RowsOutPositive(pr, order, k);
    ColumnsPositive(pr, order, k, pr.sps);
    var r, c := pr.rows[order[k]], Columns(pr, order, k, pr.sps).1;
    Times(r, c);
    Times(r * c, RowsOut(pr, order, k));
  }

  lemma {:induction false} ScanCostPositive(pr: Problem, order: seq<int>, k: nat)
    requires Orders(pr, order) && k <= |order| && Positive(pr)
    ensures ScanCost(pr, order, k) >= 0.0 && (k > 0 ==> ScanCost(pr, order, k) > 0.0)
  {
    hide Scanned, RowsOut;
    if k > 0 {
      ScanCostPositive(pr, order, k - 1);
      ScannedPositive(pr, order, k - 1);
      RowsOutPositive(pr, order, k - 1);
      Times(pr.openCost, RowsOut(pr, order, k - 1));
    }
  }

  lemma {:induction false} SubqueryCostPositive(pr: Problem, order: seq<int>, m: nat)
    requires Orders(pr, order) && m <= |pr.conjuncts| && order != [] && Positive(pr)
    ensures SubqueryCost(pr, order, m) >= 0.0
  {
    hide Scanned, LastNeeded;
    if m > 0 {
      SubqueryCostPositive(pr, order, m - 1);
      LastNeededBound(pr, order, m - 1, 0);
      var k := LastNeeded(pr, order, m - 1, 0);
      ScannedPositive(pr, order, k);
      Times(pr.conjuncts[m - 1].sqCost, Scanned(pr, order, k));
    }
  }

  lemma CostPositive(pr: Problem, order: seq<int>)
    requires Orders(pr, order) && Positive(pr)
    ensures Cost(pr, order) > 0.0
  {
    hide ScanCost, SubqueryCost;
    ScanCostPositive(pr, order, |order|);
    SubqueryCostPositive(pr, order, |pr.conjuncts|);
  }

  // ---- The search ----

  function Power(n: nat, k: nat): nat { if k == 0 then 1 else n * Power(n, k - 1) }

  /** An order read as a number in base `n`. */
  function Number(p: seq<int>, n: nat): int {
    if p == [] then 0 else n * Number(p[..|p| - 1], n) + p[|p| - 1]
  }

  lemma {:induction false} NumberBound(p: seq<int>, n: nat)
    requires forall i :: 0 <= i < |p| ==> 0 <= p[i] < n
    ensures 0 <= Number(p, n) < Power(n, |p|)
    decreases |p|
  {
    if p != [] {
      var q := p[..|p| - 1];
      NumberBound(q, n);
      Digits(n, Number(q, n), Power(n, |q|), p[|p| - 1]);
    }
  }

  lemma Digits(n: nat, x: int, y: int, d: int)
    requires 0 <= x < y && 0 <= d < n
    ensures 0 <= n * x + d < n * y
  {
    assert n * (x + 1) <= n * y;
  }

  lemma {:induction false} LexNumber(p: seq<int>, q: seq<int>, n: nat)
    requires |p| == |q| && LexLess(p, q)
    requires (forall i :: 0 <= i < |p| ==> 0 <= p[i] < n) && forall i :: 0 <= i < |q| ==> 0 <= q[i] < n
    ensures Number(p, n) < Number(q, n)
    decreases |p|
  {
    var k :| DiffersAt(p, q, k) && p[k] < q[k];
    var m := |p| - 1;
    var p', q' := p[..m], q[..m];
    if k == m {
      assert p' == q';
    } else {
      assert p'[..k] == p[..k] && q'[..k] == q[..k];
      assert DiffersAt(p', q', k);
      LexNumber(p', q', n);
      Steps(n, Number(p', n), Number(q', n), p[m], q[m]);
    }
  }

  lemma Steps(n: nat, x: int, y: int, d: int, e: int)
    requires x < y && 0 <= d < n && 0 <= e
    ensures n * x + d < n * y + e
  {
    assert n * (x + 1) <= n * y;
  }

  lemma PermutationOrders(pr: Problem, p: seq<int>)
    requires pr.Valid() && Permutation(p, |pr.bits|)
    ensures Orders(pr, p) && Distinct(p)
  {
    var id := Identity(|pr.bits|);
    assert Distinct(id);
    DistinctSame(id, p);
    forall i | 0 <= i < |p|
      ensures 0 <= p[i] < |pr.bits|
    {
      assert p[i] in multiset(p);
      assert p[i] in multiset(id);
    }
  }

  method Copy(src: array<int>, dst: array<int>)
    requires src != dst && src.Length == dst.Length
    modifies dst
    ensures dst[..] == src[..] == old(src[..])
  {
    var i := 0;
    while i < src.Length
      invariant 0 <= i <= src.Length && forall k :: 0 <= k < i ==> dst[k] == src[k]
    {
      dst[i] := src[i];
      i := i + 1;
    }
  }

  /** `best` is the lexicographically first of the cheapest orders tried. */
  ghost predicate Leads(pr: Problem, tried: seq<seq<int>>, best: seq<int>, cost: real)
    requires pr.Valid()
  {
    && Orders(pr, best) && (forall p <- tried :: Orders(pr, p))
    && if tried == [] then cost < 0.0
       else
         && best in tried && cost == Cost(pr, best) && cost > 0.0
         && forall p <- tried :: cost <= Cost(pr, p) && (LexLess(p, best) ==> cost < Cost(pr, p))
  }

  lemma LeadsNone(pr: Problem, best: seq<int>)
    requires pr.Valid() && Orders(pr, best)
    ensures Leads(pr, [], best, -0.0001)
  {}

  lemma LeadsAll(pr: Problem, tried: seq<seq<int>>, best: seq<int>, cost: real, n: nat)
    requires pr.Valid() && Leads(pr, tried, best, cost) && Permutation(best, n)
    requires forall p :: p in tried <==> Permutation(p, n)
    ensures Orders(pr, best) && cost == Cost(pr, best)
    ensures forall p :: Permutation(p, n) ==> Orders(pr, p) && cost <= Cost(pr, p)
    ensures forall p :: Permutation(p, n) && LexLess(p, best) ==> Orders(pr, p) && cost < Cost(pr, p)
  {
    hide Cost, LexLess, Permutation, Orders;
    assert best in tried;
  }

  /** One more order, behind all those tried, takes the lead only if it is cheaper. */
  lemma LeadsOn(pr: Problem, tried: seq<seq<int>>, order: seq<int>, best: seq<int>, cost: real)
    requires pr.Valid() && Leads(pr, tried, best, cost) && Orders(pr, order) && Cost(pr, order) > 0.0
    requires forall p <- tried :: LexLess(p, order)
    ensures var c := Cost(pr, order);
            if c < cost || cost < 0.0 then Leads(pr, tried + [order], order, c)
            else Leads(pr, tried + [order], best, cost)
  {
    hide Cost, LexLess, Orders;
    LexIrreflexive(order);
    if tried != [] {
      LexAsymmetric(best, order);
    }
  }

  /** Tries every order once, in lexicographic order, and returns the cheapest with its cost. */
  method OptQuery(est: Estimator) returns (best: array<int>, cost: real, ghost tried: seq<seq<int>>)
    requires est.pr.Valid() && est.Valid() && Positive(est.pr)
    modifies est.flag, est.colStat, est.scanned, est.allBits
    ensures est.Valid() && fresh(best) && Permutation(best[..], |est.pr.bits|)
    ensures Orders(est.pr, best[..]) && cost == Cost(est.pr, best[..])
    ensures forall p :: Permutation(p, |est.pr.bits|) ==> Orders(est.pr, p) && cost <= Cost(est.pr, p)
    ensures forall p :: Permutation(p, |est.pr.bits|) && LexLess(p, best[..]) ==>
                          Orders(est.pr, p) && cost < Cost(est.pr, p)
    ensures forall p :: p in tried <==> Permutation(p, |est.pr.bits|)
    ensures forall i, j :: 0 <= i < j < |tried| ==> tried[i] != tried[j]
  {
    hide Cost, Permutation, Positive, Leads, LexLess, Stepped, Number, Power, Descending, Distinct, Orders,
         Estimator.Valid;
    var pr := est.pr;
    var n := |pr.bits|;
    var cur, fin := new int[n](i => i), new int[n](i => 0);
    best := new int[n](i => i);
    assert cur[..] == Identity(n) == best[..];
    IdentityFirst(n);
    PermutationOrders(pr, best[..]);
    tried := [];
    cost := -0.0001;
    LeadsNone(pr, best[..]);
    var more := true;
    while more
      invariant est.Valid() && fresh(cur) && fresh(fin) && fresh(best) && cur != fin && cur != best && fin != best
      invariant cur.Length == fin.Length == best.Length == n
      invariant Permutation(cur[..], n) && Permutation(best[..], n)
      invariant more ==> forall p :: p in tried <==> Permutation(p, n) && LexLess(p, cur[..])
      invariant !more ==> forall p :: p in tried <==> Permutation(p, n)
      invariant forall i, j :: 0 <= i < j < |tried| ==> tried[i] != tried[j]
      invariant Leads(pr, tried, best[..], cost)
      decreases if more then 1 + Power(n, n) - Number(cur[..], n) else 0
    {
      ghost var order, leader := cur[..], best[..];
      PermutationOrders(pr, order);
      var c := est.EstCostOrder(cur[..]);
      assert cur[..] == order && best[..] == leader;
      CostPositive(pr, order);
      LeadsOn(pr, tried, order, leader, cost);
      if c > 0.0 && (c < cost || cost < 0.0) {
        Copy(cur, best);
        assert best[..] == order;
        cost := c;
      }
      assert cur[..] == order && (best[..] == order || best[..] == leader);
      LexIrreflexive(order);
      tried := tried + [order];
      more := NextOrderOfTablesScan(cur, fin);
      if more {
        NextIsNext(order, cur[..], n);
        PermutationOrders(pr, cur[..]);
        LexNumber(order, cur[..], n);
        NumberBound(cur[..], n);
      } else {
        LastIsLast(order, n);
        NumberBound(order, n);
      }
    }
    LeadsAll(pr, tried, best[..], cost, n);
  }
}
