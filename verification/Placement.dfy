/** Where the conjuncts of WHERE go once the order of the tables is chosen. */
module Placement {
  import opened Concatenation
  import opened TableMasks
  import opened TableOrder
  import opened Optimizer

  // ---- Simple predicates first ----

  method Swap<T>(a: array<T>, i: nat, j: nat)
    requires i < j < a.Length
    modifies a
    ensures a[i] == old(a[j]) && a[j] == old(a[i])
    ensures forall h :: 0 <= h < a.Length && h != i && h != j ==> a[h] == old(a[h])
    ensures multiset(a[..]) == multiset(old(a[..]))
  {
    a[i], a[j] := a[j], a[i];
  }

  ghost predicate Sorted<T>(s: seq<T>, simple: T -> bool, i: nat, j: nat) {
    (forall h :: 0 <= h < i && h < |s| ==> simple(s[h])) && (forall h :: j < h < |s| ==> !simple(s[h]))
  }

  /** Moves the elements that are simple to the front, in place; `k` is their number. */
  method SimpleFirst<T>(a: array<T>, simple: T -> bool) returns (k: nat)
    requires a.Length > 0
    modifies a
    ensures multiset(a[..]) == multiset(old(a[..])) && k <= a.Length
    ensures forall i :: 0 <= i < a.Length ==> (simple(a[i]) <==> i < k)
  {
    var i, j := 0, a.Length - 1;
    while i < j
      invariant 0 <= i <= j < a.Length && multiset(a[..]) == multiset(old(a[..])) && Sorted(a[..], simple, i, j)
      decreases j - i, if simple(a[i]) then 0 else 1
    {
      while simple(a[i]) && i < j
        modifies {}
        invariant 0 <= i <= j && Sorted(a[..], simple, i, j)
      {
        i := i + 1;
      }
      while !simple(a[j]) && i < j
        modifies {}
        invariant i <= j < a.Length && Sorted(a[..], simple, i, j)
      {
        j := j - 1;
      }
      if i < j {
        Swap(a, i, j);
      }
    }
    k := if simple(a[i]) then i + 1 else i;
  }

  // ---- The lists of conjuncts ----

  /** Taking the list `c` out. */
  lemma {:induction false} ConcatClear(lists: seq<seq<int>>, c: nat)
    requires c < |lists|
    ensures multiset(Concat(lists)) == multiset(Concat(lists[c := []])) + multiset(lists[c])
  {
    var k := |lists| - 1;
    if c == k {
      assert lists[c := []][..k] == lists[..k];
    } else {
      assert lists[c := []][..k] == lists[..k][c := []];
      ConcatClear(lists[..k], c);
      assert multiset(Concat(lists)) == multiset(Concat(lists[..k])) + multiset(lists[k]);
      assert multiset(Concat(lists[c := []])) == multiset(Concat(lists[..k][c := []])) + multiset(lists[k]);
    }
  }

  lemma ConcatPut(lists: seq<seq<int>>, c: nat, l: seq<int>)
    requires c < |lists| && lists[c] == []
    ensures multiset(Concat(lists[c := l])) == multiset(Concat(lists)) + multiset(l)
  {
    ConcatClear(lists[c := l], c);
    assert lists[c := l][c := []] == lists;
  }

  lemma ConcatPush(lists: seq<seq<int>>, c: nat, p: int)
    requires c < |lists|
    ensures multiset(Concat(lists[c := [p] + lists[c]])) == multiset(Concat(lists)) + multiset{p}
  {
    var l := [p] + lists[c];
    ConcatClear(lists, c);
    ConcatClear(lists[c := l], c);
    assert lists[c := l][c := []] == lists[c := []];
    assert multiset(l) == multiset{p} + multiset(lists[c]);
  }

  lemma {:induction false} ConcatEmpty(lists: seq<seq<int>>)
    requires forall c :: 0 <= c < |lists| ==> lists[c] == []
    ensures Concat(lists) == []
  {
    if lists != [] {
      ConcatEmpty(lists[..|lists| - 1]);
    }
  }

  /** Every conjunct of a list is a simple predicate of the table at position `k`, on the column `c`, and
      refers only to tables up to this one. */
  ghost predicate Placed(pr: Problem, order: seq<int>, k: nat, c: nat, l: seq<int>)
    requires Orders(pr, order) && k < |order|
  {
    forall p :: p in l ==>
      && 0 <= p < pr.sps && pr.info[order[k]][p].sel != 0.0 && pr.info[order[k]][p].col == c
      && CanBeUsed(pr.conjuncts[p].depend, Covered(pr, order, k + 1))
  }

  /** The conjunct is a simple predicate of the table at position `k` and refers only to tables up to it. */
  ghost predicate Placeable(pr: Problem, order: seq<int>, k: nat, p: nat)
    requires Orders(pr, order) && k < |order|
  {
    && p < pr.sps && pr.info[order[k]][p].sel != 0.0
    && Covers(pr, order, k + 1, pr.conjuncts[p].depend)
  }

  lemma PlaceableIs(pr: Problem, order: seq<int>, k: nat, p: nat)
    requires Orders(pr, order) && k < |order|
    ensures Placeable(pr, order, k, p) <==>
              p < pr.sps && pr.info[order[k]][p].sel != 0.0
              && CanBeUsed(pr.conjuncts[p].depend, Covered(pr, order, k + 1))
  {
    hide Covered, CanBeUsed, Covers;
    if p < pr.sps {
      CoversIs(pr, order, k + 1, pr.conjuncts[p].depend);
    }
  }

  lemma Pushed(s: seq<int>, t: seq<int>, p: int)
    requires multiset(t) == multiset(s) + multiset{p}
    ensures forall q :: q in t <==> q in s || q == p
  {
    forall q
      ensures q in t <==> q in s || q == p
    {
      assert q in multiset(t) <==> q in multiset(s) || q == p;
    }
  }

  /** The conjuncts that are not marked. */
  function Unmarked(flag: seq<bool>): seq<int> {
    if flag == [] then []
    else Unmarked(flag[..|flag| - 1]) + if flag[|flag| - 1] then [] else [|flag| - 1]
  }

  lemma {:induction false} UnmarkedUpdate(flag: seq<bool>, p: nat)
    requires p < |flag| && !flag[p]
    ensures multiset(Unmarked(flag)) == multiset(Unmarked(flag[p := true])) + multiset{p}
  {
    var k := |flag| - 1;
    if p == k {
      assert flag[p := true][..k] == flag[..k];
    } else {
      assert flag[p := true][..k] == flag[..k][p := true];
      UnmarkedUpdate(flag[..k], p);
    }
  }

  lemma {:induction false} UnmarkedAll(flag: seq<bool>)
    requires forall p :: 0 <= p < |flag| ==> !flag[p]
    ensures Unmarked(flag) == Identity(|flag|)
  {
    if flag != [] {
      UnmarkedAll(flag[..|flag| - 1]);
      assert Identity(|flag|) == Identity(|flag| - 1) + [|flag| - 1];
    }
  }

  // ---- Placing them ----

  /** Places the simple predicates of the table at position `k`, each in the list of its column. */
  method PlaceAtTable(pr: Problem, order: seq<int>, k: nat, depend: set<int>, flag: array<bool>)
    returns (tab: array<seq<int>>)
    requires Orders(pr, order) && k < |order| && depend == Covered(pr, order, k + 1) && flag.Length == |pr.conjuncts|
    modifies flag
    ensures fresh(tab) && tab.Length == pr.cols[order[k]]
    ensures forall c :: 0 <= c < tab.Length ==> Placed(pr, order, k, c, tab[c])
    ensures multiset(Unmarked(old(flag[..]))) == multiset(Unmarked(flag[..])) + multiset(Concat(tab[..]))
    ensures forall p :: 0 <= p < flag.Length ==> (flag[p] <==> old(flag[p]) || p in Concat(tab[..]))
    ensures forall p :: 0 <= p < pr.sps && Placeable(pr, order, k, p) ==> flag[p]
  {
    hide CanBeUsed, Covered, Unmarked, Concat, Placeable;
    var t := order[k];
    tab := new seq<int>[pr.cols[t]](_ => []);
    ConcatEmpty(tab[..]);
    var p := 0;
    while p < pr.sps
      invariant 0 <= p <= pr.sps
      invariant forall c :: 0 <= c < tab.Length ==> Placed(pr, order, k, c, tab[c])
      invariant multiset(Unmarked(old(flag[..]))) == multiset(Unmarked(flag[..])) + multiset(Concat(tab[..]))
      invariant forall q :: 0 <= q < flag.Length ==> (flag[q] <==> old(flag[q]) || q in Concat(tab[..]))
      invariant forall q :: 0 <= q < p && Placeable(pr, order, k, q) ==> flag[q]
    {
      var info := pr.info[t][p];
      PlaceableIs(pr, order, k, p);
      if !flag[p] && CanBeUsed(pr.conjuncts[p].depend, depend) && info.sel != 0.0 {
        ghost var f, l := flag[..], tab[..];
        UnmarkedUpdate(f, p);
        flag[p] := true;
        assert flag[..] == f[p := true];
        ConcatPush(l, info.col, p);
        Pushed(Concat(l), Concat(l[info.col := [p] + l[info.col]]), p);
        tab[info.col] := [p] + tab[info.col];
        assert tab[..] == l[info.col := [p] + l[info.col]];
      }
      p := p + 1;
    }
  }

  /** Moves the lists of the first columns of an index to the index; how many is decided by statistics. */
  method MoveToIndex(pr: Problem, order: seq<int>, k: nat, tab: array<seq<int>>, index: seq<nat>)
    returns (ind: array<seq<int>>)
    requires Orders(pr, order) && k < |order| && tab.Length == pr.cols[order[k]]
    requires forall j :: 0 <= j < |index| ==> index[j] < tab.Length
    requires forall c :: 0 <= c < tab.Length ==> Placed(pr, order, k, c, tab[c])
    modifies tab
    ensures fresh(ind) && ind.Length == |index|
            && forall j :: 0 <= j < ind.Length ==> Placed(pr, order, k, index[j], ind[j])
    ensures forall c :: 0 <= c < tab.Length ==> Placed(pr, order, k, c, tab[c])
    ensures multiset(Concat(tab[..])) + multiset(Concat(ind[..])) == multiset(Concat(old(tab[..])))
  {
    hide CanBeUsed, Covered, Concat;
    ind := new seq<int>[|index|](_ => []);
    ConcatEmpty(ind[..]);
    var j, more := 0, true;
    while more && j < |index|
      invariant 0 <= j <= |index| && forall i :: j <= i < |index| ==> ind[i] == []
      invariant forall i :: 0 <= i < ind.Length ==> Placed(pr, order, k, index[i], ind[i])
      invariant forall c :: 0 <= c < tab.Length ==> Placed(pr, order, k, c, tab[c])
      invariant multiset(Concat(tab[..])) + multiset(Concat(ind[..])) == multiset(Concat(old(tab[..])))
      decreases |index| - j, more
    {
      var c := index[j];
      if tab[c] != [] {
        ghost var l, m := tab[..], ind[..];
        ConcatPut(m, j, l[c]);
        ConcatClear(l, c);
        ind[j] := tab[c];
        tab[c] := [];
        assert ind[..] == m[j := l[c]] && tab[..] == l[c := []];
        more := *;
        j := j + 1;
      } else {
        more := false;
      }
    }
  }

  /** The lists of all tables in scan order, those of the chosen indexes, and what stays in WHERE. */
  datatype Places = Places(tab: seq<seq<seq<int>>>, ind: seq<seq<seq<int>>>, rest: seq<int>)

  /** All conjuncts in the lists of all tables. */
  function All(lists: seq<seq<seq<int>>>): seq<int> { Concat(Concat(lists)) }

  lemma AllNone()
    ensures All([]) == []
  {
    assert Concat<seq<int>>([]) == [];
  }

  lemma AllSnoc(lists: seq<seq<seq<int>>>, l: seq<seq<int>>)
    ensures All(lists + [l]) == All(lists) + Concat(l)
  {
    hide Concat;
    ConcatSnoc(lists, l);
    ConcatAppend(Concat(lists), l);
  }

  method UnmarkedList(flag: array<bool>) returns (rest: seq<int>)
    ensures rest == Unmarked(flag[..])
  {
    rest := [];
    var p := 0;
    while p < flag.Length
      invariant 0 <= p <= flag.Length && rest == Unmarked(flag[..p])
    {
      assert flag[..p + 1][..p] == flag[..p];
      if !flag[p] {
        rest := rest + [p];
      }
      p := p + 1;
    }
    assert flag[..p] == flag[..];
  }

  /** The lists of the table at position `k` and those of its index hold simple predicates of the table, in
      the list of their column. */
  ghost predicate PlacedAt(pr: Problem, order: seq<int>, k: nat, index: seq<nat>, tab: seq<seq<int>>,
                           ind: seq<seq<int>>)
    requires Orders(pr, order) && k < |order|
  {
    && |tab| == pr.cols[order[k]] && |ind| == |index|
    && (forall c :: 0 <= c < |tab| ==> Placed(pr, order, k, c, tab[c]))
    && (forall j :: 0 <= j < |ind| ==> index[j] < |tab| && Placed(pr, order, k, index[j], ind[j]))
  }

  lemma PlacedHere(pr: Problem, order: seq<int>, k: nat, index: seq<nat>, tab: seq<seq<int>>, ind: seq<seq<int>>)
    requires Orders(pr, order) && k < |order| && |tab| == pr.cols[order[k]] && |ind| == |index|
    requires (forall c :: 0 <= c < |tab| ==> Placed(pr, order, k, c, tab[c]))
             && forall j :: 0 <= j < |ind| ==> index[j] < |tab|
    requires forall j :: 0 <= j < |ind| ==> Placed(pr, order, k, index[j], ind[j])
    ensures PlacedAt(pr, order, k, index, tab, ind)
  {
    hide Placed, Orders;
  }

  /** Every conjunct is at one place: in a list of a table, in one of an index, or still in WHERE. */
  ghost predicate Distributed(pr: Problem, order: seq<int>, indexes: seq<seq<nat>>, r: Places)
    requires Orders(pr, order)
  {
    && |r.tab| == |r.ind| == |indexes| == |order|
    && (forall k :: 0 <= k < |order| ==> PlacedAt(pr, order, k, indexes[k], r.tab[k], r.ind[k]))
    && multiset(All(r.tab)) + multiset(All(r.ind)) + multiset(r.rest) == multiset(Identity(|pr.conjuncts|))
    && PlacedFirst(pr, order, r.tab, r.ind)
    && forall k, p: nat :: 0 <= k < |order| && Placeable(pr, order, k, p) ==> p !in r.rest
  }

  /** The conjunct is in a list of the table at position `i` or of its index. */
  ghost predicate ListedAt(tabs: seq<seq<seq<int>>>, inds: seq<seq<seq<int>>>, i: int, p: int)
    requires 0 <= i < |tabs| == |inds|
  {
    p in Concat(tabs[i]) || p in Concat(inds[i])
  }

  /** What can be placed at a table is there or at an earlier one. */
  ghost predicate PlacedFirst(pr: Problem, order: seq<int>, tabs: seq<seq<seq<int>>>, inds: seq<seq<seq<int>>>)
    requires Orders(pr, order) && |tabs| == |inds| <= |order|
  {
    forall k, p: nat :: 0 <= k < |tabs| && Placeable(pr, order, k, p)
      ==> exists i :: 0 <= i <= k && ListedAt(tabs, inds, i, p)
  }

  /** The marked conjuncts are those in the lists so far. */
  ghost predicate MarkedListed(flag: seq<bool>, tabs: seq<seq<seq<int>>>, inds: seq<seq<seq<int>>>)
    requires |tabs| == |inds|
  {
    forall p :: 0 <= p < |flag| && flag[p] ==> exists i :: 0 <= i < |tabs| && ListedAt(tabs, inds, i, p)
  }

  /** The conjuncts newly marked are those in the lists of the table at position `k` and its index, and nothing
      is left unmarked that can be placed there. */
  ghost predicate PlacedNow(pr: Problem, order: seq<int>, k: nat, f: seq<bool>, g: seq<bool>, tab: seq<seq<int>>,
                            ind: seq<seq<int>>)
    requires Orders(pr, order) && k < |order|
  {
    && |f| == |g| == |pr.conjuncts|
    && multiset(Unmarked(f)) == multiset(Unmarked(g)) + multiset(Concat(tab)) + multiset(Concat(ind))
    && (forall p :: 0 <= p < |g| ==> (g[p] <==> f[p] || p in Concat(tab) || p in Concat(ind)))
    && forall p :: 0 <= p < pr.sps && Placeable(pr, order, k, p) ==> g[p]
  }

  lemma Moved(placed: seq<int>, s: seq<int>, t: seq<int>)
    requires multiset(s) + multiset(t) == multiset(placed)
    ensures forall p :: p in placed <==> p in s || p in t
  {
    forall p
      ensures p in placed <==> p in s || p in t
    {
      assert p in multiset(placed) <==> p in multiset(s) || p in multiset(t);
    }
  }

  /** Places the simple predicates of one table and gives its index what it takes. */
  method PlaceTable(pr: Problem, order: seq<int>, k: nat, depend: set<int>, flag: array<bool>, index: seq<nat>)
    returns (tab: seq<seq<int>>, ind: seq<seq<int>>)
    requires Orders(pr, order) && k < |order| && depend == Covered(pr, order, k + 1) && flag.Length == |pr.conjuncts|
    requires forall j :: 0 <= j < |index| ==> index[j] < pr.cols[order[k]]
    modifies flag
    ensures PlacedAt(pr, order, k, index, tab, ind)
    ensures PlacedNow(pr, order, k, old(flag[..]), flag[..], tab, ind)
  {
    hide CanBeUsed, Covered, Concat, Unmarked, Placed, PlacedAt, Placeable;
    var t := PlaceAtTable(pr, order, k, depend, flag);
    ghost var placed := Concat(t[..]);
    var i := MoveToIndex(pr, order, k, t, index);
    PlacedHere(pr, order, k, index, t[..], i[..]);
    Moved(placed, Concat(t[..]), Concat(i[..]));
    tab, ind := t[..], i[..];
  }

  /** One table more. */
  lemma ListedStep(pr: Problem, order: seq<int>, f: seq<bool>, g: seq<bool>, tabs: seq<seq<seq<int>>>,
                   inds: seq<seq<seq<int>>>, tab: seq<seq<int>>, ind: seq<seq<int>>)
    requires Orders(pr, order) && |tabs| == |inds| < |order| && PlacedNow(pr, order, |tabs|, f, g, tab, ind)
    requires PlacedFirst(pr, order, tabs, inds) && MarkedListed(f, tabs, inds)
    ensures PlacedFirst(pr, order, tabs + [tab], inds + [ind]) && MarkedListed(g, tabs + [tab], inds + [ind])
    ensures multiset(All(tabs + [tab])) + multiset(All(inds + [ind])) + multiset(Unmarked(g))
            == multiset(All(tabs)) + multiset(All(inds)) + multiset(Unmarked(f))
  {
    hide Placeable, Concat, All, Unmarked;
    AllSnoc(tabs, tab);
    AllSnoc(inds, ind);
    var k, ts, us := |tabs|, tabs + [tab], inds + [ind];
    assert forall i, p :: 0 <= i < k && ListedAt(tabs, inds, i, p) ==> ListedAt(ts, us, i, p);
    forall p | 0 <= p < |g| && g[p]
      ensures exists i :: 0 <= i <= k && ListedAt(ts, us, i, p)
    {
      if !f[p] {
        assert ListedAt(ts, us, k, p);
      }
    }
    forall j, p: nat | 0 <= j <= k && Placeable(pr, order, j, p)
      ensures exists i :: 0 <= i <= j && ListedAt(ts, us, i, p)
    {
      if j < k {
        var i :| 0 <= i <= j && ListedAt(tabs, inds, i, p);
        assert ListedAt(ts, us, i, p);
      } else {
        PlaceableSimple(pr, order, j, p);
      }
    }
  }

  lemma PlaceableSimple(pr: Problem, order: seq<int>, k: nat, p: nat)
    requires Orders(pr, order) && k < |order| && Placeable(pr, order, k, p)
    ensures p < pr.sps <= |pr.conjuncts|
  {}

  lemma {:induction false} UnmarkedIn(flag: seq<bool>, p: int)
    ensures p in Unmarked(flag) <==> 0 <= p < |flag| && !flag[p]
  {
    if flag != [] {
      UnmarkedIn(flag[..|flag| - 1], p);
    }
  }

  /** Places all conjuncts for the chosen order; `indexes` has the columns of the index chosen for each
      table, none if no index is used. */
  method PlaceConjuncts(pr: Problem, order: seq<int>, indexes: seq<seq<nat>>) returns (r: Places)
    requires Orders(pr, order) && |indexes| == |order|
    requires forall k, j :: 0 <= k < |order| && 0 <= j < |indexes[k]| ==> indexes[k][j] < pr.cols[order[k]]
    ensures Distributed(pr, order, indexes, r)
  {
    hide CanBeUsed, Covered, Concat, All, Unmarked, Placed, PlacedAt, Placeable, PlacedFirst, MarkedListed, PlacedNow;
    var n := |pr.conjuncts|;
    var flag := new bool[n](_ => false);
    var depend, k := pr.ext, 0;
    var tabs: seq<seq<seq<int>>>, inds: seq<seq<seq<int>>> := [], [];
    UnmarkedAll(flag[..]);
    AllNone();
    Nothing(pr, order);
    NoneListed(pr, order, flag[..]);
    while k < |order|
      invariant 0 <= k <= |order| && |tabs| == |inds| == k && depend == Covered(pr, order, k)
      invariant multiset(All(tabs)) + multiset(All(inds)) + multiset(Unmarked(flag[..])) == multiset(Identity(n))
      invariant forall i :: 0 <= i < k ==> PlacedAt(pr, order, i, indexes[i], tabs[i], inds[i])
      invariant PlacedFirst(pr, order, tabs, inds) && MarkedListed(flag[..], tabs, inds)
      invariant forall i, p :: 0 <= i < k && 0 <= p < pr.sps && Placeable(pr, order, i, p) ==> flag[p]
    {
      ghost var f := flag[..];
      CoveredStep(pr, order, k);
      depend := depend + {pr.bits[order[k]]};
      var tab, ind := PlaceTable(pr, order, k, depend, flag, indexes[k]);
      ListedStep(pr, order, f, flag[..], tabs, inds, tab, ind);
      tabs, inds := tabs + [tab], inds + [ind];
      MarkedStay(pr, order, k, f, flag[..], tab, ind);
      k := k + 1;
    }
    var rest := UnmarkedList(flag);
    forall i, p: nat | 0 <= i < |order| && Placeable(pr, order, i, p)
      ensures p !in rest
    {
      PlaceableSimple(pr, order, i, p);
      UnmarkedIn(flag[..], p);
    }
    r := Places(tabs, inds, rest);
  }

  lemma NoneListed(pr: Problem, order: seq<int>, flag: seq<bool>)
    requires Orders(pr, order) && forall p :: 0 <= p < |flag| ==> !flag[p]
    ensures PlacedFirst(pr, order, [], []) && MarkedListed(flag, [], [])
  {}

  lemma MarkedStay(pr: Problem, order: seq<int>, k: nat, f: seq<bool>, g: seq<bool>, tab: seq<seq<int>>,
                   ind: seq<seq<int>>)
    requires Orders(pr, order) && k < |order| && PlacedNow(pr, order, k, f, g, tab, ind)
    ensures |f| == |g| && (forall p :: 0 <= p < |g| && f[p] ==> g[p])
    ensures forall p :: 0 <= p < pr.sps && Placeable(pr, order, k, p) ==> g[p]
  {}
}
