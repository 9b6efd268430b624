/** The orders in which the tables of a join can be scanned, one after the other. */
module TableOrder {
  import opened Counting

  // ---- Orders ----

  ghost predicate Permutation(p: seq<int>, n: nat) {
    |p| == n && multiset(p) == multiset(Identity(n))
  }

  function Identity(n: nat): (s: seq<int>)
    ensures |s| == n && forall i :: 0 <= i < n ==> s[i] == i
  {
    seq(n, i => i)
  }

  /** Lexicographic order. */
  ghost predicate LexLess(p: seq<int>, q: seq<int>) {
    exists k :: DiffersAt(p, q, k) && p[k] < q[k]
  }

  ghost predicate DiffersAt(p: seq<int>, q: seq<int>, k: int) {
    0 <= k < |p| && k < |q| && p[..k] == q[..k] && p[k] != q[k]
  }

  lemma {:induction false} FirstDifference(p: seq<int>, q: seq<int>) returns (k: nat)
    requires |p| == |q| && p != q
    ensures DiffersAt(p, q, k)
    decreases |p|
  {
    if p[0] != q[0] {
      k := 0;
    } else {
      assert p == [p[0]] + p[1..] && q == [q[0]] + q[1..];
      k := FirstDifference(p[1..], q[1..]);
      assert p[..k + 1] == [p[0]] + p[1..][..k];
      assert q[..k + 1] == [q[0]] + q[1..][..k];
      k := k + 1;
    }
  }

  lemma LexIrreflexive(p: seq<int>)
    ensures !LexLess(p, p)
  {}

  lemma LexTransitive(p: seq<int>, q: seq<int>, r: seq<int>)
    requires LexLess(p, q) && LexLess(q, r)
    ensures LexLess(p, r)
  {
    var k :| DiffersAt(p, q, k) && p[k] < q[k];
    var l :| DiffersAt(q, r, l) && q[l] < r[l];
    var m := if k < l then k else l;
    assert p[..m] == p[..k][..m] && q[..m] == q[..k][..m] && q[..m] == q[..l][..m] && r[..m] == r[..l][..m];
    if k < l {
      assert r[k] == r[..l][k] == q[..l][k] == q[k];
    } else if l < k {
      assert p[l] == p[..k][l] == q[..k][l] == q[l];
    }
    assert DiffersAt(p, r, m) && p[m] < r[m];
  }

  lemma LexAsymmetric(p: seq<int>, q: seq<int>)
    requires LexLess(p, q)
    ensures !LexLess(q, p)
  {
    if LexLess(q, p) {
      LexTransitive(p, q, p);
    }
  }

  lemma LexTotal(p: seq<int>, q: seq<int>)
    requires |p| == |q|
    ensures p == q || LexLess(p, q) || LexLess(q, p)
  {
    if p != q {
      var k := FirstDifference(p, q);
      assert DiffersAt(q, p, k);
    }
  }

  ghost predicate Ascending(p: seq<int>, from: nat) { forall i, j :: from <= i < j < |p| ==> p[i] <= p[j] }
  ghost predicate Descending(p: seq<int>, from: nat) { forall i, j :: from <= i < j < |p| ==> p[i] >= p[j] }

  /** Behind a common beginning there are the same numbers. */
  lemma SameTails(p: seq<int>, q: seq<int>, k: nat)
    requires |p| == |q| && multiset(p) == multiset(q) && k <= |p| && p[..k] == q[..k]
    ensures multiset(p[k..]) == multiset(q[k..])
  {
    assert p == p[..k] + p[k..] && q == q[..k] + q[k..];
    assert multiset(p[k..]) == multiset(p) - multiset(p[..k]);
    assert multiset(q[k..]) == multiset(q) - multiset(q[..k]);
  }

  lemma InTail(p: seq<int>, q: seq<int>, k: nat) returns (j: nat)
    requires |p| == |q| && multiset(p) == multiset(q) && k < |p| && p[..k] == q[..k]
    ensures k <= j < |q| && q[j] == p[k]
  {
    SameTails(p, q, k);
    assert p[k] == p[k..][0];
    assert p[k] in multiset(p[k..]);
    assert p[k] in q[k..];
    var i :| 0 <= i < |q[k..]| && q[k..][i] == p[k];
    j := k + i;
  }

  /** Of all arrangements of the same numbers the ascending one is the least. */
  lemma AscendingLeast(p: seq<int>, q: seq<int>)
    requires |p| == |q| && multiset(p) == multiset(q) && Ascending(p, 0)
    ensures !LexLess(q, p)
  {
    if LexLess(q, p) {
      var k :| DiffersAt(q, p, k) && q[k] < p[k];
      var j := InTail(q, p, k);
    }
  }

  lemma DescendingGreatest(p: seq<int>, q: seq<int>)
    requires |p| == |q| && multiset(p) == multiset(q) && Descending(p, 0)
    ensures !LexLess(p, q)
  {
    if LexLess(p, q) {
      var k :| DiffersAt(p, q, k) && p[k] < q[k];
      assert DiffersAt(q, p, k);
      var j := InTail(q, p, k);
    }
  }

  // ---- The next order ----

  ghost predicate Distinct(p: seq<int>) { forall i, j :: 0 <= i < j < |p| ==> p[i] != p[j] }

  /** `q` differs from `p` from position `b` on, where it has the least larger number of the descending
      rest, followed by the others in ascending order. */
  ghost predicate Stepped(p: seq<int>, q: seq<int>, b: nat) {
    && |p| == |q| && multiset(p) == multiset(q) && b < |p|
    && p[..b] == q[..b] && p[b] < q[b]
    && Descending(p, b + 1) && Ascending(q, b + 1)
    && forall j :: b < j < |p| && p[j] > p[b] ==> q[b] <= p[j]
  }

  /** Then there is no order between the two. */
  lemma NothingBetween(p: seq<int>, q: seq<int>, b: nat, r: seq<int>)
    requires Stepped(p, q, b) && |r| == |p| && multiset(r) == multiset(p) && LexLess(p, r)
    ensures !LexLess(r, q)
  {
    if LexLess(r, q) {
      var k :| DiffersAt(p, r, k) && p[k] < r[k];
      var l :| DiffersAt(r, q, l) && r[l] < q[l];
      if k > b {
        assert DiffersAt(r, p, k);
        var j := InTail(r, p, k);
      } else if k == b && l > b {
        assert DiffersAt(r, p, b);
        var j := InTail(r, p, b);
        var m := InTail(r, q, l);
      } else if k == b && l == b {
        var j := InTail(r, p, b);
      }
    }
  }

  function Reversed(p: seq<int>): seq<int> {
    if p == [] then [] else Reversed(p[1..]) + [p[0]]
  }

  lemma {:induction false} ReversedAt(p: seq<int>)
    ensures |Reversed(p)| == |p| && forall i :: 0 <= i < |p| ==> Reversed(p)[i] == p[|p| - 1 - i]
    decreases |p|
  {
    if p != [] {
      ReversedAt(p[1..]);
    }
  }

  lemma {:induction false} ReversedSame(p: seq<int>)
    ensures multiset(Reversed(p)) == multiset(p)
    decreases |p|
  {
    if p != [] {
      ReversedSame(p[1..]);
      assert p == [p[0]] + p[1..];
    }
  }

  lemma ReversedTwice(p: seq<int>)
    ensures Reversed(Reversed(p)) == p
  {
    hide Reversed;
    ReversedAt(p);
    ReversedAt(Reversed(p));
    assert Reversed(Reversed(p)) == p;
  }

  /** The next order, built from the beginning `a`, the bound `v` and the ascending rest `f` of the old one. */
  function Rebuilt(a: seq<int>, v: int, f: seq<int>, j: nat): seq<int>
    requires j < |f|
  {
    a + [f[j]] + f[..j] + [v] + f[j + 1..]
  }

  lemma RebuiltAt(a: seq<int>, v: int, f: seq<int>, j: nat)
    requires j < |f|
    ensures var q, b := Rebuilt(a, v, f, j), |a|;
            && |q| == b + 1 + |f| && q[..b] == a && q[b] == f[j]
            && forall i :: b < i < |q| ==> q[i] == if i == b + 1 + j then v else f[i - b - 1]
  {}

  lemma OldAt(a: seq<int>, v: int, f: seq<int>)
    ensures var p, b := a + [v] + Reversed(f), |a|;
            && |p| == b + 1 + |f| && p[..b] == a && p[b] == v
            && forall i :: b < i < |p| ==> p[i] == f[|p| - 1 - i]
  {
    hide Reversed;
    ReversedAt(f);
  }

  lemma RebuiltSame(a: seq<int>, v: int, f: seq<int>, j: nat)
    requires j < |f|
    ensures multiset(a + [v] + Reversed(f)) == multiset(Rebuilt(a, v, f, j))
  {
    hide Reversed;
    ReversedSame(f);
    SplitAt(f, j);
    BagFive(a, f[j], f[..j], v, f[j + 1..]);
    assert multiset(a + [v] + Reversed(f)) == multiset(a) + multiset{v} + multiset(f);
  }

  lemma BagFive(a: seq<int>, u: int, x: seq<int>, v: int, y: seq<int>)
    ensures multiset(a + [u] + x + [v] + y) == multiset(a) + multiset{v} + (multiset(x) + multiset{u} + multiset(y))
  {}

  lemma RebuiltStepped(p: seq<int>, a: seq<int>, v: int, f: seq<int>, j: nat)
    requires p == a + [v] + Reversed(f) && j < |f| && Distinct(p)
    requires (forall i :: 0 <= i < j ==> f[i] < v) && f[j] >= v && Ascending(f, 0)
    ensures Stepped(p, Rebuilt(a, v, f, j), |a|)
  {
    hide Rebuilt, Reversed;
    var q, b := Rebuilt(a, v, f, j), |a|;
    RebuiltSame(a, v, f, j);
    RebuiltAt(a, v, f, j);
    OldAt(a, v, f);
    assert p[|p| - 1 - j] == f[j];
    assert p[b] != p[|p| - 1 - j];
    assert Descending(p, b + 1) && Ascending(q, b + 1);
  }

  lemma DistinctSame(p: seq<int>, q: seq<int>)
    requires multiset(p) == multiset(q) && Distinct(p)
    ensures Distinct(q)
  {
    forall i, j | 0 <= i < j < |q|
      ensures q[i] != q[j]
    {
      if q[i] == q[j] {
        Twice(q, i, j);
        assert q[i] in multiset(p);
        var k :| 0 <= k < |p| && p[k] == q[i];
        Once(p, k);
        assert false;
      }
    }
  }

  /** Notes the descending end of `cur` in `fin`, last number first. */
  method DescendingEnd(cur: array<int>, fin: array<int>) returns (i: nat)
    requires cur != fin && cur.Length == fin.Length > 0
    modifies fin
    ensures i < cur.Length && cur[..] == old(cur[..]) && Descending(cur[..], i) && (i > 0 ==> cur[i - 1] < cur[i])
    ensures fin[..cur.Length - i] == Reversed(cur[..][i..])
  {
    hide Reversed, Descending, Ascending;
    var n := cur.Length;
    ghost var p := cur[..];
    i := n - 1;
    fin[0] := cur[i];
    DescendingStep(p, i);
    ReversedStep(p, i);
    while i > 0 && cur[i - 1] >= cur[i]
      invariant 0 <= i < n && cur[..] == p && Descending(p, i)
      invariant fin[..n - i] == Reversed(p[i..])
    {
      DescendingStep(p, i - 1);
      ReversedStep(p, i - 1);
      ghost var f := fin[..n - i];
      fin[n - i] := cur[i - 1];
      assert fin[..n - i + 1] == f + [p[i - 1]];
      i := i - 1;
    }
  }

  lemma ReversedStep(p: seq<int>, i: nat)
    requires i < |p|
    ensures Reversed(p[i..]) == Reversed(p[i + 1..]) + [p[i]]
    ensures i + 1 == |p| ==> Reversed(p[i..]) == [p[i]]
  {
    assert p[i..][1..] == p[i + 1..];
  }

  lemma DescendingStep(p: seq<int>, i: nat)
    requires i < |p| && (i + 1 < |p| ==> p[i] >= p[i + 1] && Descending(p, i + 1))
    ensures Descending(p, i)
  {}

  /** Puts the numbers `f` of the end back in ascending order, with `cur[num]` in the place of the least
      larger one. */
  method Refill(cur: array<int>, fin: array<int>, num: nat, ghost f: seq<int>) returns (ghost m: nat)
    requires cur != fin && cur.Length == fin.Length == num + 1 + |f| && |f| > 0
    requires fin[..|f|] == f && f[|f| - 1] >= cur[num]
    modifies cur
    ensures m < |f| && (forall k :: 0 <= k < m ==> f[k] < old(cur[num])) && f[m] >= old(cur[num])
    ensures cur[..] == Rebuilt(old(cur[..num]), old(cur[num]), f, m)
  {
    hide Rebuilt;
    assert forall k :: 0 <= k < |f| ==> fin[k] == f[k];
    ghost var a := cur[..num];
    var i, vl, j := num + 1, cur[num], 0;
    while fin[j] < vl
      invariant 0 <= j < |f| && i == num + 1 + j
      invariant forall k :: 0 <= k <= num ==> cur[k] == old(cur[k])
      invariant forall k :: 0 <= k < j ==> f[k] < vl && cur[num + 1 + k] == f[k]
      decreases |f| - j
    {
      cur[i] := fin[j];
      i, j := i + 1, j + 1;
    }
    m := j;
    cur[num] := fin[j];
    j := j + 1;
    cur[i] := vl;
    i := i + 1;
    while i < cur.Length
      invariant num + 2 + m <= i <= cur.Length && j == i - num - 1
      invariant forall k :: 0 <= k < num ==> cur[k] == old(cur[k])
      invariant cur[num] == f[m]
      invariant forall k :: num < k < i ==> cur[k] == if k == num + 1 + m then vl else f[k - num - 1]
    {
      cur[i] := fin[j];
      i, j := i + 1, j + 1;
    }
    RebuiltIs(cur[..], a, vl, f, m);
  }

  /** Rearranges `cur` to the next order, with the help of `fin`; false after the last one. */
  method NextOrderOfTablesScan(cur: array<int>, fin: array<int>) returns (more: bool)
    requires cur != fin && cur.Length == fin.Length > 0 && Distinct(cur[..])
    modifies cur, fin
    ensures !more ==> cur[..] == old(cur[..]) && Descending(cur[..], 0)
    ensures more ==> exists b :: Stepped(old(cur[..]), cur[..], b)
  {
    hide Stepped, Distinct, Rebuilt, Reversed, Descending, Ascending;
    ghost var p := cur[..];
    var i := DescendingEnd(cur, fin);
    if i == 0 {
      return false;
    }
    ghost var a, v, f := p[..i - 1], p[i - 1], Reversed(p[i..]);
    OldIs(p, i, f);
    assert cur[..i - 1] == a && cur[i - 1] == v;
    ghost var m := Refill(cur, fin, i - 1, f);
    RebuiltStepped(p, a, v, f, m);
    more := true;
  }

  lemma OldIs(p: seq<int>, i: nat, f: seq<int>)
    requires i < |p| && Descending(p, i) && f == Reversed(p[i..])
    ensures i > 0 ==> p == p[..i - 1] + [p[i - 1]] + Reversed(f)
    ensures |f| == |p| - i && f[|f| - 1] == p[i] && Ascending(f, 0)
  {
    hide Reversed;
    ReversedTwice(p[i..]);
    ReversedAt(p[i..]);
    if i > 0 {
      assert p == p[..i - 1] + [p[i - 1]] + p[i..];
    }
  }

  lemma RebuiltIs(q: seq<int>, a: seq<int>, v: int, f: seq<int>, j: nat)
    requires j < |f| && |q| == |a| + 1 + |f|
    requires (forall k :: 0 <= k < |a| ==> q[k] == a[k]) && q[|a|] == f[j]
    requires forall k :: |a| < k < |q| ==> q[k] == if k == |a| + 1 + j then v else f[k - |a| - 1]
    ensures q == Rebuilt(a, v, f, j)
  {
    assert q == Rebuilt(a, v, f, j);
  }

  // ---- From the first order to the last ----

  lemma IdentityFirst(n: nat)
    ensures Permutation(Identity(n), n) && forall r :: Permutation(r, n) ==> !LexLess(r, Identity(n))
  {
    forall r | Permutation(r, n)
      ensures !LexLess(r, Identity(n))
    {
      AscendingLeast(Identity(n), r);
    }
  }

  /** Between an order and the next one there is none. */
  lemma NextIsNext(p: seq<int>, q: seq<int>, n: nat)
    requires Permutation(p, n) && exists b :: Stepped(p, q, b)
    ensures Permutation(q, n) && LexLess(p, q)
    ensures forall r :: Permutation(r, n) ==> (LexLess(r, q) <==> r == p || LexLess(r, p))
  {
    hide LexLess;
    var b :| Stepped(p, q, b);
    assert LexLess(p, q) by { SteppedLess(p, q, b); }
    forall r | Permutation(r, n)
      ensures LexLess(r, q) <==> r == p || LexLess(r, p)
    {
      LexTotal(p, r);
      LexIrreflexive(p);
      if LexLess(r, p) {
        LexTransitive(r, p, q);
      } else if LexLess(p, r) {
        NothingBetween(p, q, b, r);
        if r == p {
          assert false;
        }
      }
    }
  }

  lemma SteppedLess(p: seq<int>, q: seq<int>, b: nat)
    requires Stepped(p, q, b)
    ensures LexLess(p, q)
  {
    assert DiffersAt(p, q, b);
  }

  /** After the descending order there is none. */
  lemma LastIsLast(p: seq<int>, n: nat)
    requires Permutation(p, n) && Descending(p, 0)
    ensures forall r :: Permutation(r, n) ==> r == p || LexLess(r, p)
  {
    forall r | Permutation(r, n)
      ensures r == p || LexLess(r, p)
    {
      DescendingGreatest(p, r);
      LexTotal(p, r);
    }
  }
}
