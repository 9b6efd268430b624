/** The user's view of a segment: a map from the address of each object's block to its bytes. */
module Heap {
  import opened ByteType
  import opened PageLayout

  /** A page as the user's view needs it: where it lies, its bytes, the blocks in use. */
  datatype View = View(base: int, m: seq<Byte>, live: set<int>)

  type Objects = map<int, seq<Byte>>

  ghost predicate ViewOk(v: View) {
    && InPage(v.m, v.live)
    && (forall o <- v.live :: Sz(v.m, o) >= 4 && End(v.m, o) <= |v.m|)
    && (forall o <- v.live, p <- v.live :: o < p ==> End(v.m, o) <= p)
  }

  /** Pages lie one behind the other from offset 0 on. */
  ghost predicate Chained(vs: seq<View>) {
    && (forall i :: 0 <= i < |vs| ==> ViewOk(vs[i]))
    && (|vs| > 0 ==> vs[0].base == 0)
    && (forall i :: 0 < i < |vs| ==> vs[i].base == vs[i - 1].base + |vs[i - 1].m|)
  }

  /** First offset behind the pages. */
  ghost function Top(vs: seq<View>): int {
    if vs == [] then 0 else var v := vs[|vs| - 1]; v.base + |v.m|
  }

  ghost function PageObjects(v: View): Objects {
    if ViewOk(v)
    then map k: int | v.base <= k < v.base + |v.m| && IsLive(v, k) :: v.m[k - v.base .. End(v.m, k - v.base - DSC_SZ)]
    else map[]
  }

  /** A block in use has its bytes from `k` on. */
  ghost predicate IsLive(v: View, k: int) { k - v.base - DSC_SZ in v.live }

  ghost function AllObjects(vs: seq<View>): Objects {
    if vs == [] then map[] else AllObjects(vs[..|vs| - 1]) + PageObjects(vs[|vs| - 1])
  }

  lemma PageObjectAt(v: View, k: int)
    requires ViewOk(v)
    ensures k in PageObjects(v) <==> k - v.base - DSC_SZ in v.live
    ensures k in PageObjects(v) ==>
              && PageObjects(v)[k] == v.m[k - v.base .. End(v.m, k - v.base - DSC_SZ)]
              && v.base <= k - DSC_SZ && k + |PageObjects(v)[k]| <= v.base + |v.m|
  {
    hide I2;
  }

  /** Every object lies in one page, and every page's objects are objects. */
  lemma {:induction false} ObjectAt(vs: seq<View>, i: int, k: int)
    requires Chained(vs) && 0 <= i < |vs| && k in PageObjects(vs[i])
    ensures k in AllObjects(vs) && AllObjects(vs)[k] == PageObjects(vs[i])[k]
    ensures k < Top(vs)
  {
    hide I2, PageObjects;
    var n := |vs| - 1;
    PageObjectAt(vs[i], k);
    if i < n {
      ObjectAt(vs[..n], i, k);
      assert k < vs[n].base;
      PageObjectAt(vs[n], k);
    }
  }

  lemma {:induction false} PageOf(vs: seq<View>, k: int) returns (i: int)
    requires Chained(vs) && k in AllObjects(vs)
    ensures 0 <= i < |vs| && k in PageObjects(vs[i])
  {
    hide I2, PageObjects;
    var n := |vs| - 1;
    if k in PageObjects(vs[n]) {
      return n;
    }
    i := PageOf(vs[..n], k);
  }

  /** The two maps differ at most at `k`. */
  ghost predicate SameBut(a: Objects, b: Objects, k: int) {
    forall x {:trigger x in a} {:trigger x in b} :: x != k ==> (x in a <==> x in b) && (x in a ==> a[x] == b[x])
  }

  lemma SameButMaps(a: Objects, b: Objects, k: int)
    requires SameBut(a, b, k)
    ensures k !in b ==> b == a - {k}
    ensures k in b ==> b == a[k := b[k]]
  {
    var c := if k in b then a[k := b[k]] else a - {k};
    forall x
      ensures x in b.Keys <==> x in c.Keys
      ensures x in b ==> b[x] == c[x]
    {
      assert x != k ==> (x in a <==> x in b);
    }
    assert b == c;
  }

  /** One page changed, and in it at most the object at `k`. */
  lemma OneObject(vs: seq<View>, ws: seq<View>, i: int, k: int)
    requires Chained(vs) && Chained(ws) && |vs| == |ws| && 0 <= i < |vs|
    requires forall j :: 0 <= j < |vs| && j != i ==> vs[j] == ws[j]
    requires SameBut(PageObjects(vs[i]), PageObjects(ws[i]), k)
    requires ws[i].base <= k < ws[i].base + |ws[i].m|
    ensures SameBut(AllObjects(vs), AllObjects(ws), k)
    ensures k in AllObjects(ws) <==> k in PageObjects(ws[i])
    ensures k in AllObjects(ws) ==> AllObjects(ws)[k] == PageObjects(ws[i])[k]
  {
    hide AllObjects, PageObjects, Chained;
    OneObjectSub(vs, ws, i, k);
    OneObjectSub(ws, vs, i, k);
    if k in AllObjects(ws) {
      var j := PageOf(ws, k);
      ChainedAt(ws, j);
      PageObjectAt(ws[j], k);
      SamePage(ws, i, j, k);
    }
    ChainedAt(ws, i);
    if k in PageObjects(ws[i]) {
      ObjectAt(ws, i, k);
    }
  }

  lemma ChainedAt(vs: seq<View>, i: int)
    requires Chained(vs) && 0 <= i < |vs|
    ensures ViewOk(vs[i])
  {}

  lemma OneObjectSub(vs: seq<View>, ws: seq<View>, i: int, k: int)
    requires Chained(vs) && Chained(ws) && |vs| == |ws| && 0 <= i < |vs|
    requires forall j :: 0 <= j < |vs| && j != i ==> vs[j] == ws[j]
    requires SameBut(PageObjects(vs[i]), PageObjects(ws[i]), k)
    ensures forall x <- AllObjects(vs) :: x != k ==> x in AllObjects(ws) && AllObjects(ws)[x] == AllObjects(vs)[x]
  {
    hide AllObjects, PageObjects, Chained;
    forall x | x in AllObjects(vs) && x != k ensures x in AllObjects(ws) && AllObjects(ws)[x] == AllObjects(vs)[x] {
      var j := PageOf(vs, x);
      ObjectAt(vs, j, x);
      ObjectAt(ws, j, x);
    }
  }

  lemma {:induction false} Below(vs: seq<View>, i: int, j: int)
    requires Chained(vs) && 0 <= i < j < |vs|
    ensures vs[i].base + |vs[i].m| <= vs[j].base
  {
    if i + 1 < j {
      Below(vs, i, j - 1);
    }
  }

  lemma SamePage(vs: seq<View>, i: int, j: int, k: int)
    requires Chained(vs) && 0 <= i < |vs| && 0 <= j < |vs|
    requires vs[i].base <= k < vs[i].base + |vs[i].m| && vs[j].base <= k < vs[j].base + |vs[j].m|
    ensures i == j
  {
    if i < j {
      Below(vs, i, j);
    } else if j < i {
      Below(vs, j, i);
    }
  }

  /** Between two states of a page only the block `a` changed. */
  lemma OneBlock(v: View, w: View, a: int)
    requires ViewOk(v) && ViewOk(w) && v.base == w.base && |v.m| <= |w.m|
    requires v.live - {a} == w.live - {a} && Kept(v.m, w.m, v.live - {a})
    ensures SameBut(PageObjects(v), PageObjects(w), v.base + a + DSC_SZ)
  {
    hide I2, PageObjects;
    forall x | x != v.base + a + DSC_SZ
      ensures x in PageObjects(v) <==> x in PageObjects(w)
      ensures x in PageObjects(v) ==> PageObjects(v)[x] == PageObjects(w)[x]
    {
      PageObjectAt(v, x);
      PageObjectAt(w, x);
      var o := x - v.base - DSC_SZ;
      assert o in v.live - {a} <==> o in w.live - {a};
      if o in v.live {
        SamePayloads(v, w, o);
      }
    }
  }

  lemma SamePayloads(v: View, w: View, o: int)
    requires ViewOk(v) && ViewOk(w) && |v.m| <= |w.m| && o in v.live && o in w.live
    requires forall j :: o <= j < End(v.m, o) ==> w.m[j] == v.m[j]
    ensures v.m[o + DSC_SZ .. End(v.m, o)] == w.m[o + DSC_SZ .. End(w.m, o)]
  {
    hide I2;
    SameSize(v.m, w.m, o);
  }

  /** Objects keep clear of each other: between two of them there is at least a descriptor. */
  lemma Separate(vs: seq<View>, k: int, l: int)
    requires Chained(vs) && k in AllObjects(vs) && l in AllObjects(vs) && k < l
    ensures k + |AllObjects(vs)[k]| + DSC_SZ <= l
  {
    hide I2, AllObjects, PageObjects;
    var i := PageOf(vs, k);
    var j := PageOf(vs, l);
    ObjectAt(vs, i, k);
    ObjectAt(vs, j, l);
    PageObjectAt(vs[i], k);
    PageObjectAt(vs[j], l);
    if i < j {
      Below(vs, i, j);
    } else if j < i {
      Below(vs, j, i);
    }
  }

  /** The invariant of a page gives a well-formed view of it. */
  lemma InvView(base: int, m: seq<Byte>, used: int, first: int, last: int, B: set<int>, F: set<int>)
    requires PageInv(m, used, first, last, B, F, -1)
    ensures ViewOk(View(base, m, B - F))
  {
    hide I2;
    forall o | o in B
      ensures Sz(m, o) >= 4 && End(m, o) <= |m|
      ensures forall p <- B :: o < p ==> End(m, o) <= p
    {
      assert BlockOk(m, B, o);
    }
  }

  lemma SamePages(vs: seq<View>, ws: seq<View>)
    requires Chained(vs) && Chained(ws) && |vs| <= |ws|
    requires forall i :: 0 <= i < |vs| ==> PageObjects(vs[i]) == PageObjects(ws[i])
    requires forall i :: |vs| <= i < |ws| ==> ws[i].live == {}
    ensures AllObjects(vs) == AllObjects(ws)
  {
    hide AllObjects, PageObjects, Chained;
    forall x
      ensures x in AllObjects(vs) <==> x in AllObjects(ws)
      ensures x in AllObjects(vs) ==> AllObjects(vs)[x] == AllObjects(ws)[x]
    {
      if x in AllObjects(vs) {
        var j := PageOf(vs, x);
        ObjectAt(vs, j, x);
        ObjectAt(ws, j, x);
      }
      if x in AllObjects(ws) {
        var j := PageOf(ws, x);
        ChainedAt(ws, j);
        PageObjectAt(ws[j], x);
        ObjectAt(ws, j, x);
        ObjectAt(vs, j, x);
      }
    }
    assert AllObjects(vs) == AllObjects(ws);
  }

  lemma SameLive(v: View, w: View)
    requires ViewOk(v) && ViewOk(w) && v.base == w.base && v.live == w.live && Kept(v.m, w.m, v.live)
    ensures PageObjects(v) == PageObjects(w)
  {
    hide I2, PageObjects;
    forall x
      ensures x in PageObjects(v) <==> x in PageObjects(w)
      ensures x in PageObjects(v) ==> PageObjects(v)[x] == PageObjects(w)[x]
    {
      PageObjectAt(v, x);
      PageObjectAt(w, x);
      var o := x - v.base - DSC_SZ;
      if o in v.live {
        SamePayloads(v, w, o);
      }
    }
    assert PageObjects(v) == PageObjects(w);
  }

  /** One page changed, and in it at most the block `a`: what becomes of the objects. */
  lemma OnePageObject(vs: seq<View>, ws: seq<View>, i: int, a: int)
    requires Chained(vs) && Chained(ws) && |vs| == |ws| && 0 <= i < |vs|
    requires forall j :: 0 <= j < |vs| && j != i ==> vs[j] == ws[j]
    requires vs[i].base == ws[i].base && |vs[i].m| == |ws[i].m|
    requires vs[i].live - {a} == ws[i].live - {a} && Kept(vs[i].m, ws[i].m, vs[i].live - {a})
    requires a in vs[i].live + ws[i].live
    ensures var k, X, Y := vs[i].base + a + DSC_SZ, AllObjects(vs), AllObjects(ws);
            && (if a in vs[i].live then k in X && X[k] == vs[i].m[a + DSC_SZ .. End(vs[i].m, a)] else k !in X)
            && (if a in ws[i].live
                then k in Y && Y[k] == ws[i].m[a + DSC_SZ .. End(ws[i].m, a)] && Y == X[k := Y[k]]
                else Y == X - {k})
  {
    hide I2, AllObjects, PageObjects, Chained, ViewOk;
    ChainedAt(vs, i);
    ChainedAt(ws, i);
    var k := vs[i].base + a + DSC_SZ;
    PageObjectAt(vs[i], k);
    PageObjectAt(ws[i], k);
    OneBlock(vs[i], ws[i], a);
    assert 0 <= a <= |vs[i].m| - FDS_SZ by { LiveInPage(vs[i], a); LiveInPage(ws[i], a); }
    OneObject(vs, ws, i, k);
    SameButMaps(AllObjects(vs), AllObjects(ws), k);
    if k in PageObjects(vs[i]) {
      ObjectAt(vs, i, k);
    } else if k in AllObjects(vs) {
      var j := PageOf(vs, k);
      ChainedAt(vs, j);
      PageObjectAt(vs[j], k);
      SamePage(vs, i, j, k);
    }
  }

  lemma LiveInPage(v: View, a: int)
    requires ViewOk(v)
    ensures a in v.live ==> 0 <= a <= |v.m| - FDS_SZ
  {}

  lemma PagesOk(vs: seq<View>, ws: seq<View>, i: int)
    requires Chained(vs) && Chained(ws) && 0 <= i < |vs| == |ws|
    ensures ViewOk(vs[i]) && ViewOk(ws[i])
  {}

  lemma LiveBounds(v: View, a: int)
    requires ViewOk(v) && a in v.live
    ensures 0 <= a <= |v.m| - FDS_SZ && a + DSC_SZ <= End(v.m, a) <= |v.m|
  {}
}
