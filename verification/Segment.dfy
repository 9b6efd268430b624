/** A segment of simulated virtual memory: a chain of pages, and allocation, reallocation and
    freeing of objects in it, proved against a map from addresses to bytes. */
module Segment {
  import opened ByteType
  import opened PageLayout
  import opened Heap
  import P = Page

  /** `Fatal` is the source's `yyfatal` or a failed assertion, which end the process; `Outside` is an
      address past the end of the segment, which `vpointer` takes for one in another segment. */
  datatype Outcome = Null | At(addr: int) | Fatal | Outside(addr: int)

  const MIN_PAGE := 0x1000
  const OS_NEEDS := 0x40
  /** An address holds the offset in the segment in its low 20 bits. */
  const SEGMENT_LIMIT := 0x10_0000

  /** `a` is the alignment for a request of `size` bytes with alignment `align`: the one asked for if that is 4
      or 16, 4 if it is less, and otherwise the least of 4, 8 and 16 that is not below the size, or 16. */
  predicate Aligning(size: nat, align: int, a: alignment) {
    if align == 4 || align == PAGE_ALIGN then a == align
    else if 0 < align < 4 then a == 4
    else (size <= a || a == 16) && (a > 4 ==> size > 4) && (a > 8 ==> size > 8)
  }

  /** The alignment used for a request of `size` bytes with alignment `align`. */
  function Alignment(size: nat, align: int): (a: alignment)
    ensures Aligning(size, align, a)
  {
    if align == 4 || align == PAGE_ALIGN then align
    else if 0 < align < 4 || size <= 4 then 4
    else if size <= 8 then 8 else PAGE_ALIGN
  }

  /** The page size a request asks for: doubled until the request leaves room for the system. */
  function PageSize(need: nat, size: nat): (r: nat)
    requires size >= MIN_PAGE
    ensures need < r - OS_NEEDS && r >= MIN_PAGE
    decreases need + OS_NEEDS + 1 - size
  {
    if need >= size - OS_NEEDS then PageSize(need, 2 * size) else size
  }

  /** It is doubled only as long as the request does not leave that room. */
  lemma {:induction false} PageSizeLeast(need: nat, size: nat)
    requires size >= MIN_PAGE
    ensures PageSize(need, size) == size
            || exists half :: PageSize(need, size) == 2 * half && half >= size && need >= half - OS_NEEDS
    decreases need + OS_NEEDS + 1 - size
  {
    if need >= size - OS_NEEDS {
      PageSizeLeast(need, 2 * size);
      assert PageSize(need, size) == PageSize(need, 2 * size);
      if PageSize(need, 2 * size) == 2 * size {
        assert PageSize(need, size) == 2 * size && size >= size;
      }
    }
  }

  class Segment {
    var pages: seq<P.Page>

    ghost function ViewOf(p: P.Page): View
      reads p, p.mem
    {
      View(p.base, p.mem[..], p.B - p.F)
    }

    ghost function Views(): (r: seq<View>)
      reads this, pages, set p | p in pages :: p.mem
      ensures |r| == |pages| && forall i :: 0 <= i < |pages| ==> r[i] == ViewOf(pages[i])
    {
      seq(|pages|, i requires 0 <= i < |pages| reads this, pages, set p | p in pages :: p.mem => ViewOf(pages[i]))
    }

    ghost predicate Valid()
      reads this, pages, set p | p in pages :: p.mem
    {
      && (forall i, j :: 0 <= i < j < |pages| ==> pages[i] != pages[j] && pages[i].mem != pages[j].mem)
      && (forall i :: 0 <= i < |pages| ==>
            pages[i].Inv(-1) && pages[i].mem.Length % PAGE_ALIGN == 0 && pages[i].base % PAGE_ALIGN == 0)
      && (|pages| > 0 ==> pages[0].base == 0)
      && (forall i :: 0 < i < |pages| ==> pages[i].base == pages[i - 1].base + pages[i - 1].mem.Length)
    }

    /** The objects of the segment. */
    ghost function Objs(): Objects
      reads this, pages, set p | p in pages :: p.mem
    {
      AllObjects(Views())
    }

    constructor ()
      ensures Valid() && Objs() == map[] && pages == []
    {
      pages := [];
    }

    lemma PageOk(i: nat)
      requires Valid() && i < |pages|
      ensures pages[i].Inv(-1) && pages[i].mem.Length % PAGE_ALIGN == 0 && pages[i].base % PAGE_ALIGN == 0
      ensures forall j :: 0 <= j < |pages| && j != i ==> pages[j] != pages[i] && pages[j].mem != pages[i].mem
    {
      hide PageInv;
    }

    lemma ValidChained()
      requires Valid()
      ensures Chained(Views())
    {
      hide PageInv, ViewOk;
      forall i | 0 <= i < |pages| ensures ViewOk(Views()[i]) {
        var p := pages[i];
        assert p.Inv(-1);
        InvView(p.base, p.mem[..], p.used, p.freePtr, p.lfreePtr, p.B, p.F);
      }
    }

    /** Pages may have been added or moved, none was dropped. */
    twostate predicate Extended()
      reads this, pages
    {
      && |pages| >= |old(pages)|
      && (forall j :: 0 <= j < |old(pages)| ==>
            pages[j] == old(pages)[j] && (pages[j].mem == old(pages[j].mem) || fresh(pages[j].mem)))
      && (forall j :: |old(pages)| <= j < |pages| ==> fresh(pages[j]) && fresh(pages[j].mem))
    }

    /** Only the page `i` changed; it keeps its length unless it is the last one. */
    twostate lemma OnePage(i: nat)
      requires old(Valid() && Chained(Views())) && pages == old(pages) && i < |pages|
      requires forall j :: 0 <= j < |pages| && j != i ==> unchanged(pages[j]) && unchanged(pages[j].mem)
      requires var p := pages[i];
               && p.Inv(-1) && p.base == old(p.base) && p.mem.Length % PAGE_ALIGN == 0
               && (p.mem.Length == old(p.mem.Length) || i == |pages| - 1)
               && (p.mem == old(p.mem) || fresh(p.mem))
      ensures Valid() && Chained(Views())
      ensures forall j :: 0 <= j < |pages| && j != i ==> Views()[j] == old(Views())[j]
    {
      hide PageInv, Chained;
      ValidChained();
    }

    /** The object at `k` lies on page `i`. */
    ghost predicate ObjectOn(i: nat, k: int)
      reads this, pages, set p | p in pages :: p.mem
    {
      i < |pages| &&
      var p, a := pages[i], k - pages[i].base - DSC_SZ;
      && a in p.B - p.F && InPage(p.mem[..], p.B) && a + DSC_SZ <= End(p.mem[..], a) <= p.mem.Length
      && k in Objs() && Objs()[k] == p.mem[a + DSC_SZ .. End(p.mem[..], a)]
    }

    /** Where the bytes of an object are. */
    lemma BytesOf(i: nat, a: int, k: int)
      requires ObjectOn(i, k) && k == pages[i].base + a + DSC_SZ
      ensures 0 <= a <= pages[i].mem.Length - FDS_SZ && a + DSC_SZ <= End(pages[i].mem[..], a) <= pages[i].mem.Length
      ensures k in Objs() && Objs()[k] == pages[i].mem[..][a + DSC_SZ .. End(pages[i].mem[..], a)]
    {
      hide Objs, I2;
    }

    /** A block in use is an object. */
    lemma OnPage(i: nat, a: int)
      requires Valid() && i < |pages| && a in pages[i].B - pages[i].F
      ensures ObjectOn(i, pages[i].base + a + DSC_SZ)
    {
      hide PageInv, AllObjects, PageObjects, ViewOk, I2, Valid;
      ValidChained();
      var p, k := pages[i], pages[i].base + a + DSC_SZ;
      PageOk(i);
      p.LastFree();
      ChainedAt(Views(), i);
      LiveBounds(Views()[i], a);
      PageObjectAt(Views()[i], k);
      ObjectAt(Views(), i, k);
    }

    /** An operation on page `at.0` that touches none of its blocks in use but `at.1` changes at most the
        object at `at.2`, which this block holds. */
    twostate lemma OneChanged(at: (nat, int, int))
      requires old(Valid() && Chained(Views())) && pages == old(pages) && at.0 < |pages|
      requires forall j :: 0 <= j < |pages| && j != at.0 ==> unchanged(pages[j]) && unchanged(pages[j].mem)
      requires pages[at.0].Inv(-1) && pages[at.0].base == old(pages[at.0].base)
               && pages[at.0].mem == old(pages[at.0].mem)
      requires pages[at.0].mem.Length % PAGE_ALIGN == 0 && at.2 == pages[at.0].base + at.1 + DSC_SZ
      requires old(pages[at.0].B - pages[at.0].F) - {at.1} == pages[at.0].B - pages[at.0].F - {at.1}
      requires at.1 in old(pages[at.0].B - pages[at.0].F) + (pages[at.0].B - pages[at.0].F)
      requires Kept(old(pages[at.0].mem[..]), pages[at.0].mem[..], pages[at.0].B - pages[at.0].F - {at.1})
      ensures Valid()
      ensures at.2 in old(Objs()) <==> at.1 in old(pages[at.0].B - pages[at.0].F)
      ensures at.2 in Objs() <==> at.1 in pages[at.0].B - pages[at.0].F
      ensures at.2 in Objs() ==> Objs() == old(Objs())[at.2 := Objs()[at.2]] && ObjectOn(at.0, at.2)
      ensures at.2 !in Objs() ==> Objs() == old(Objs()) - {at.2}
    {
      hide PageInv, AllObjects, PageObjects, ViewOk, I2, Valid, ObjectOn;
      var (i, a, k) := at;
      OnePage(i);
      OnePageObject(old(Views()), Views(), i, a);
      if k in Objs() {
        OnPage(i, a);
      }
    }

    /** No free block has room for the request. */
    ghost predicate NoRoom(size: nat, align: alignment)
      requires Valid()
      reads this, pages, set p | p in pages :: p.mem
    {
      forall p <- pages :: p.NoRoom(size, align)
    }

    /** Getting room for the request ends the process: the page asked for is too large. */
    ghost predicate Dies(size: nat, align: alignment)
      requires Valid()
      reads this, pages, set p | p in pages :: p.mem
    {
      var pg := PageSize(size + DSC_SZ + align, MIN_PAGE);
      && NoRoom(size, align)
      && if pages == [] then AlignPage(pg) > MAX_PAGE
         else
           var v := pages[|pages| - 1];
           (if v.WantsNew(pg) then AlignPage(pg - OS_NEEDS) > MAX_PAGE else AlignPage(v.mem.Length + pg) > MAX_PAGE)
    }

    ghost function Lengths(): (r: seq<int>)
      reads this, pages
      ensures |r| == |pages| && forall i :: 0 <= i < |pages| ==> r[i] == pages[i].mem.Length
    {
      seq(|pages|, i requires 0 <= i < |pages| reads this, pages => pages[i].mem.Length)
    }

    /** The lengths of the pages once there is room: if no page has any, the first page has just the bytes asked
        for, a later one is less what the system needs, and a last page that ends in enough free bytes becomes
        longer by them. */
    ghost function LengthsFor(size: nat, align: alignment): seq<int>
      requires Valid()
      reads this, pages, set p | p in pages :: p.mem
    {
      if !NoRoom(size, align) then Lengths()
      else
        var n, pg := |pages|, PageSize(size + DSC_SZ + align, MIN_PAGE);
        if n == 0 then [AlignPage(pg)]
        else if pages[n - 1].WantsNew(pg) then Lengths() + [AlignPage(pg - OS_NEEDS)]
        else Lengths()[n - 1 := AlignPage(pages[n - 1].mem.Length + pg)]
    }

    /** Adds a page of `size` bytes behind the others. */
    method AddPage(size: nat)
      requires Valid() && FDS_SZ <= size <= MAX_PAGE && size % PAGE_ALIGN == 0
      modifies this
      ensures Valid() && Objs() == old(Objs())
      ensures |pages| == |old(pages)| + 1 && pages[..|old(pages)|] == old(pages) && fresh(pages[|pages| - 1])
      ensures
        var p := pages[|pages| - 1];
        fresh(p.mem) && p.F == {0} && p.mem.Length == size && End(p.mem[..], 0) == size
    {
      hide PageInv, AllObjects, Chained, ViewOk, PageObjects, I2;
      ghost var vs := Views();
      ValidChained();
      var base := 0;
      if |pages| > 0 {
        base := pages[|pages| - 1].base + pages[|pages| - 1].mem.Length;
      }
      var p := new P.Page(base, size);
      pages := pages + [p];
      assert Valid();
      ValidChained();
      SamePages(vs, Views());
    }

    /** Makes the last page, which ends in a free block, longer. */
    method GrowLast(size: nat)
      requires Valid() && |pages| > 0 && size % PAGE_ALIGN == 0
      requires pages[|pages| - 1].mem.Length + FDS_SZ <= size <= MAX_PAGE
      requires var p := pages[|pages| - 1]; DSC_SZ <= p.lfreePtr <= p.mem.Length - DSC_SZ && !p.NoTail()
      modifies pages[|pages| - 1]
      ensures Valid() && Objs() == old(Objs())
      ensures var p, t := pages[|pages| - 1], old(pages[|pages| - 1].lfreePtr) - DSC_SZ;
              fresh(p.mem) && p.mem.Length == size && t in p.F && End(p.mem[..], t) == size
    {
      hide PageInv, AllObjects, IsMax, Kept, ViewOk, PageObjects, P.Page.NoTail, I2, Chained, InPage;
      var last := |pages| - 1;
      var p := pages[last];
      ValidChained();
      p.Grow(size);
      OnePage(last);
      PagesOk(old(Views()), Views(), last);
      SameLive(old(ViewOf(p)), ViewOf(p));
      SamePages(old(Views()), Views());
    }

    /** The search can end the process although a fresh page would do: if the last page has full size and
        ends in a free block near its third quarter, it is to be made longer. */
    lemma LongerPageDies()
      requires Valid() && |pages| == 1
      requires var p := pages[0]; p.mem.Length == 0x8000 && p.OnlyFree(24016, 0x8000)
      ensures Dies(9000, PAGE_ALIGN)
      ensures AlignPage(PageSize(9000 + DSC_SZ + PAGE_ALIGN, MIN_PAGE) - OS_NEEDS) <= MAX_PAGE
    {
      hide PageInv, I2;
      assert PageSize(9020, MIN_PAGE) == 0x4000 by {
        assert PageSize(9020, 0x2000) == PageSize(9020, 0x4000);
      }
      var p := pages[0];
      p.LastFree();
      assert p.lfreePtr - DSC_SZ == 24016 by { LastOf(p); }
      assert forall q :: !p.HasRoom(q, 9000, PAGE_ALIGN);
      assert p.NoRoom(9000, PAGE_ALIGN);
    }

    lemma LastOf(p: P.Page)
      requires p.Inv(-1) && p.F == {24016}
      ensures p.lfreePtr - DSC_SZ == 24016
    {
      hide I2, Tiled, Bytes;
    }

    /** Searches the pages for the first free block with room. */
    method Search(size: nat, align: alignment) returns (found: bool, i: nat, a: int)
      requires Valid()
      ensures found ==> i < |pages| && pages[i].HasRoom(a, size, align)
      ensures found ==> forall j :: 0 <= j < i ==> pages[j].NoRoom(size, align)
      ensures found ==> forall q :: q < a ==> !pages[i].HasRoom(q, size, align)
      ensures !found ==> NoRoom(size, align)
    {
      hide PageInv;
      i := 0;
      while i < |pages|
        invariant forall j :: 0 <= j < i && j < |pages| ==> pages[j].NoRoom(size, align)
      {
        found, a := pages[i].FindFit(size, align);
        if found {
          return;
        }
        i := i + 1;
      }
      return false, 0, 0;
    }

    lemma DiesNoRoom(size: nat, align: alignment)
      requires Valid()
      ensures Dies(size, align) ==> NoRoom(size, align)
    {}

    static lemma LastOver(ls: seq<int>, limit: int)
      requires ls != [] && forall i :: 0 <= i < |ls| - 1 ==> ls[i] <= limit
      ensures (exists l <- ls :: l > limit) <==> ls[|ls| - 1] > limit
    {
      assert ls[|ls| - 1] in ls;
    }

    lemma LengthsBounded(i: nat)
      requires Valid() && i < |pages|
      ensures Lengths()[i] <= MAX_PAGE
    {
      hide PageInv;
      PageOk(i);
      pages[i].LastFree();
    }

    /** The process ends exactly if one of the pages would be longer than a page can be. */
    lemma DiesIff(size: nat, align: alignment)
      requires Valid()
      ensures Dies(size, align) <==> exists l <- LengthsFor(size, align) :: l > MAX_PAGE
    {
      hide PageInv, AlignPage, PageSize, NoRoom, Valid, P.Page.WantsNew;
      forall i | 0 <= i < |pages| ensures Lengths()[i] <= MAX_PAGE {
        LengthsBounded(i);
      }
      if NoRoom(size, align) {
        LastOver(LengthsFor(size, align), MAX_PAGE);
      }
    }

    lemma WantsNewTail(p: P.Page, pageSize: int)
      requires p.lfreePtr == 0 || DSC_SZ <= p.lfreePtr <= p.mem.Length - DSC_SZ
      requires !p.WantsNew(pageSize)
      ensures !p.NoTail() && p.lfreePtr != 0 && pageSize <= p.mem.Length
    {}

    /** The page is one free block of `size` bytes. */
    ghost predicate Whole(p: P.Page, size: int)
      reads p, p.mem
    {
      p.mem.Length == size && p.OnlyFree(0, size)
    }

    /** The first page of an empty segment. */
    method FirstPage(size: nat, align: alignment) returns (ok: bool)
      requires Valid() && pages == []
      modifies this
      ensures Valid() && Objs() == old(Objs()) && Extended()
      ensures ok <==> !old(Dies(size, align))
      ensures ok ==> |pages| == 1 && pages[0].HasRoom(0, size, align)
      ensures ok ==> Lengths() == old(LengthsFor(size, align))
      ensures ok ==> Whole(pages[0], AlignPage(PageSize(size + DSC_SZ + align, MIN_PAGE)))
    {
      hide PageInv, Objs, Fits, AlignPage, Pad, PageSize;
      var pageSize := PageSize(size + DSC_SZ + align, MIN_PAGE);
      assert NoRoom(size, align);
      ok := AlignPage(pageSize) <= MAX_PAGE;
      if ok {
        AddPage(AlignPage(pageSize));
        LongFits(pages[0].mem[..], 0, size, align);
      }
    }

    /** Gives the request a page of its own. */
    method OwnPage(pageSize: nat, size: nat, align: alignment) returns (ok: bool)
      requires Valid() && size + DSC_SZ + align < pageSize - OS_NEEDS
      modifies this
      ensures Valid() && Objs() == old(Objs()) && Extended()
      ensures ok <==> AlignPage(pageSize - OS_NEEDS) <= MAX_PAGE
      ensures ok ==> |pages| > 0 && pages[|pages| - 1].HasRoom(0, size, align)
      ensures ok ==> Lengths() == old(Lengths()) + [AlignPage(pageSize - OS_NEEDS)]
    {
      hide PageInv, Objs, Fits, AlignPage, Pad;
      ok := AlignPage(pageSize - OS_NEEDS) <= MAX_PAGE;
      if ok {
        AddPage(AlignPage(pageSize - OS_NEEDS));
        LongFits(pages[|pages| - 1].mem[..], 0, size, align);
      }
    }

    /** Makes the last page, which ends in a free block, longer by `pageSize`. */
    method LongerPage(pageSize: nat, size: nat, align: alignment) returns (ok: bool)
      requires Valid() && size + DSC_SZ + align < pageSize - OS_NEEDS && pages != []
      requires var p := pages[|pages| - 1];
               p.lfreePtr != 0 && DSC_SZ <= p.lfreePtr <= p.mem.Length - DSC_SZ && !p.NoTail()
      modifies pages[|pages| - 1]
      ensures Valid() && Objs() == old(Objs()) && Extended()
      ensures ok <==> old(AlignPage(pages[|pages| - 1].mem.Length + pageSize)) <= MAX_PAGE
      ensures ok ==> pages[|pages| - 1].HasRoom(old(pages[|pages| - 1].lfreePtr) - DSC_SZ, size, align)
      ensures ok ==> Lengths() == old(Lengths()[|pages| - 1 := AlignPage(pages[|pages| - 1].mem.Length + pageSize)])
    {
      hide Valid, PageInv, Objs, Fits, AlignPage, Pad, P.Page.NoTail;
      var p := pages[|pages| - 1];
      PageOk(|pages| - 1);
      p.LastFree();
      ghost var room := p.lfreePtr - DSC_SZ;
      ok := AlignPage(p.mem.Length + pageSize) <= MAX_PAGE;
      if ok {
        GrowLast(AlignPage(p.mem.Length + pageSize));
        LongFits(p.mem[..], room, size, align);
      }
    }

    /** Adds a page or makes the last one longer, so that block `room` of the last page has room. */
    method MakeRoom(size: nat, align: alignment) returns (ok: bool, ghost room: int)
      requires Valid() && NoRoom(size, align) && pages != []
      modifies this, pages
      ensures Valid() && Objs() == old(Objs()) && Extended()
      ensures ok <==> !old(Dies(size, align))
      ensures ok ==> |pages| > 0 && pages[|pages| - 1].HasRoom(room, size, align)
      ensures ok ==> Lengths() == old(LengthsFor(size, align))
    {
      hide Valid, PageInv, Objs, Fits, AlignPage, Pad, NoRoom, P.Page.WantsNew, Extended, P.Page.HasRoom;
      var pageSize := PageSize(size + DSC_SZ + align, MIN_PAGE);
      var p := pages[|pages| - 1];
      PageOk(|pages| - 1);
      p.LastFree();
      if p.WantsNew(pageSize) {
        room := 0;
        ok := OwnPage(pageSize, size, align);
      } else {
        room := p.lfreePtr - DSC_SZ;
        WantsNewTail(p, pageSize);
        ok := LongerPage(pageSize, size, align);
      }
    }

    /** A free block with room, made when no page has one. */
    method GetRoom(size: nat, align: alignment) returns (ok: bool, i: nat, a: int)
      requires Valid() && NoRoom(size, align)
      modifies this, pages
      ensures Valid() && Objs() == old(Objs()) && Extended()
      ensures ok <==> !old(Dies(size, align))
      ensures ok ==> i < |pages| && pages[i].HasRoom(a, size, align)
      ensures ok ==> Lengths() == old(LengthsFor(size, align))
      ensures ok && old(pages) == [] ==>
                |pages| == 1 && i == a == 0 && Whole(pages[0], AlignPage(PageSize(size + DSC_SZ + align, MIN_PAGE)))
    {
      hide PageInv, Objs, Fits, AlignPage, Pad, PageSize, Dies, Extended;
      i, a := 0, 0;
      if pages == [] {
        ok := FirstPage(size, align);
      } else {
        ghost var room;
        ok, room := MakeRoom(size, align);
      }
      if ok {
        i := |pages| - 1;
        ok, a := pages[i].FindFit(size, align);
      }
    }

    /** Makes the free block `a` of page `i` an object; `k` is where its block's bytes start. */
    method ClaimOn(i: nat, a: int, size: nat, align: alignment) returns (addr: int, ghost k: int)
      requires Valid() && size > 0 && i < |pages| && pages[i].HasRoom(a, size, align)
      modifies pages[i], pages[i].mem
      ensures Valid() && Lengths() == old(Lengths())
      ensures k !in old(Objs()) && k in Objs() && Objs() == old(Objs())[k := Objs()[k]]
      ensures Cleared(Objs()[k], addr - k, size) && k <= addr < k + align && Rem(addr, align) == 0
      ensures pages[i] == old(pages[i]) && pages[i].mem == old(pages[i].mem)
      ensures old(pages[i].F) == {a} ==> pages[i].RestFree(a, size, align, old(End(pages[i].mem[..], a)))
    {
      hide Valid, PageInv, Objs, Pad, AlignDsc, Chained, SameBlocks, Kept, Cleared, Rem, ObjectOn, I2, P.Page.RestFree;
      var p := pages[i];
      ValidChained();
      PageOk(i);
      p.LastFree();
      ghost var m, L := p.mem[..], p.B - p.F;
      p.Claim(a, size, align);
      k := p.base + a + DSC_SZ;
      addr := p.base + a + DSC_SZ + Pad(a + DSC_SZ, align);
      assert L - {a} == L;
      assert p.B - p.F - {a} == L && a in p.B - p.F;
      SameKept(m, p.mem[..], L);
      OneChanged((i, a, k));
      BytesOf(i, a, k);
      ClearedSlice(p.mem[..], a + DSC_SZ, End(p.mem[..], a), Pad(a + DSC_SZ, align), size);
      AlignedSum(p.base, a + DSC_SZ, align);
    }

    /** The bytes are all zero, and there is room for `size` of them from `d` on. */
    static ghost predicate Cleared(o: seq<Byte>, d: int, size: nat) {
      (forall j :: 0 <= j < |o| ==> o[j] == 0) && 0 <= d && d + size <= |o|
    }

    static lemma ClearedSlice(m: seq<Byte>, lo: nat, hi: nat, d: nat, size: nat)
      requires lo <= hi <= |m| && lo + d + size <= hi && forall j :: lo <= j < hi ==> m[j] == 0
      ensures Cleared(m[lo .. hi], d, size)
    {}

    /** A free block with room for the request, wherever it comes from. */
    method Room(size: nat, align: alignment) returns (ok: bool, i: nat, a: int)
      requires Valid()
      modifies this, pages
      ensures Valid() && Objs() == old(Objs()) && Extended()
      ensures ok <==> !old(Dies(size, align))
      ensures ok ==> i < |pages| && pages[i].HasRoom(a, size, align)
      ensures ok ==> Lengths() == old(LengthsFor(size, align))
      ensures ok && old(pages) == [] ==>
                |pages| == 1 && i == a == 0 && Whole(pages[0], AlignPage(PageSize(size + DSC_SZ + align, MIN_PAGE)))
    {
      hide Valid, PageInv, Objs, Fits, Pad, AlignPage, PageSize, Dies, NoRoom, P.Page.HasRoom, Whole, LengthsFor;
      DiesNoRoom(size, align);
      ok, i, a := Search(size, align);
      if ok {
        SomeRoom(i, a, size, align);
      } else {
        ok, i, a := GetRoom(size, align);
      }
    }

    lemma SomeRoom(i: nat, a: int, size: nat, align: alignment)
      requires Valid() && i < |pages| && pages[i].HasRoom(a, size, align)
      ensures !NoRoom(size, align) && LengthsFor(size, align) == Lengths()
    {
      assert !pages[i].NoRoom(size, align);
    }

    /** Allocates an object of `size` bytes; `k` is where its block's bytes start. */
    method ObAlloc(size: nat, align: int) returns (r: Outcome, ghost k: int)
      requires Valid()
      modifies this, pages, set p | p in pages :: p.mem
      ensures Valid() && Extended()
      ensures !r.Outside? && (r.Null? <==> size == 0)
      ensures r.Fatal? <==> size > 0 && old(Dies(size, Alignment(size, align)))
      ensures r.At? ==> r.addr % 4 == 0 && (align == 16 ==> r.addr % 16 == 0)
      ensures r.At? && align != 4 && !(0 < align < 4) ==>
                (size > 4 ==> r.addr % 8 == 0) && (size > 8 ==> r.addr % 16 == 0)
      ensures !r.At? ==> Objs() == old(Objs())
      ensures r.At? ==>
                && k !in old(Objs()) && k in Objs() && Objs() == old(Objs())[k := Objs()[k]]
                && (forall j :: 0 <= j < |Objs()[k]| ==> Objs()[k][j] == 0)
                && k <= r.addr < k + Alignment(size, align) && Rem(r.addr, Alignment(size, align)) == 0
                && r.addr + size <= k + |Objs()[k]|
      ensures r.At? ==> Lengths() == old(LengthsFor(size, Alignment(size, align)))
      ensures r.At? && old(pages) == [] ==>
                && |pages| == 1 && pages[0].RestFree(0, size, Alignment(size, align), pages[0].mem.Length)
                && pages[0].mem.Length == AlignPage(PageSize(size + DSC_SZ + Alignment(size, align), MIN_PAGE))
    {
      hide PageInv, Objs, Fits, Pad, PageSize, Dies, Alignment, NoRoom, P.Page.HasRoom, AlignPage, AlignDsc,
           P.Page.RestFree, Lengths, LengthsFor, Valid, Rem;
      k := 0;
      if size == 0 {
        return Null, 0;
      }
      var a := Alignment(size, align);
      var ok, i, b := Room(size, a);
      if !ok {
        return Fatal, 0;
      }
      var addr;
      addr, k := ClaimOn(i, b, size, a);
      AddressAligned(addr, size, align);
      r := At(addr);
    }

    static lemma AddressAligned(addr: int, size: nat, align: int)
      requires Rem(addr, Alignment(size, align)) == 0
      ensures addr % 4 == 0 && (align == 16 ==> addr % 16 == 0)
      ensures align != 4 && !(0 < align < 4) ==> (size > 4 ==> addr % 8 == 0) && (size > 8 ==> addr % 16 == 0)
    {
      if addr % 16 == 0 {
        assert addr == 8 * (2 * (addr / 16));
      }
      if addr % 8 == 0 {
        assert addr == 4 * (2 * (addr / 8));
      }
    }

    /** Drops the last page if no object needs it. */
    method DropLast()
      requires Valid() && |pages| > 0
      modifies this
      ensures Valid() && Objs() == old(Objs())
      ensures pages == old(if pages[|pages| - 1].used == 0 then pages[..|pages| - 1] else pages)
    {
      hide PageInv, AllObjects, Chained, ViewOk, PageObjects, I2;
      var p := pages[|pages| - 1];
      if p.used == 0 {
        ghost var vs := Views();
        ValidChained();
        UsedBytes(p.mem[..], p.used, p.freePtr, p.lfreePtr, p.B, p.F);
        pages := pages[..|pages| - 1];
        ValidChained();
        assert vs[..|pages|] == Views();
        SamePages(Views(), vs);
      }
    }

    /** Drops the pages from `i` on that no object needs, last one first. */
    method FreeVmpage(i: nat)
      requires Valid()
      modifies this
      ensures Valid() && Objs() == old(Objs())
      ensures pages <= old(pages) && (|pages| > i ==> pages[|pages| - 1].used != 0)
      ensures |pages| < |old(pages)|
              ==> |pages| >= i && forall j :: |pages| <= j < |old(pages)| ==> old(pages)[j].used == 0
      decreases |pages| - i
    {
      hide PageInv, Objs;
      if i < |pages| {
        FreeVmpage(i + 1);
        if |pages| == i + 1 {
          DropLast();
        }
      }
    }

    /** The block in use that holds the segment offset `n`. */
    method FindVmb(n: int) returns (found: bool, i: nat, a: int)
      requires Valid()
      ensures found ==>
                && i < |pages| && a in pages[i].B - pages[i].F && InPage(pages[i].mem[..], pages[i].B)
                && pages[i].base + a + DSC_SZ <= n < pages[i].base + End(pages[i].mem[..], a)
      ensures !found ==> forall k <- Objs() :: !(k <= n < k + |Objs()[k]|)
    {
      hide PageInv, AllObjects, PageObjects, ViewOk;
      ValidChained();
      i, a := 0, 0;
      while i < |pages| && n > pages[i].base + pages[i].mem.Length
        invariant i <= |pages|
        invariant forall j :: 0 <= j < i ==> n > pages[j].base + pages[j].mem.Length
      {
        i := i + 1;
      }
      if i < |pages| {
        pages[i].LastFree();
        found, a := pages[i].FindBlock(n - pages[i].base);
      } else {
        found := false;
      }
      if !found {
        forall k | k in Objs() ensures !(k <= n < k + |Objs()[k]|) {
          NotOn(n, i, k);
        }
      }
    }

    lemma NotOn(n: int, i: nat, k: int)
      requires Valid() && Chained(Views()) && k in Objs() && i <= |pages|
      requires forall j :: 0 <= j < i ==> n > pages[j].base + pages[j].mem.Length
      requires i < |pages| ==> n <= pages[i].base + pages[i].mem.Length
      requires i < |pages| ==> InPage(pages[i].mem[..], pages[i].B)
      requires i < |pages| ==> var p := pages[i];
                 forall o <- p.B - p.F :: !(o + DSC_SZ <= n - p.base < End(p.mem[..], o))
      ensures !(k <= n < k + |Objs()[k]|)
    {
      hide PageInv, AllObjects, PageObjects;
      var vs := Views();
      var j := PageOf(vs, k);
      ObjectAt(vs, j, k);
      PageObjectAt(vs[j], k);
      if j > i {
        Below(vs, i, j);
      }
    }

    /** What a found block means for the objects. */
    lemma FoundObject(i: nat, a: int)
      requires Valid() && i < |pages| && a in pages[i].B - pages[i].F && InPage(pages[i].mem[..], pages[i].B)
      ensures var k := pages[i].base + a + DSC_SZ;
              && k in Objs() && k + |Objs()[k]| == pages[i].base + End(pages[i].mem[..], a)
              && a + FDS_SZ <= End(pages[i].mem[..], a) <= pages[i].mem.Length
    {
      hide PageInv, AllObjects, PageObjects, ViewOk, I2;
      ValidChained();
      ChainedAt(Views(), i);
      PageObjectAt(Views()[i], pages[i].base + a + DSC_SZ);
      ObjectAt(Views(), i, pages[i].base + a + DSC_SZ);
      UsedBlockBounds(pages[i].mem[..], pages[i].used, pages[i].freePtr, pages[i].lfreePtr, pages[i].B, pages[i].F, a);
    }

    /** Frees the block `a` of page `i`. */
    method FreeOn(i: nat, a: int) returns (ghost k: int)
      requires Valid() && i < |pages| && a in pages[i].B - pages[i].F && InPage(pages[i].mem[..], pages[i].B)
      modifies pages[i], pages[i].mem
      ensures Valid() && forall p <- pages :: p.mem == old(p.mem)
      ensures k == old(pages[i].base) + a + DSC_SZ && k in old(Objs()) && Objs() == old(Objs()) - {k}
      ensures k + |old(Objs())[k]| == old(pages[i].base + End(pages[i].mem[..], a))
    {
      hide Valid, PageInv, Objs, JoinedFrom, JoinStart, Chained, SameBlocks, Kept, Coalesced, Missed;
      var p := pages[i];
      ValidChained();
      PageOk(i);
      OnPage(i, a);
      p.LastFree();
      PendInv(p.mem[..], p.used, p.freePtr, p.lfreePtr, p.B, p.F, a);
      UsedBlockBounds(p.mem[..], p.used, p.freePtr, p.lfreePtr, p.B, p.F, a);
      k := p.base + a + DSC_SZ;
      ghost var m, L := p.mem[..], p.B - p.F - {a};
      ghost var _ := p.InsertFvmb(a);
      assert p.B - p.F - {a} == L;
      SameKept(m, p.mem[..], L);
      OneChanged((i, a, k));
    }

    /** Frees the object that holds `ptr`, and pages at the end that hold none. */
    method VmFree(ptr: nat) returns (r: Outcome, ghost k: int)
      requires Valid()
      modifies this, pages, set p | p in pages :: p.mem
      ensures Valid() && !r.Outside?
      ensures var n := ptr % SEGMENT_LIMIT;
              && (r.Null? <==> n == 0)
              && (r.Fatal? <==> n != 0 && forall x <- old(Objs()) :: !(x <= n < x + |old(Objs())[x]|))
              && (r.At? ==> k in old(Objs()) && k <= n < k + |old(Objs())[k]| && Objs() == old(Objs()) - {k})
      ensures !r.At? ==> Objs() == old(Objs())
    {
      hide PageInv, Objs, Chained;
      k := 0;
      var n := ptr % SEGMENT_LIMIT;
      if n == 0 {
        return Null, 0;
      }
      var found, i, a := FindVmb(n);
      if !found {
        return Fatal, 0;
      }
      k := FreeOn(i, a);
      r := At(ptr);
      FreeVmpage(if i == 0 then 0 else i + 1);
    }

    /** Bytes that are alike up to the nearer end. */
    static lemma AlikePrefix(m: seq<Byte>, r: seq<Byte>, lo: int, hi: int, end: int)
      requires 0 <= lo <= hi <= end <= |r| && hi <= |m| && forall j :: lo <= j < hi ==> m[j] == r[j]
      ensures m[lo .. hi] <= r[lo .. end]
    {
      assert r[lo .. end][..hi - lo] == r[lo .. hi];
      assert m[lo .. hi] == r[lo .. hi];
    }

    /** Ends the used block `a` of page `i` behind the page offset `off`. */
    method ShrinkOn(i: nat, a: int, off: int) returns (ghost k: int)
      requires Valid() && i < |pages| && a in pages[i].B - pages[i].F && InPage(pages[i].mem[..], pages[i].B)
      requires a + DSC_SZ < off <= End(pages[i].mem[..], a)
      modifies pages[i], pages[i].mem
      ensures Valid() && forall p <- pages :: p.mem == old(p.mem)
      ensures k == old(pages[i].base) + a + DSC_SZ && k in old(Objs()) && k in Objs()
      ensures Objs() == old(Objs())[k := Objs()[k]] && Objs()[k] <= old(Objs())[k]
      ensures off - a - DSC_SZ <= |Objs()[k]| && |old(Objs())[k]| == old(End(pages[i].mem[..], a)) - a - DSC_SZ
      ensures |Objs()[k]| == if AlignDsc(off) + FDS_SZ < old(End(pages[i].mem[..], a)) then AlignDsc(off) - a - DSC_SZ
                             else |old(Objs())[k]|
    {
      hide Valid, PageInv, Objs, AlignDsc, Chained, SameBlocks, Kept, ObjectOn, I2;
      var p := pages[i];
      ValidChained();
      PageOk(i);
      OnPage(i, a);
      p.LastFree();
      k := p.base + a + DSC_SZ;
      BytesOf(i, a, k);
      ghost var m, S, e := p.mem[..], p.B - p.F, End(p.mem[..], a);
      p.SplitVmb(a, off);
      assert p.B - p.F == S && a in S;
      SameKept(m, p.mem[..], S - {a});
      OneChanged((i, a, k));
      BytesOf(i, a, k);
      AlikePrefix(p.mem[..], m, a + DSC_SZ, End(p.mem[..], a), e);
    }

    /** Appends the free block behind the used block `a` of page `i` to it. */
    method ExtendOn(i: nat, a: int) returns (ghost k: int)
      requires Valid() && i < |pages| && a in pages[i].B - pages[i].F && InPage(pages[i].mem[..], pages[i].B)
      requires End(pages[i].mem[..], a) in pages[i].F
      modifies pages[i], pages[i].mem
      ensures Valid() && forall p <- pages :: p.mem == old(p.mem)
      ensures k == old(pages[i].base) + a + DSC_SZ && k in old(Objs()) && k in Objs()
      ensures Objs() == old(Objs())[k := Objs()[k]] && old(Objs())[k] <= Objs()[k]
      ensures |old(Objs())[k]| == old(End(pages[i].mem[..], a)) - a - DSC_SZ
      ensures |Objs()[k]| == old(End(pages[i].mem[..], End(pages[i].mem[..], a))) - a - DSC_SZ
    {
      hide Valid, PageInv, Objs, Chained, SameBlocks, Kept, ObjectOn, I2;
      var p := pages[i];
      ValidChained();
      PageOk(i);
      OnPage(i, a);
      p.LastFree();
      k := p.base + a + DSC_SZ;
      BytesOf(i, a, k);
      ghost var m, S, e := p.mem[..], p.B - p.F, End(p.mem[..], a);
      p.Extend(a);
      assert p.B - p.F == S && a in S;
      SameKept(m, p.mem[..], S - {a});
      OneChanged((i, a, k));
      BytesOf(i, a, k);
      AlikePrefix(m, p.mem[..], a + DSC_SZ, e, End(p.mem[..], a));
    }

    /** The page and page offset that an address resolves to. */
    method VPointer(n: int, ghost k: int) returns (i: nat, off: int)
      requires Valid() && k in Objs() && k <= n < k + |Objs()[k]|
      ensures i < |pages| && off == n - pages[i].base && ObjectOn(i, k) && 0 <= off < pages[i].mem.Length
    {
      hide PageInv, AllObjects, PageObjects, ViewOk;
      ValidChained();
      ghost var j := PageOf(Views(), k);
      ObjectAt(Views(), j, k);
      ChainedAt(Views(), j);
      PageObjectAt(Views()[j], k);
      i := 0;
      while n > pages[i].base + pages[i].mem.Length
        invariant 0 <= i <= j
        decreases j - i
      {
        i := i + 1;
      }
      if i < j {
        Below(Views(), i, j);
      }
      off := n - pages[i].base;
      pages[i].LastFree();
      LiveBounds(Views()[i], k - pages[i].base - DSC_SZ);
    }

    /** Copies bytes into the object at `l` on page `j`. */
    method PasteOn(j: nat, to: nat, ghost l: int, src: array<Byte>, off: nat, cnt: nat)
      requires Valid() && ObjectOn(j, l) && off + cnt <= src.Length
      requires l <= pages[j].base + to && pages[j].base + to + cnt <= l + |Objs()[l]|
      requires src == pages[j].mem ==> off + cnt <= to || to + cnt <= off
      modifies pages[j].mem
      ensures Valid() && l in Objs() && Objs() == old(Objs())[l := Objs()[l]] && |Objs()[l]| == |old(Objs())[l]|
      ensures HasBytes(Objs()[l], pages[j].base + to - l, old(src[off .. off + cnt]))
    {
      hide Valid, PageInv, Objs, I2, Pasted, Chained, Kept, HasBytes;
      ghost var a := l - pages[j].base - DSC_SZ;
      var dst := pages[j];
      ghost var md, s := dst.mem[..], src[off .. off + cnt];
      ValidChained();
      PageOk(j);
      BytesOf(j, a, l);
      dst.Paste(a, to, src, off, cnt);
      OneChanged((j, a, l));
      BytesOf(j, a, l);
      PastedHas(md, to, s, a + DSC_SZ, End(md, a));
    }

    /** The bytes `s` lie at `d` in `o`. */
    static ghost predicate HasBytes(o: seq<Byte>, d: int, s: seq<Byte>) {
      0 <= d && d + |s| <= |o| && o[d .. d + |s|] == s
    }

    static lemma PastedHas(m: seq<Byte>, to: nat, s: seq<Byte>, lo: nat, hi: nat)
      requires lo <= to && to + |s| <= hi <= |m|
      ensures HasBytes(Pasted(m, to, s)[lo .. hi], to - lo, s)
    {
      PastedSlice(m, to, s, lo, hi);
    }

    /** Copies `cnt` bytes of the object at `k` on page `i` into the object at `l` on page `j`. */
    method CopyBytes(i: nat, off: nat, ghost k: int, j: nat, to: nat, ghost l: int, cnt: nat)
      requires Valid() && i < |pages| && j < |pages| && ObjectOn(i, k) && ObjectOn(j, l) && k != l
      requires k in Objs() && k <= pages[i].base + off && pages[i].base + off + cnt <= k + |Objs()[k]|
      requires l in Objs() && l <= pages[j].base + to && pages[j].base + to + cnt <= l + |Objs()[l]|
      modifies pages[j].mem
      ensures Valid() && l in Objs() && Objs() == old(Objs())[l := Objs()[l]] && |Objs()[l]| == |old(Objs())[l]|
      ensures var d, e := pages[j].base + to - l, pages[i].base + off - k;
              Objs()[l][d .. d + cnt] == old(Objs())[k][e .. e + cnt]
    {
      hide Objs, Valid, ObjectOn;
      Source(i, off, k, cnt);
      Apart(i, off, k, j, to, l, cnt);
      PasteOn(j, to, l, pages[i].mem, off, cnt);
    }

    lemma Source(i: nat, off: nat, k: int, cnt: nat)
      requires ObjectOn(i, k) && k <= pages[i].base + off && pages[i].base + off + cnt <= k + |Objs()[k]|
      ensures off + cnt <= pages[i].mem.Length
      ensures var e := pages[i].base + off - k; Objs()[k][e .. e + cnt] == pages[i].mem[off .. off + cnt]
    {
      hide Objs, I2;
      var m, b := pages[i].mem[..], k - pages[i].base - DSC_SZ;
      SliceSlice(m, b + DSC_SZ, End(m, b), off, cnt);
    }

    lemma Apart(i: nat, off: nat, k: int, j: nat, to: nat, l: int, cnt: nat)
      requires Valid() && i < |pages| && j < |pages| && ObjectOn(i, k) && ObjectOn(j, l) && k != l
      requires k <= pages[i].base + off && pages[i].base + off + cnt <= k + |Objs()[k]|
      requires l <= pages[j].base + to && pages[j].base + to + cnt <= l + |Objs()[l]|
      ensures pages[i].mem == pages[j].mem ==> off + cnt <= to || to + cnt <= off
    {
      hide PageInv, AllObjects, PageObjects, ViewOk, I2;
      ValidChained();
      if k < l {
        Separate(Views(), k, l);
      } else {
        Separate(Views(), l, k);
      }
    }

    /** A block in use has its bytes from `k` on, on page `i`. */
    ghost predicate LiveOn(i: nat, k: int)
      reads this, pages
    {
      i < |pages| && var p := pages[i]; k - p.base - DSC_SZ in p.B - p.F
    }

    /** Frees the object at `k`, which lies on page `i`. */
    method FreeObject(i: nat, k: int)
      requires Valid() && LiveOn(i, k)
      modifies pages[i], pages[i].mem
      ensures Valid() && Objs() == old(Objs()) - {k}
    {
      hide PageInv, Objs, I2;
      pages[i].LastFree();
      ghost var _ := FreeOn(i, k - pages[i].base - DSC_SZ);
    }

    /** Copies `cnt` bytes at `n` in the object at `k` to `addr` in the object at `l`, and frees
        the object at `k`. */
    method Transfer(n: nat, k: int, addr: nat, ghost l: int, cnt: nat)
      requires Valid() && k in Objs() && l in Objs() && k != l && cnt > 0
      requires k <= n && n + cnt <= k + |Objs()[k]| && l <= addr && addr + cnt <= l + |Objs()[l]|
      modifies pages, set p | p in pages :: p.mem
      ensures Valid() && k !in Objs() && l in Objs() && Objs() == old(Objs())[l := Objs()[l]] - {k}
      ensures |Objs()[l]| == |old(Objs())[l]|
      ensures Objs()[l][addr - l .. addr - l + cnt] == old(Objs())[k][n - k .. n - k + cnt]
    {
      hide PageInv, Objs, I2, ObjectOn, Valid;
      var i, off := VPointer(n, k);
      ObjectLive(i, k);
      var j, to := VPointer(addr, l);
      CopyBytes(i, off, k, j, to, l, cnt);
      FreeObject(i, k);
    }

    /** Allocates a new object, moves what lies from `n` on in the object at `k` there, and frees
        that one. */
    method Move(n: nat, k: int, mode: int, newSize: nat, cnt: nat) returns (r: Outcome, ghost l: int)
      requires Valid() && k in Objs() && k <= n && 0 < cnt < newSize && n + cnt == k + |Objs()[k]|
      modifies this, pages, set p | p in pages :: p.mem
      ensures Valid() && r != Null && (r.Fatal? <==> old(Dies(newSize, Alignment(newSize, mode))))
      ensures r.Outside? ==> r.addr >= SEGMENT_LIMIT && Allocated(old(Objs()), Objs(), r.addr, newSize, l)
      ensures r.At? ==> r.addr % 4 == 0 && (mode == 16 ==> r.addr % 16 == 0)
      ensures r.At? ==>
                && l !in old(Objs()) && l in Objs() && Objs() == (old(Objs()) - {k})[l := Objs()[l]]
                && l <= r.addr && 0 <= r.addr < SEGMENT_LIMIT && r.addr + newSize <= l + |Objs()[l]|
                && Objs()[l][r.addr - l .. r.addr - l + cnt] == old(Objs())[k][n - k ..]
    {
      hide Valid, PageInv, Objs, Alignment, I2, Dies, Rem, Lengths, LengthsFor, PageSize, AlignPage;
      r, l := ObAlloc(newSize, mode);
      if !r.At? {
        return;
      }
      if r.addr >= SEGMENT_LIMIT {
        r := Outside(r.addr);
        return;
      }
      ghost var X, Y := old(Objs()), Objs();
      assert l >= 0 && k in Y && Y[k] == X[k] by { Positive(l); }
      Transfer(n, k, r.addr, l, cnt);
      assert X[k][n - k ..] == X[k][n - k .. n - k + cnt];
      MoveMap(X, Y, Objs(), k, l);
    }

    lemma ObjectLive(i: nat, k: int)
      requires ObjectOn(i, k)
      ensures LiveOn(i, k)
    {}

    lemma Positive(l: int)
      requires Valid() && l in Objs()
      ensures l >= 0
    {
      hide PageInv, AllObjects, PageObjects, ViewOk;
      ValidChained();
      var j := PageOf(Views(), l);
      ChainedAt(Views(), j);
      PageObjectAt(Views()[j], l);
    }

    /** One object was added, at `l`, with room for `size` bytes at `addr`. */
    static ghost predicate Allocated(X: Objects, Y: Objects, addr: int, size: nat, l: int) {
      l !in X && l in Y && Y == X[l := Y[l]] && l <= addr && addr + size <= l + |Y[l]|
    }

    static lemma MoveMap(X: Objects, Y: Objects, Z: Objects, k: int, l: int)
      requires k in X && l !in X && l in Y && Y == X[l := Y[l]] && l in Z && Z == Y[l := Z[l]] - {k}
      ensures Z == (X - {k})[l := Z[l]]
    {
      assert Z == (X - {k})[l := Z[l]];
    }

    /** Makes the object in block `a` of page `i` end `newSize` bytes behind offset `n`, if that is
        worth a free block. */
    method Shorten(i: nat, a: int, n: int, newSize: nat, ghost k: int) returns (r: Outcome)
      requires Valid() && i < |pages| && a in pages[i].B - pages[i].F && InPage(pages[i].mem[..], pages[i].B)
      requires k == pages[i].base + a + DSC_SZ && k in Objs() && k <= n
      requires n + newSize + FDS_SZ <= k + |Objs()[k]| == pages[i].base + End(pages[i].mem[..], a)
      modifies pages[i], pages[i].mem
      ensures Valid() && (r.At? || r.Fatal?)
      ensures r.At? ==> r.addr == n && Reallocated(old(Objs()), Objs(), n, n, newSize, k, k)
      ensures r.Fatal? <==> newSize == 0 && n == k && |old(Objs())[k]| > FDS_SZ
    {
      hide PageInv, Objs, I2, Reallocated, AlignDsc;
      ghost var X := Objs();
      var p := pages[i];
      var off := n - p.base;
      if off + newSize > a + DSC_SZ {
        ghost var _ := ShrinkOn(i, a, off + newSize);
        InPlace(X, Objs(), n, newSize, k);
      } else if p.Get(a) > FDS_SZ {
        return Fatal;   // the block would be left without a byte
      } else {
        InPlace(X, X, n, newSize, k);
      }
      r := At(n);
    }

    /** Appends the free block behind, which gives enough bytes. */
    method Append(i: nat, a: int, n: nat, newSize: nat, ghost k: int)
      requires Valid() && i < |pages| && a in pages[i].B - pages[i].F && InPage(pages[i].mem[..], pages[i].B)
      requires k == pages[i].base + a + DSC_SZ && k in Objs() && k <= n < k + |Objs()[k]|
      requires k + |Objs()[k]| == pages[i].base + End(pages[i].mem[..], a)
      requires Extensible(i, a, newSize - (k + |Objs()[k]| - n))
      modifies pages[i], pages[i].mem
      ensures Valid() && Reallocated(old(Objs()), Objs(), n, n, newSize, k, k)
    {
      hide PageInv, Objs, I2, Reallocated, Valid, Extensible;
      ghost var X := Objs();
      ExtensibleFree(i, a, newSize - (k + |X[k]| - n));
      ghost var _ := ExtendOn(i, a);
      InPlace(X, Objs(), n, newSize, k);
    }

    /** Gives the object in block `a` of page `i` more bytes, so that `newSize` lie behind `n`. */
    method Lengthen(i: nat, a: int, n: nat, newSize: nat, k: int) returns (r: Outcome, ghost l: int)
      requires Valid() && i < |pages| && a in pages[i].B - pages[i].F && InPage(pages[i].mem[..], pages[i].B)
      requires k == pages[i].base + a + DSC_SZ && k in Objs() && k <= n < k + |Objs()[k]| < n + newSize
      requires k + |Objs()[k]| == pages[i].base + End(pages[i].mem[..], a) && n < SEGMENT_LIMIT
      modifies this, pages, set p | p in pages :: p.mem
      ensures Valid() && !r.Null?
      ensures r.Fatal? <==> old(LengthenDies(i, a, newSize - (k + |Objs()[k]| - n), newSize))
      ensures r.Outside? ==> r.addr >= SEGMENT_LIMIT && Allocated(old(Objs()), Objs(), r.addr, newSize, l)
      ensures r.At? ==> 0 <= r.addr < SEGMENT_LIMIT && (l == k ==> r.addr == n)
                        && Reallocated(old(Objs()), Objs(), n, r.addr, newSize, k, l)
    {
      hide PageInv, Objs, I2, Reallocated, Valid, Extensible, Dies, Alignment, Allocated;
      ghost var X := Objs();
      var p := pages[i];
      var oldSize := k + p.Get(a) - n;
      if Extensible(i, a, newSize - oldSize) {
        Append(i, a, n, newSize, k);
        return At(n), k;
      }
      r, l := Move(n, k, p.Get(a + 2), newSize, oldSize);
      if r.At? {
        Moved(X, Objs(), n, r.addr, newSize, k, l);
      }
    }

    /** Gives the object bytes that start at `ptr` the size `newSize`: in place when they shrink or
        the block behind is free and large enough, else by moving them. */
    method VmRealloc(ptr: nat, newSize: nat) returns (r: Outcome, ghost k: int, ghost l: int, i: nat, a: int)
      requires Valid()
      modifies this, pages, set p | p in pages :: p.mem
      ensures Valid()
      ensures var n := ptr % SEGMENT_LIMIT;
              n != 0 && r.At? ==>
                Reallocated(old(Objs()), Objs(), n, r.addr % SEGMENT_LIMIT, newSize, k, l) && (k == l ==> r.addr == ptr)
      ensures var n := ptr % SEGMENT_LIMIT;
              n != 0 ==>
                if forall x <- old(Objs()) :: !(x <= n < x + |old(Objs())[x]|) then r.Fatal?
                else old(Held(i, a, n)) && !r.Null? && (r.Fatal? <==> old(ReallocDies(i, a, n, newSize)))
      ensures var n := ptr % SEGMENT_LIMIT;
              n != 0 && r.Outside? ==> r.addr >= SEGMENT_LIMIT && Allocated(old(Objs()), Objs(), r.addr, newSize, l)
      ensures ptr % SEGMENT_LIMIT == 0 ==>
                && !r.Outside? && (r.Null? <==> newSize == 0)
                && (r.Fatal? <==> newSize > 0 && old(Dies(newSize, Alignment(newSize, 0))))
                && (r.At? ==> l !in old(Objs()) && l in Objs() && Objs() == old(Objs())[l := Objs()[l]]
                              && l <= r.addr && r.addr + newSize <= l + |Objs()[l]|
                              && r.addr % 4 == 0 && (newSize > 4 ==> r.addr % 8 == 0)
                              && (newSize > 8 ==> r.addr % 16 == 0))
    {
      hide PageInv, Objs, I2, Reallocated, Valid, Dies, Extended, Allocated, Extensible;
      k, l, i, a := 0, 0, 0, 0;
      var n := ptr % SEGMENT_LIMIT;
      if n == 0 {
        r, l := ObAlloc(newSize, 0);
        return;
      }
      ghost var X := Objs();
      var found;
      found, i, a := FindVmb(n);
      assert Objs() == X;
      if !found {
        r := Fatal;
        return;
      }
      FoundObject(i, a);
      var start := pages[i].base + a + DSC_SZ;
      k, l := start, start;
      var oldSize := start + pages[i].Get(a) - n;
      if newSize + FDS_SZ <= oldSize {
        r := Shorten(i, a, n, newSize, k);
      } else if newSize > oldSize {
        r, l := Lengthen(i, a, n, newSize, start);
      } else {
        InPlace(X, X, n, newSize, k);
        r := At(ptr);
      }
      if r.At? && r.addr == n {
        r := At(ptr);
      }
    }

    /** The block `a` of page `i` is in use and its bytes contain the segment offset `n`. */
    ghost predicate Held(i: nat, a: int, n: int)
      reads this, pages, set p | p in pages :: p.mem
    {
      && i < |pages| && a in pages[i].B - pages[i].F && InPage(pages[i].mem[..], pages[i].B)
      && pages[i].base + a + DSC_SZ <= n < pages[i].base + End(pages[i].mem[..], a)
    }

    /** At most one block holds a segment offset. */
    lemma HeldOnce(i: nat, a: int, j: nat, b: int, n: int)
      requires Valid() && Held(i, a, n) && Held(j, b, n)
      ensures i == j && a == b
    {
      hide PageInv, AllObjects, PageObjects, ViewOk, I2, Valid;
      ValidChained();
      FoundObject(i, a);
      FoundObject(j, b);
      var k, l := pages[i].base + a + DSC_SZ, pages[j].base + b + DSC_SZ;
      if k < l {
        Separate(Views(), k, l);
      } else if l < k {
        Separate(Views(), l, k);
      } else {
        SamePage(Views(), i, j, k);
      }
    }

    /** No free block behind gives the `more` bytes, and getting a new block ends the process. */
    ghost predicate LengthenDies(i: nat, a: int, more: int, newSize: nat)
      requires Valid() && i < |pages| && a in pages[i].B - pages[i].F && InPage(pages[i].mem[..], pages[i].B)
      reads this, pages, set p | p in pages :: p.mem
    {
      !Extensible(i, a, more) && Dies(newSize, Alignment(newSize, pages[i].Get(a + 2)))
    }

    /** Reallocating what starts at `n` in the block `a` ends the process: nothing would be left of the
        block, or the bytes behind `n` are too few and there is no room. */
    ghost predicate ReallocDies(i: nat, a: int, n: int, newSize: nat)
      requires Valid() && Held(i, a, n)
      reads this, pages, set p | p in pages :: p.mem
    {
      var start, end := pages[i].base + a + DSC_SZ, pages[i].base + End(pages[i].mem[..], a);
      || (newSize == 0 && n == start && end - start > FDS_SZ)
      || (newSize > end - n && LengthenDies(i, a, newSize - (end - n), newSize))
    }

    /** The block behind the used block `a` is free and gives at least `more` bytes. */
    predicate Extensible(i: nat, a: int, more: int)
      requires i < |pages| && InPage(pages[i].mem[..], pages[i].B) && a in pages[i].B
      reads this, pages, set p | p in pages :: p.mem
    {
      var p := pages[i];
      var b := a + DSC_SZ + p.Get(a);
      && 0 <= b <= p.mem.Length - FDS_SZ && p.Get(b + 2) == 0 && more <= DSC_SZ + p.Get(b)
    }

    static lemma InPlace(X: Objects, Y: Objects, n: int, newSize: nat, k: int)
      requires k in X && k <= n < k + |X[k]| && k in Y && Y == X[k := Y[k]] && (X[k] <= Y[k] || Y[k] <= X[k])
      requires n + newSize <= k + |Y[k]|
      ensures Reallocated(X, Y, n, n, newSize, k, k)
    {
      assert Y == (X - {k})[k := Y[k]];
      var cnt := if newSize < k + |X[k]| - n then newSize else k + |X[k]| - n;
      assert Y[k][n - k .. n - k + cnt] == X[k][n - k .. n - k + cnt];
    }

    static lemma Moved(X: Objects, Y: Objects, n: int, n2: int, newSize: nat, k: int, l: int)
      requires k in X && k <= n < k + |X[k]| && newSize > k + |X[k]| - n && l !in X && l in Y
      requires Y == (X - {k})[l := Y[l]] && l <= n2 && n2 + newSize <= l + |Y[l]|
      requires Y[l][n2 - l .. n2 - l + (k + |X[k]| - n)] == X[k][n - k ..]
      ensures Reallocated(X, Y, n, n2, newSize, k, l)
    {
      assert X[k][n - k ..] == X[k][n - k .. n - k + (k + |X[k]| - n)];
    }

    lemma ExtensibleFree(i: nat, a: int, more: int)
      requires Valid() && i < |pages| && a in pages[i].B - pages[i].F && InPage(pages[i].mem[..], pages[i].B)
      requires Extensible(i, a, more)
      ensures var m, b := pages[i].mem[..], End(pages[i].mem[..], a);
              b in pages[i].F && 0 <= b <= |m| - FDS_SZ && End(m, b) >= b + more
    {
      hide I2, Threaded, Bytes;
      NextBlock(pages[i].mem[..], pages[i].B, a);
    }

    /** The object at `k` became the object at `l`: the bytes from `n` on, as far as old and new size
        both reach, lie at `n2` in it, there is room for the new size, and no other object changed. */
    static ghost predicate Reallocated(X: Objects, Y: Objects, n: int, n2: int, newSize: nat, k: int, l: int) {
      && k in X && k <= n < k + |X[k]| && l in Y && (l == k || l !in X)
      && Y == (X - {k})[l := Y[l]]
      && l <= n2 && n2 + newSize <= l + |Y[l]|
      && var cnt := if newSize < k + |X[k]| - n then newSize else k + |X[k]| - n;
         Y[l][n2 - l .. n2 - l + cnt] == X[k][n - k .. n - k + cnt]
    }
  }

  /** So it does after a first object of 24000 bytes, when one of 9000 is asked for. */
  method LongerPageReached() returns (first: Outcome, second: Outcome)
    ensures first.At? && second.Fatal?
  {
    hide PageInv, I2, Segment.Objs, P.Page.Inv;
    var s := new Segment();
    assert PageSize(24000 + DSC_SZ + PAGE_ALIGN, MIN_PAGE) == 0x8000 by {
      assert PageSize(24020, 0x2000) == PageSize(24020, 0x4000);
      assert PageSize(24020, 0x4000) == PageSize(24020, 0x8000);
    }
    assert !s.Dies(24000, PAGE_ALIGN);
    hide PageSize;
    ghost var k;
    first, k := s.ObAlloc(24000, PAGE_ALIGN);
    assert Alignment(24000, PAGE_ALIGN) == PAGE_ALIGN;
    StartShape();
    hide AlignDsc, AlignPage, Pad;
    s.LongerPageDies();
    second, k := s.ObAlloc(9000, PAGE_ALIGN);
  }

  lemma StartShape()
    ensures AlignDsc(DSC_SZ + Pad(DSC_SZ, PAGE_ALIGN) + 24000) == 24016 && AlignPage(0x8000) == 0x8000
  {
    assert Rem(DSC_SZ, PAGE_ALIGN) == 4;
    assert Pad(DSC_SZ, PAGE_ALIGN) == 12;
    hide Pad, Rem;
    assert 24016 % DSC_SZ == 0;
  }
}
