/** The byte layout of one page of simulated virtual memory: block headers, the list of
    free blocks threaded through the page by relative 16-bit offsets, and its invariant. */
module PageLayout {
  import opened ByteType

  /** Size of a block descriptor (size, mode) and of a free block's one (size, mode, next, prev). */
  const DSC_SZ := 4
  const FDS_SZ := 8

  /** The first multiple of the descriptor size that is not below `x`. */
  function AlignDsc(x: int): (r: int)
    ensures x <= r < x + DSC_SZ && r % DSC_SZ == 0
  {
    if x % DSC_SZ == 0 then x else x + DSC_SZ - x % DSC_SZ
  }

  /** The widest machine type: pages come in whole multiples of it. */
  const PAGE_ALIGN := 16

  function AlignPage(x: int): (r: int)
    ensures x <= r < x + PAGE_ALIGN && r % PAGE_ALIGN == 0
  {
    if x % PAGE_ALIGN == 0 then x else x + PAGE_ALIGN - x % PAGE_ALIGN
  }

  /** The alignments the allocator works with. */
  type alignment = x: int | x == 4 || x == 8 || x == 16 witness 4

  function Rem(x: int, align: alignment): int {
    if align == 4 then x % 4 else if align == 8 then x % 8 else x % 16
  }

  /** How far behind `x` the next aligned offset lies. */
  function Pad(x: int, align: alignment): (r: int)
    ensures 0 <= r < align && Rem(x + r, align) == 0
  {
    PadAligns(x, align);
    if Rem(x, align) == 0 then 0 else align - Rem(x, align)
  }

  lemma PadAligns(x: int, align: alignment)
    ensures 0 <= Rem(x, align) < align && Rem(x + align - Rem(x, align), align) == 0
  {
    if align == 4 {
      PadAligns4(x);
    } else if align == 8 {
      PadAligns8(x);
    } else {
      PadAligns16(x);
    }
  }

  lemma PadAligns4(x: int)
    ensures (x + 4 - x % 4) % 4 == 0
  {}

  lemma PadAligns8(x: int)
    ensures (x + 8 - x % 8) % 8 == 0
  {}

  lemma PadAligns16(x: int)
    ensures (x + 16 - x % 16) % 16 == 0
  {}

  /** The free block at `a` has room for an aligned object of `size` bytes. */
  predicate Fits(m: seq<Byte>, a: int, size: nat, align: alignment)
    requires 0 <= a <= |m| - FDS_SZ
  {
    Sz(m, a) >= size + Pad(a + DSC_SZ, align)
  }

  /** That is, somewhere in its bytes an aligned object of the size lies whole. */
  lemma FitsIff(m: seq<Byte>, a: int, size: nat, align: alignment)
    requires 0 <= a <= |m| - FDS_SZ
    ensures Fits(m, a, size, align) <==> exists x :: a + DSC_SZ <= x && x % align == 0 && x + size <= End(m, a)
  {
    var d, r := a + DSC_SZ, Pad(a + DSC_SZ, align);
    if Fits(m, a, size, align) {
      assert Rem(d + r, align) == 0;
      assert (d + r) % align == 0 && d + r + size <= End(m, a);
    }
    forall x | d <= x && x % align == 0
      ensures d + r <= x
    {
      NextAligned(d, r, x, align);
    }
  }

  lemma NextAligned(d: int, r: int, x: int, align: alignment)
    requires d <= x && x % align == 0 && 0 <= r < align && Rem(d + r, align) == 0
    ensures d + r <= x
  {
    if align == 4 {
      Next4(d, r, x);
    } else if align == 8 {
      Next8(d, r, x);
    } else {
      Next16(d, r, x);
    }
  }

  lemma Next4(d: int, r: int, x: int)
    requires d <= x && x % 4 == 0 && 0 <= r < 4 && (d + r) % 4 == 0
    ensures d + r <= x
  {}

  lemma Next8(d: int, r: int, x: int)
    requires d <= x && x % 8 == 0 && 0 <= r < 8 && (d + r) % 8 == 0
    ensures d + r <= x
  {}

  lemma Next16(d: int, r: int, x: int)
    requires d <= x && x % 16 == 0 && 0 <= r < 16 && (d + r) % 16 == 0
    ensures d + r <= x
  {}

  /** Largest page whose single block still has a 16-bit size. */
  const MAX_PAGE := 0x7FFF + DSC_SZ

  predicate IsI2(v: int) { -0x8000 <= v < 0x8000 }

  /** The signed 16-bit number stored at `o`. */
  function I2(m: seq<Byte>, o: int): (v: int)
    requires 0 <= o <= |m| - 2
    ensures IsI2(v)
  {
    var lo: int, hi: int := m[o], m[o + 1];
    var u := lo + 256 * hi;
    if u >= 0x8000 then u - 0x1_0000 else u
  }

  function SetI2(m: seq<Byte>, o: int, v: int): (r: seq<Byte>)
    requires 0 <= o <= |m| - 2 && IsI2(v)
    ensures |r| == |m| && I2(r, o) == v
    ensures forall j :: 0 <= j < |m| && j != o && j != o + 1 ==> r[j] == m[j]
    ensures forall p {:trigger I2(r, p)} :: 0 <= p <= |m| - 2 && (p + 2 <= o || o + 2 <= p) ==> I2(r, p) == I2(m, p)
  {
    var u := if v < 0 then v + 0x1_0000 else v;
    m[o := u % 256][o + 1 := u / 256]
  }

  // Fields of the descriptor at `o`.
  function Sz(m: seq<Byte>, o: int): int requires 0 <= o <= |m| - FDS_SZ { I2(m, o) }
  function Md(m: seq<Byte>, o: int): int requires 0 <= o <= |m| - FDS_SZ { I2(m, o + 2) }
  function Nx(m: seq<Byte>, o: int): int requires 0 <= o <= |m| - FDS_SZ { I2(m, o + 4) }
  function Pv(m: seq<Byte>, o: int): int requires 0 <= o <= |m| - FDS_SZ { I2(m, o + 6) }

  /** First offset after the block at `o`. */
  function End(m: seq<Byte>, o: int): int requires 0 <= o <= |m| - FDS_SZ { o + DSC_SZ + Sz(m, o) }

  /** A block of the tiling `B` stands at `o`: room for the free-list links, size in whole
      descriptors, the next block right behind it, no other block inside it. */
  ghost predicate BlockOk(m: seq<Byte>, B: set<int>, o: int) {
    && 0 <= o <= |m| - FDS_SZ && o % DSC_SZ == 0
    && 4 <= Sz(m, o) && Sz(m, o) % DSC_SZ == 0 && End(m, o) <= |m|
    && (End(m, o) == |m| || End(m, o) in B)
    && forall p <- B :: o < p ==> End(m, o) <= p
  }

  /** The blocks starting at the offsets in `B` tile the page without gap or overlap. */
  ghost predicate Tiled(m: seq<Byte>, B: set<int>) {
    && |m| <= MAX_PAGE && |m| % DSC_SZ == 0
    && 0 in B
    && (forall o {:trigger BlockOk(m, B, o)} :: o in B ==> BlockOk(m, B, o))
  }

  ghost predicate InPage(m: seq<Byte>, S: set<int>) { forall o <- S :: 0 <= o <= |m| - FDS_SZ }

  ghost predicate IsMin(F: set<int>, o: int) { o in F && forall q <- F :: o <= q }
  ghost predicate IsMax(F: set<int>, o: int) { o in F && forall q <- F :: q <= o }
  /** `q` is the element of `F` that follows `o`. */
  ghost predicate IsSucc(F: set<int>, o: int, q: int) {
    o in F && q in F && o < q && forall r <- F :: r <= o || q <= r
  }

  /** `d` leads from `o` to the next (previous) element of `F`; 0 says there is none. */
  ghost predicate NextIs(F: set<int>, o: int, d: int) { if d == 0 then IsMax(F, o) else IsSucc(F, o, o + d) }
  ghost predicate PrevIs(F: set<int>, o: int, d: int) { if d == 0 then IsMin(F, o) else IsSucc(F, o + d, o) }

  ghost predicate Linked(m: seq<Byte>, F: set<int>, o: int) {
    0 <= o <= |m| - FDS_SZ && NextIs(F, o, Nx(m, o)) && PrevIs(F, o, Pv(m, o))
  }

  /** `F` is threaded by `next`/`prev` in strictly increasing address order between the two ends. */
  ghost predicate Threaded(m: seq<Byte>, F: set<int>, first: int, last: int) {
    && (forall o {:trigger Linked(m, F, o)} :: o in F ==> Linked(m, F, o))
    && Ends(F, first, last)
  }

  /** `free_ptr` and `lfree_ptr` point behind the descriptors of the first and the last free block. */
  ghost predicate Ends(F: set<int>, first: int, last: int) {
    || (F == {} && first == 0 && last == 0)
    || (IsMin(F, first - DSC_SZ) && IsMax(F, last - DSC_SZ))
  }

  lemma UnlinkNext(F: set<int>, a: int, da: int, x: int, dx: int)
    requires x != a && NextIs(F, a, da) && NextIs(F, x, dx)
    ensures NextIs(F - {a}, x, if x + dx != a then dx else if da == 0 then 0 else dx + da)
  {}

  lemma UnlinkPrev(F: set<int>, a: int, da: int, x: int, dx: int)
    requires x != a && PrevIs(F, a, da) && PrevIs(F, x, dx)
    ensures PrevIs(F - {a}, x, if x + dx != a then dx else if da == 0 then 0 else dx + da)
  {}

  lemma UnlinkEnds(F: set<int>, first: int, last: int, a: int, n: int, p: int)
    requires NextIs(F, a, n) && PrevIs(F, a, p) && Ends(F, first, last)
    ensures Ends(F - {a}, if p != 0 then first else if n == 0 then 0 else first + n,
                          if n != 0 then last else if p == 0 then 0 else last + p)
  {
    if n == 0 && p == 0 {
      assert forall q <- F :: a <= q <= a;
      assert F - {a} == {};
    }
  }

  /** In `r` the neighbours of `a` point at each other instead of at `a`. */
  ghost predicate Bridged(m: seq<Byte>, r: seq<Byte>, F: set<int>, a: int)
    requires |r| == |m| && InPage(m, F) && a in F
  {
    var n, p := Nx(m, a), Pv(m, a);
    && (forall x <- F :: x != a ==>
          Nx(r, x) == if p != 0 && x == a + p then (if n == 0 then 0 else Nx(m, x) + n) else Nx(m, x))
    && (forall x <- F :: x != a ==>
          Pv(r, x) == if n != 0 && x == a + n then (if p == 0 then 0 else Pv(m, x) + p) else Pv(m, x))
  }

  lemma UnlinkOne(m: seq<Byte>, r: seq<Byte>, F: set<int>, a: int, x: int)
    requires |r| == |m| && InPage(m, F) && a in F && x in F && x != a
    requires Linked(m, F, a) && Linked(m, F, x) && Bridged(m, r, F, a)
    ensures Linked(r, F - {a}, x)
  {
    hide I2;
    UnlinkNext(F, a, Nx(m, a), x, Nx(m, x));
    UnlinkPrev(F, a, Pv(m, a), x, Pv(m, x));
  }

  /** Bridging the two neighbours of `a` takes `a` off the list. */
  lemma Unlink(m: seq<Byte>, r: seq<Byte>, F: set<int>, first: int, last: int, a: int)
    requires |r| == |m| && Threaded(m, F, first, last) && a in F && InPage(m, F)
    requires Bridged(m, r, F, a)
    ensures var n, p := Nx(m, a), Pv(m, a);
            Threaded(r, F - {a}, if p != 0 then first else if n == 0 then 0 else first + n,
                                 if n != 0 then last else if p == 0 then 0 else last + p)
  {
    hide I2, NextIs, PrevIs, Bridged, Ends;
    assert Linked(m, F, a);
    UnlinkEnds(F, first, last, a, Nx(m, a), Pv(m, a));
    forall x | x in F - {a} ensures Linked(r, F - {a}, x) {
      assert Linked(m, F, x);
      UnlinkOne(m, r, F, a, x);
    }
  }

  /** Bytes taken by the blocks in `F` that start before `k`, descriptors included. */
  ghost function Bytes(m: seq<Byte>, F: set<int>, k: nat): int
    requires InPage(m, F)
  {
    if k == 0 then 0
    else (if k - 1 in F then DSC_SZ + Sz(m, k - 1) else 0) + Bytes(m, F, k - 1)
  }

  lemma {:induction false} BytesRemove(m: seq<Byte>, F: set<int>, o: int, k: nat)
    requires o in F && InPage(m, F)
    ensures Bytes(m, F, k) == Bytes(m, F - {o}, k) + (if o < k then DSC_SZ + Sz(m, o) else 0)
  {
    if k > 0 {
      BytesRemove(m, F, o, k - 1);
    }
  }

  lemma {:induction false} BytesFrame(m: seq<Byte>, m': seq<Byte>, F: set<int>, k: nat)
    requires |m| == |m'| && InPage(m, F) && forall q <- F :: Sz(m, q) == Sz(m', q)
    ensures Bytes(m, F, k) == Bytes(m', F, k)
  {
    if k > 0 {
      BytesFrame(m, m', F, k - 1);
    }
  }

  /** The page invariant that the allocator's own checkers walk: the blocks tile the page, the
      free list is exactly the blocks with mode 0, and used plus free bytes is the page size.
      The block `pend` (if it is a block) has been cut off but is still counted as used. */
  ghost predicate PageInv(m: seq<Byte>, used: int, first: int, last: int,
                          B: set<int>, F: set<int>, pend: int) {
    && Tiled(m, B)
    && F <= B && pend !in F && InPage(m, B)
    && (forall o <- F :: Md(m, o) == 0)
    && (forall o <- B :: o !in F && o != pend ==> Md(m, o) > 0)
    && Threaded(m, F, first, last)
    && used + Bytes(m, F, |m|) == |m|
  }

  /** The blocks in `S` are the same in both states, descriptor and contents. */
  ghost predicate SameBlocks(m: seq<Byte>, m': seq<Byte>, S: set<int>) {
    && |m| == |m'|
    && InPage(m, S)
    && (forall o <- S, j :: o <= j < End(m, o) && j < |m| ==> m'[j] == m[j])
  }

  /** Writing one descriptor field of the block at `s` leaves every other block as it was. */
  lemma WriteField(m: seq<Byte>, B: set<int>, s: int, f: int, v: int)
    requires Tiled(m, B) && InPage(m, B) && s in B && 0 <= f <= 6 && IsI2(v)
    ensures forall x <- B :: x != s ==> SameHeader(m, SetI2(m, s + f, v), x)
    ensures SameBlocks(m, SetI2(m, s + f, v), B - {s})
  {
    hide I2, SetI2;
    var r := SetI2(m, s + f, v);
    assert BlockOk(m, B, s);
    forall x | x in B && x != s
      ensures SameHeader(m, r, x)
      ensures forall j :: x <= j < End(m, x) && j < |m| ==> r[j] == m[j]
    {
      assert BlockOk(m, B, x);
    }
  }

  ghost predicate SameHeader(m: seq<Byte>, r: seq<Byte>, x: int)
    requires 0 <= x <= |m| - FDS_SZ && |r| == |m|
  {
    Sz(r, x) == Sz(m, x) && Md(r, x) == Md(m, x) && Nx(r, x) == Nx(m, x) && Pv(r, x) == Pv(m, x)
  }

  lemma TiledFrame(m: seq<Byte>, r: seq<Byte>, B: set<int>)
    requires Tiled(m, B) && InPage(m, B) && |r| == |m| && forall x <- B :: Sz(r, x) == Sz(m, x)
    ensures Tiled(r, B)
  {
    hide I2;
    forall o | o in B ensures BlockOk(r, B, o) {
      assert BlockOk(m, B, o);
    }
  }

  /** `prev` is the inverse of `next`. */
  lemma PrevInvertsNext(m: seq<Byte>, F: set<int>, first: int, last: int, o: int)
    requires Threaded(m, F, first, last) && o in F && 0 <= o <= |m| - FDS_SZ
    ensures Nx(m, o) != 0 ==> o + Nx(m, o) in F && Linked(m, F, o + Nx(m, o)) && Nx(m, o) > 0
                              && Pv(m, o + Nx(m, o)) == -Nx(m, o)
    ensures Pv(m, o) != 0 ==> o + Pv(m, o) in F && Linked(m, F, o + Pv(m, o)) && Pv(m, o) < 0
                              && Nx(m, o + Pv(m, o)) == -Pv(m, o)
  {
    hide I2;
    assert Linked(m, F, o);
    if Nx(m, o) != 0 {
      assert Linked(m, F, o + Nx(m, o));
    }
    if Pv(m, o) != 0 {
      assert Linked(m, F, o + Pv(m, o));
    }
  }

  /** The page with the two neighbours of the free block `a` pointing past it. */
  function Bypass(m: seq<Byte>, a: int): (r: seq<Byte>)
    requires 0 <= a <= |m| - FDS_SZ
    requires var n := Nx(m, a); n != 0 ==> 0 <= a + n <= |m| - FDS_SZ && IsI2(Pv(m, a + n) + Pv(m, a))
    requires var p := Pv(m, a); p != 0 ==> 0 <= a + p <= |m| - FDS_SZ && IsI2(Nx(m, a + p) + Nx(m, a))
    ensures |r| == |m|
  {
    var n, p := Nx(m, a), Pv(m, a);
    var m1 := if n == 0 then m else SetI2(m, a + n + 6, if p == 0 then 0 else Pv(m, a + n) + p);
    if p == 0 then m1 else SetI2(m1, a + p + 4, if n == 0 then 0 else Nx(m, a + p) + n)
  }

  lemma BypassInRange(m: seq<Byte>, F: set<int>, first: int, last: int, a: int)
    requires Threaded(m, F, first, last) && a in F && InPage(m, F)
    ensures var n := Nx(m, a); n != 0 ==> 0 <= a + n <= |m| - FDS_SZ && IsI2(Pv(m, a + n) + Pv(m, a))
    ensures var p := Pv(m, a); p != 0 ==> 0 <= a + p <= |m| - FDS_SZ && IsI2(Nx(m, a + p) + Nx(m, a))
    requires |m| <= MAX_PAGE
  {
    hide I2;
    PrevInvertsNext(m, F, first, last, a);
  }

  /** The same for a page that may have grown. */
  ghost predicate Kept(m: seq<Byte>, r: seq<Byte>, S: set<int>) {
    && |m| <= |r| && InPage(m, S)
    && (forall o <- S, j :: o <= j < End(m, o) && j < |m| ==> r[j] == m[j])
  }

  /** From `m` to `r` only link fields of blocks outside `S`, and perhaps the mode of `a`, changed. */
  ghost predicate Still(m: seq<Byte>, r: seq<Byte>, B: set<int>, S: set<int>, a: int) {
    && InPage(m, B) && Tiled(r, B) && SameBlocks(m, r, S)
    && forall x <- B :: Sz(r, x) == Sz(m, x) && (x != a ==> Md(r, x) == Md(m, x))
  }

  lemma Patch(m: seq<Byte>, r: seq<Byte>, B: set<int>, S: set<int>, a: int, s: int, f: int, v: int)
    requires Still(m, r, B, S, a) && S <= B && s in B - S && IsI2(v)
    requires f == 4 || f == 6 || (f == 2 && s == a)
    ensures Still(m, SetI2(r, s + f, v), B, S, a)
  {
    hide I2, SetI2;
    WriteField(r, B, s, f, v);
    TiledFrame(r, SetI2(r, s + f, v), B);
    forall x | x in S ensures End(m, x) == End(r, x) {}
  }

  lemma BypassFrame(m: seq<Byte>, B: set<int>, F: set<int>, first: int, last: int, a: int)
    requires Tiled(m, B) && InPage(m, B) && F <= B && Threaded(m, F, first, last) && a in F
    requires var n := Nx(m, a); n != 0 ==> 0 <= a + n <= |m| - FDS_SZ && IsI2(Pv(m, a + n) + Pv(m, a))
    requires var p := Pv(m, a); p != 0 ==> 0 <= a + p <= |m| - FDS_SZ && IsI2(Nx(m, a + p) + Nx(m, a))
    ensures Still(m, Bypass(m, a), B, B - F, -1)
  {
    hide I2, SetI2, NextIs, PrevIs, Tiled;
    PrevInvertsNext(m, F, first, last, a);
    var n, p := Nx(m, a), Pv(m, a);
    var v := if p == 0 then 0 else Pv(m, a + n) + p;
    var m1 := if n == 0 then m else SetI2(m, a + n + 6, v);
    if n != 0 {
      Patch(m, m, B, B - F, -1, a + n, 6, v);
    }
    if p != 0 {
      Patch(m, m1, B, B - F, -1, a + p, 4, if n == 0 then 0 else Nx(m, a + p) + n);
    }
  }

  lemma BypassBridges(m: seq<Byte>, B: set<int>, F: set<int>, first: int, last: int, a: int)
    requires Tiled(m, B) && InPage(m, B) && F <= B && Threaded(m, F, first, last) && a in F
    requires var n := Nx(m, a); n != 0 ==> 0 <= a + n <= |m| - FDS_SZ && IsI2(Pv(m, a + n) + Pv(m, a))
    requires var p := Pv(m, a); p != 0 ==> 0 <= a + p <= |m| - FDS_SZ && IsI2(Nx(m, a + p) + Nx(m, a))
    ensures Bridged(m, Bypass(m, a), F, a)
  {
    hide I2, SetI2, NextIs, PrevIs, Tiled;
    PrevInvertsNext(m, F, first, last, a);
    var r, n, p := Bypass(m, a), Nx(m, a), Pv(m, a);
    var v := if p == 0 then 0 else Pv(m, a + n) + p;
    var m1 := if n == 0 then m else SetI2(m, a + n + 6, v);
    forall x | x in F
      ensures Nx(r, x) == if p != 0 && x == a + p then (if n == 0 then 0 else Nx(m, x) + n) else Nx(m, x)
      ensures Pv(r, x) == if n != 0 && x == a + n then (if p == 0 then 0 else Pv(m, x) + p) else Pv(m, x)
    {
      if n != 0 { Apart(m, B, x, a + n); }
      if p != 0 { Apart(m, B, x, a + p); }
      assert Nx(m1, x) == Nx(m, x);
    }
  }

  lemma Apart(m: seq<Byte>, B: set<int>, x: int, y: int)
    requires Tiled(m, B)
    ensures x in B && y in B && x != y ==> x + FDS_SZ <= y || y + FDS_SZ <= x
  {
    if x in B && y in B {
      assert BlockOk(m, B, x) && BlockOk(m, B, y);
    }
  }

  /** `a` is not in `F`; `n` leads to the element of `F` behind it and `p` to the one before it. */
  ghost predicate Slot(F: set<int>, a: int, n: int, p: int) {
    && a !in F
    && (if n == 0 then forall q <- F :: q < a else n > 0 && a + n in F && forall q <- F :: q < a || a + n <= q)
    && (if p == 0 then forall q <- F :: a < q else p < 0 && a + p in F && forall q <- F :: a < q || q <= a + p)
  }

  lemma LinkOne(F: set<int>, a: int, n: int, p: int, x: int, dn: int, dp: int)
    requires Slot(F, a, n, p) && NextIs(F, x, dn) && PrevIs(F, x, dp)
    ensures NextIs(F + {a}, x, if p != 0 && x == a + p then -p else dn)
    ensures PrevIs(F + {a}, x, if n != 0 && x == a + n then -n else dp)
  {}

  lemma LinkEnds(F: set<int>, a: int, n: int, p: int, first: int, last: int)
    requires Slot(F, a, n, p) && Ends(F, first, last)
    ensures NextIs(F + {a}, a, n) && PrevIs(F + {a}, a, p)
    ensures Ends(F + {a}, if p == 0 then a + DSC_SZ else first, if n == 0 then a + DSC_SZ else last)
  {}

  /** In `r` the block `a` stands on the free list between the neighbours `n` and `p` lead to. */
  ghost predicate Spliced(m: seq<Byte>, r: seq<Byte>, F: set<int>, a: int, n: int, p: int)
    requires |r| == |m| && InPage(m, F) && 0 <= a <= |m| - FDS_SZ
  {
    && Nx(r, a) == n && Pv(r, a) == p
    && (forall x <- F :: Nx(r, x) == if p != 0 && x == a + p then -p else Nx(m, x))
    && (forall x <- F :: Pv(r, x) == if n != 0 && x == a + n then -n else Pv(m, x))
  }

  lemma Link(m: seq<Byte>, r: seq<Byte>, F: set<int>, first: int, last: int, a: int, n: int, p: int)
    requires |r| == |m| && InPage(m, F) && 0 <= a <= |m| - FDS_SZ
    requires Threaded(m, F, first, last) && Slot(F, a, n, p) && Spliced(m, r, F, a, n, p)
    ensures Threaded(r, F + {a}, if p == 0 then a + DSC_SZ else first, if n == 0 then a + DSC_SZ else last)
  {
    hide I2, NextIs, PrevIs, Ends, Slot;
    LinkEnds(F, a, n, p, first, last);
    forall x | x in F + {a} ensures Linked(r, F + {a}, x) {
      if x != a {
        assert Linked(m, F, x);
        LinkOne(F, a, n, p, x, Nx(m, x), Pv(m, x));
      }
    }
  }

  /** The page with `a` marked free and put between the neighbours `n` and `p` lead to. */
  function Splice(m: seq<Byte>, a: int, n: int, p: int): (r: seq<Byte>)
    requires 0 <= a <= |m| - FDS_SZ && -0x8000 < n < 0x8000 && -0x8000 < p < 0x8000
    requires n != 0 ==> 0 <= a + n <= |m| - FDS_SZ
    requires p != 0 ==> 0 <= a + p <= |m| - FDS_SZ
    ensures |r| == |m|
  {
    var m3 := SetI2(SetI2(SetI2(m, a + 2, 0), a + 4, n), a + 6, p);
    var m4 := if p == 0 then m3 else SetI2(m3, a + p + 4, -p);
    if n == 0 then m4 else SetI2(m4, a + n + 6, -n)
  }

  lemma SpliceFrame(m: seq<Byte>, B: set<int>, F: set<int>, a: int, n: int, p: int)
    requires Tiled(m, B) && InPage(m, B) && F <= B && a in B && Slot(F, a, n, p)
    requires -0x8000 < n < 0x8000 && -0x8000 < p < 0x8000
    ensures Still(m, Splice(m, a, n, p), B, B - F - {a}, a) && Md(Splice(m, a, n, p), a) == 0
  {
    hide I2, SetI2, Tiled;
    var S := B - F - {a};
    var m1 := SetI2(m, a + 2, 0);
    Patch(m, m, B, S, a, a, 2, 0);
    var m2 := SetI2(m1, a + 4, n);
    Patch(m, m1, B, S, a, a, 4, n);
    var m3 := SetI2(m2, a + 6, p);
    Patch(m, m2, B, S, a, a, 6, p);
    var m4 := if p == 0 then m3 else SetI2(m3, a + p + 4, -p);
    if p != 0 {
      Patch(m, m3, B, S, a, a + p, 4, -p);
      Apart(m, B, a, a + p);
    }
    if n != 0 {
      Patch(m, m4, B, S, a, a + n, 6, -n);
      Apart(m, B, a, a + n);
    }
  }

  lemma SpliceLinks(m: seq<Byte>, B: set<int>, F: set<int>, a: int, n: int, p: int)
    requires Tiled(m, B) && InPage(m, B) && F <= B && a in B && Slot(F, a, n, p)
    requires -0x8000 < n < 0x8000 && -0x8000 < p < 0x8000
    ensures Spliced(m, Splice(m, a, n, p), F, a, n, p)
  {
    hide I2, SetI2;
    var r := Splice(m, a, n, p);
    Apart(m, B, a, a + n);
    Apart(m, B, a, a + p);
    forall x | x in F
      ensures Nx(r, x) == if p != 0 && x == a + p then -p else Nx(m, x)
      ensures Pv(r, x) == if n != 0 && x == a + n then -n else Pv(m, x)
    {
      Apart(m, B, x, a);
      Apart(m, B, x, a + n);
      Apart(m, B, x, a + p);
    }
    Apart(m, B, a + n, a + p);
  }

  function Zeroed(m: seq<Byte>, lo: int, hi: int): (r: seq<Byte>)
    ensures |r| == |m| && forall j :: 0 <= j < |m| ==> r[j] == if lo <= j < hi then 0 else m[j]
  {
    seq(|m|, j requires 0 <= j < |m| => if lo <= j < hi then 0 else m[j])
  }

  /** The two pages differ at most in the bytes of block `a` behind its descriptor. */
  ghost predicate PayloadOnly(m: seq<Byte>, r: seq<Byte>, a: int)
    requires 0 <= a <= |m| - FDS_SZ
  {
    |r| == |m| && forall j :: 0 <= j < |m| && !(a + DSC_SZ <= j < End(m, a)) ==> r[j] == m[j]
  }

  /** Writing bytes inside the payload of `a` touches no other block. */
  lemma WritePayload(m: seq<Byte>, r: seq<Byte>, B: set<int>, a: int)
    requires Tiled(m, B) && InPage(m, B) && a in B && PayloadOnly(m, r, a)
    ensures Tiled(r, B) && SameBlocks(m, r, B - {a}) && Sz(r, a) == Sz(m, a) && Md(r, a) == Md(m, a)
    ensures forall x <- B :: x != a ==> SameHeader(m, r, x)
  {
    assert BlockOk(m, B, a);
    forall x | x in B - {a}
      ensures SameHeader(m, r, x)
      ensures forall j :: x <= j < End(m, x) && j < |m| ==> r[j] == m[j]
    {
      assert BlockOk(m, B, x);
    }
    TiledFrame(m, r, B);
  }

  lemma WritePayloadInv(m: seq<Byte>, r: seq<Byte>, used: int, first: int, last: int, B: set<int>, F: set<int>, a: int)
    requires PageInv(m, used, first, last, B, F, -1) && a in B - F && PayloadOnly(m, r, a)
    ensures PageInv(r, used, first, last, B, F, -1) && SameBlocks(m, r, B - {a})
    ensures Sz(r, a) == Sz(m, a)
  {
    hide I2, Threaded, Bytes, Tiled, SameBlocks, PayloadOnly;
    WritePayload(m, r, B, a);
    ThreadedFrame(m, r, F, first, last);
    BytesFrame(m, r, F, |m|);
  }

  /** The page with the free block `a` grown over the free block right behind it. */
  function Absorb(m: seq<Byte>, a: int): (r: seq<Byte>)
    requires 0 <= a <= |m| - FDS_SZ && Joinable(m, a)
    ensures |r| == |m|
  {
    var off := Sz(m, a) + DSC_SZ;
    var b := a + off;
    Zeroed(SetI2(Relink(m, a), a, off + Sz(m, b)), b, b + FDS_SZ)
  }

  /** First half of `Absorb`: the list leads from `a` to the successor of the block behind `a`. */
  function Relink(m: seq<Byte>, a: int): (r: seq<Byte>)
    requires 0 <= a <= |m| - FDS_SZ && Joinable(m, a)
    ensures |r| == |m|
  {
    var off := Sz(m, a) + DSC_SZ;
    var b := a + off;
    if Nx(m, b) == 0 then SetI2(m, a + 4, 0)
    else SetI2(SetI2(m, a + 4, Nx(m, b) + off), b + Nx(m, b) + 6, Pv(m, b + Nx(m, b)) - off)
  }

  predicate Joinable(m: seq<Byte>, a: int)
    requires 0 <= a <= |m| - FDS_SZ
  {
    var off := Sz(m, a) + DSC_SZ;
    var b := a + off;
    && a + FDS_SZ <= b <= |m| - FDS_SZ && IsI2(off) && IsI2(off + Sz(m, b))
    && (Nx(m, b) != 0 ==>
          && a + FDS_SZ <= b + Nx(m, b) <= |m| - FDS_SZ
          && IsI2(Nx(m, b) + off) && IsI2(Pv(m, b + Nx(m, b)) - off))
  }

  lemma AbsorbInRange(m: seq<Byte>, B: set<int>, F: set<int>, first: int, last: int, a: int)
    requires Tiled(m, B) && InPage(m, B) && F <= B && Threaded(m, F, first, last)
    requires a in F && Nx(m, a) == Sz(m, a) + DSC_SZ
    ensures Joinable(m, a)
  {
    hide I2;
    var b := a + Nx(m, a);
    PrevInvertsNext(m, F, first, last, a);
    PrevInvertsNext(m, F, first, last, b);
    assert BlockOk(m, B, a) && BlockOk(m, B, b);
    if Nx(m, b) != 0 {
      assert BlockOk(m, B, b + Nx(m, b));
    }
  }

  lemma RelinkOk(m: seq<Byte>, B: set<int>, F: set<int>, first: int, last: int, a: int)
    requires Tiled(m, B) && InPage(m, B) && F <= B && Threaded(m, F, first, last)
    requires a in F && Nx(m, a) == Sz(m, a) + DSC_SZ && Joinable(m, a)
    ensures Still(m, Relink(m, a), B, B - F, -1)
    ensures a + Nx(m, a) in F && Bridged(m, Relink(m, a), F, a + Nx(m, a))
  {
    hide I2, SetI2, NextIs, PrevIs, Tiled;
    var b := a + Nx(m, a);
    PrevInvertsNext(m, F, first, last, a);
    PrevInvertsNext(m, F, first, last, b);
    var c := b + Nx(m, b);
    if Nx(m, b) == 0 {
      Patch(m, m, B, B - F, -1, a, 4, 0);
    } else {
      Patch(m, m, B, B - F, -1, a, 4, Nx(m, b) + Nx(m, a));
      Patch(m, SetI2(m, a + 4, Nx(m, b) + Nx(m, a)), B, B - F, -1, c, 6, Pv(m, c) - Nx(m, a));
    }
    forall x | x in F && x != b
      ensures Nx(Relink(m, a), x) == if x == a then (if Nx(m, b) == 0 then 0 else Nx(m, x) + Nx(m, b)) else Nx(m, x)
      ensures Pv(Relink(m, a), x) == if Nx(m, b) != 0 && x == c then Pv(m, x) - Nx(m, a) else Pv(m, x)
    {
      Apart(m, B, x, a);
      Apart(m, B, x, c);
      Apart(m, B, a, c);
    }
  }

  /** Merging the header of `b` into the block before it keeps the tiling. */
  lemma TiledMerge(m: seq<Byte>, r: seq<Byte>, B: set<int>, a: int, b: int)
    requires Tiled(m, B) && InPage(m, B) && a in B && b in B && b == End(m, a) && |r| == |m|
    requires Sz(r, a) == Sz(m, a) + DSC_SZ + Sz(m, b)
    requires forall x <- B :: x != a && x != b ==> Sz(r, x) == Sz(m, x)
    ensures Tiled(r, B - {b})
  {
    hide I2;
    assert BlockOk(m, B, a) && BlockOk(m, B, b);
    forall o | o in B - {b} ensures BlockOk(r, B - {b}, o) {
      assert BlockOk(m, B, o);
    }
  }

  /** Writing the size of `a` and clearing the header of `b` leaves all other blocks and all links. */
  lemma MergeFrame(m: seq<Byte>, B: set<int>, S: set<int>, a: int, b: int, v: int)
    requires Tiled(m, B) && InPage(m, B) && a in B && b in B && a != b && S <= B - {a, b} && IsI2(v)
    ensures var r := Zeroed(SetI2(m, a, v), b, b + FDS_SZ);
            && SameBlocks(m, r, S) && Sz(r, a) == v
            && (forall x <- B :: x != b ==> Nx(r, x) == Nx(m, x) && Pv(r, x) == Pv(m, x) && Md(r, x) == Md(m, x))
            && (forall x <- B :: x != a && x != b ==> Sz(r, x) == Sz(m, x))
  {
    hide SetI2;
    var r := Zeroed(SetI2(m, a, v), b, b + FDS_SZ);
    assert BlockOk(m, B, a) && BlockOk(m, B, b);
    forall x | x in B && x != b
      ensures Nx(r, x) == Nx(m, x) && Pv(r, x) == Pv(m, x) && Md(r, x) == Md(m, x)
      ensures Sz(r, x) == if x == a then v else Sz(m, x)
    {
      Apart(m, B, x, b);
      Apart(m, B, x, a);
    }
    forall x, j | x in S && x <= j < End(m, x) && j < |m| ensures r[j] == m[j] {
      assert BlockOk(m, B, x);
    }
  }

  lemma MergeBytes(m: seq<Byte>, r: seq<Byte>, F: set<int>, a: int, b: int, k: nat)
    requires InPage(m, F) && |r| == |m| && a in F && b in F && a < k && b < k && a != b
    requires Sz(r, a) == Sz(m, a) + DSC_SZ + Sz(m, b)
    requires forall x <- F :: x != a && x != b ==> Sz(r, x) == Sz(m, x)
    ensures Bytes(r, F - {b}, k) == Bytes(m, F, k)
  {
    hide I2;
    BytesRemove(m, F, b, k);
    BytesRemove(m, F - {b}, a, k);
    BytesRemove(r, F - {b}, a, k);
    BytesFrame(m, r, F - {b} - {a}, k);
  }

  lemma AbsorbLinks(m: seq<Byte>, r: seq<Byte>, F: set<int>, first: int, last: int, a: int)
    requires |r| == |m| && InPage(m, F) && Threaded(m, F, first, last) && a in F && Nx(m, a) != 0
    requires a + Nx(m, a) in F && Bridged(m, r, F, a + Nx(m, a))
    ensures var b := a + Nx(m, a); Threaded(r, F - {b}, first, if Nx(m, b) == 0 then a + DSC_SZ else last)
  {
    hide I2, Bridged;
    var b := a + Nx(m, a);
    PrevInvertsNext(m, F, first, last, a);
    Unlink(m, r, F, first, last, b);
    assert Linked(m, F, b);
  }

  /** Joining keeps the page invariant; only free blocks change. */
  lemma AbsorbInv(m: seq<Byte>, used: int, first: int, last: int, B: set<int>, F: set<int>, a: int)
    requires PageInv(m, used, first, last, B, F, -1) && a in F && Nx(m, a) == Sz(m, a) + DSC_SZ && Joinable(m, a)
    ensures var b, r := a + Nx(m, a), Absorb(m, a);
            && b in F && SameBlocks(m, r, B - F)
            && Sz(r, a) == Sz(m, a) + DSC_SZ + Sz(m, b) && (forall x <- B :: x != a && x != b ==> Sz(r, x) == Sz(m, x))
            && PageInv(r, used, first, if Nx(m, b) == 0 then a + DSC_SZ else last, B - {b}, F - {b}, -1)
  {
    hide I2, SetI2, NextIs, PrevIs, Tiled, Threaded, Relink, Bytes, Bridged;
    var b, r1, r := a + Nx(m, a), Relink(m, a), Absorb(m, a);
    RelinkOk(m, B, F, first, last, a);
    var v := Nx(m, a) + Sz(m, b);
    Apart(m, B, a, b);
    MergeFrame(r1, B, B - F, a, b, v);
    assert SameBlocks(m, r, B - F) by { forall x | x in B - F ensures End(m, x) == End(r1, x) {} }
    TiledMerge(m, r, B, a, b);
    BridgedFrame(m, r1, r, F, b);
    AbsorbLinks(m, r, F, first, last, a);
    MergeBytes(m, r, F, a, b, |m|);
  }

  lemma BridgedFrame(m: seq<Byte>, r1: seq<Byte>, r: seq<Byte>, F: set<int>, b: int)
    requires |m| == |r1| == |r| && InPage(m, F) && b in F && Bridged(m, r1, F, b)
    requires forall x <- F :: x != b ==> Nx(r, x) == Nx(r1, x) && Pv(r, x) == Pv(r1, x)
    ensures Bridged(m, r, F, b)
  {
    hide I2;
  }

  /** Taking the free block `a` off the list turns it into a used block of mode 1. */
  lemma DeleteInv(m: seq<Byte>, used: int, first: int, last: int, B: set<int>, F: set<int>, a: int)
    requires PageInv(m, used, first, last, B, F, -1) && a in F
    requires var n := Nx(m, a); n != 0 ==> 0 <= a + n <= |m| - FDS_SZ && IsI2(Pv(m, a + n) + Pv(m, a))
    requires var p := Pv(m, a); p != 0 ==> 0 <= a + p <= |m| - FDS_SZ && IsI2(Nx(m, a + p) + Nx(m, a))
    ensures var r, n, p := SetI2(Bypass(m, a), a + 2, 1), Nx(m, a), Pv(m, a);
            && PageInv(r, used + Sz(m, a) + DSC_SZ,
                       if p != 0 then first else if n == 0 then 0 else first + n,
                       if n != 0 then last else if p == 0 then 0 else last + p, B, F - {a}, -1)
            && SameBlocks(m, r, B - F) && Sz(r, a) == Sz(m, a) && Md(r, a) == 1
  {
    hide I2, SetI2, NextIs, PrevIs, Tiled, Threaded, Bytes, Bridged, Bypass;
    var r1 := Bypass(m, a);
    var r := SetI2(r1, a + 2, 1);
    BypassFrame(m, B, F, first, last, a);
    BypassBridges(m, B, F, first, last, a);
    WriteField(r1, B, a, 2, 1);
    assert SameBlocks(m, r, B - F) by { forall x | x in B - F ensures End(m, x) == End(r1, x) {} }
    TiledFrame(m, r, B);
    BridgedFrame(m, r1, r, F, a);
    Unlink(m, r, F, first, last, a);
    BytesRemove(m, F, a, |m|);
    BytesFrame(m, r, F - {a}, |m|);
  }

  lemma ThreadedFrame(m: seq<Byte>, r: seq<Byte>, F: set<int>, first: int, last: int)
    requires Threaded(m, F, first, last) && |r| == |m| && InPage(m, F) && forall x <- F :: SameHeader(m, r, x)
    ensures Threaded(r, F, first, last)
  {
    hide I2, NextIs, PrevIs, Ends;
    forall x | x in F ensures Linked(r, F, x) {
      assert Linked(m, F, x);
    }
  }

  /** The page after the block `a` was cleared and put on the free list. */
  function Freed(m: seq<Byte>, a: int, n: int, p: int): (r: seq<Byte>)
    requires 0 <= a <= |m| - FDS_SZ && -0x8000 < n < 0x8000 && -0x8000 < p < 0x8000
    requires n != 0 ==> 0 <= a + n <= |m| - FDS_SZ
    requires p != 0 ==> 0 <= a + p <= |m| - FDS_SZ
  {
    Splice(Zeroed(m, a + DSC_SZ, End(m, a)), a, n, p)
  }

  lemma InsertInv(m: seq<Byte>, used: int, first: int, last: int, B: set<int>, F: set<int>, a: int, n: int, p: int)
    requires PageInv(m, used, first, last, B, F, a) && a in B && Slot(F, a, n, p)
    requires -0x8000 < n < 0x8000 && -0x8000 < p < 0x8000
    ensures var r := Freed(m, a, n, p);
            && PageInv(r, used - Sz(m, a) - DSC_SZ, if p == 0 then a + DSC_SZ else first,
                       if n == 0 then a + DSC_SZ else last, B, F + {a}, -1)
            && SameBlocks(m, r, B - F - {a}) && (forall x <- B :: Sz(r, x) == Sz(m, x))
  {
    hide I2, SetI2, NextIs, PrevIs, Tiled, Threaded, Bytes, Splice, Spliced;
    var m0 := Zeroed(m, a + DSC_SZ, End(m, a));
    var r := Splice(m0, a, n, p);
    WritePayload(m, m0, B, a);
    ThreadedFrame(m, m0, F, first, last);
    SpliceFrame(m0, B, F, a, n, p);
    SpliceLinks(m0, B, F, a, n, p);
    Link(m0, r, F, first, last, a, n, p);
    assert SameBlocks(m, r, B - F - {a}) by { forall x | x in B - F - {a} ensures End(m, x) == End(m0, x) {} }
    BytesRemove(r, F + {a}, a, |m|);
    assert F + {a} - {a} == F;
    BytesFrame(m, r, F, |m|);
  }

  /** The page with a new block cut off the block `a` at offset `b`. */
  function Cut(m: seq<Byte>, a: int, b: int): (r: seq<Byte>)
    requires 0 <= a && a + FDS_SZ <= b <= |m| - FDS_SZ && IsI2(Sz(m, a) - (b - a)) && IsI2(b - a - DSC_SZ)
    ensures |r| == |m|
  {
    SetI2(SetI2(SetI2(m, b, Sz(m, a) - (b - a)), a, b - a - DSC_SZ), b + 2, 0)
  }

  lemma TiledCut(m: seq<Byte>, r: seq<Byte>, B: set<int>, a: int, b: int)
    requires Tiled(m, B) && InPage(m, B) && a in B && |r| == |m|
    requires b % DSC_SZ == 0 && a + FDS_SZ <= b && b + FDS_SZ <= End(m, a) <= |m|
    requires Sz(r, a) == b - a - DSC_SZ && End(r, b) == End(m, a)
    requires forall x <- B :: x != a ==> Sz(r, x) == Sz(m, x)
    ensures Tiled(r, B + {b})
  {
    hide I2;
    assert BlockOk(m, B, a);
    forall o | o in B + {b} ensures BlockOk(r, B + {b}, o) {
      if o != b {
        assert BlockOk(m, B, o);
      }
    }
  }

  lemma CutInv(m: seq<Byte>, used: int, first: int, last: int, B: set<int>, F: set<int>, a: int, b: int)
    requires PageInv(m, used, first, last, B, F, -1) && a in B && a !in F
    requires b % DSC_SZ == 0 && a + FDS_SZ <= b && b + FDS_SZ <= End(m, a) <= |m| <= MAX_PAGE
    ensures var r := Cut(m, a, b);
            && PageInv(r, used, first, last, B + {b}, F, b) && b !in B
            && SameBlocks(m, r, B - {a}) && Sz(r, a) == b - a - DSC_SZ && Md(r, a) == Md(m, a)
            && Md(r, b) == 0 && End(r, b) == End(m, a) && (forall j :: a + DSC_SZ <= j < b ==> r[j] == m[j])
  {
    hide I2, SetI2, Threaded, Bytes;
    var r := Cut(m, a, b);
    assert BlockOk(m, B, a);
    forall x | x in B && x != a
      ensures x != b && SameHeader(m, r, x)
      ensures forall j :: x <= j < End(m, x) && j < |m| ==> r[j] == m[j]
    {
      assert BlockOk(m, B, x);
    }
    TiledCut(m, r, B, a, b);
    ThreadedFrame(m, r, F, first, last);
    BytesFrame(m, r, F, |m|);
  }

  lemma SameTrans(m1: seq<Byte>, m2: seq<Byte>, m3: seq<Byte>, S: set<int>)
    requires SameBlocks(m1, m2, S) && SameBlocks(m2, m3, S) && forall o <- S :: Sz(m1, o) >= 0
    ensures SameBlocks(m1, m3, S) && forall o <- S :: Sz(m3, o) == Sz(m1, o)
  {
    forall o | o in S ensures Sz(m2, o) == Sz(m1, o) {
      assert m2[o] == m1[o] && m2[o + 1] == m1[o + 1];
    }
  }

  /** What freeing the rest of a cut block leaves as it was. */
  lemma CutKept(m: seq<Byte>, m1: seq<Byte>, r: seq<Byte>, B0: set<int>, L: set<int>, a: int, b: int)
    requires |m| == |m1| == |r| && 0 <= a && b <= |m| && InPage(m, B0) && InPage(m1, L) && InPage(r, L)
    requires Tiled(m, B0) && Tiled(m1, B0 + {b}) && a in L && L <= B0
    requires SameBlocks(m, m1, B0 - {a}) && SameBlocks(m1, r, L) && Sz(m1, a) == b - a - DSC_SZ
    requires forall j :: a + DSC_SZ <= j < b ==> m1[j] == m[j]
    ensures SameBlocks(m, r, L - {a}) && Sz(r, a) == Sz(m1, a) && Md(r, a) == Md(m1, a)
    ensures forall j :: a + DSC_SZ <= j < b ==> r[j] == m[j]
  {
    hide I2, Tiled, SameBlocks;
    BlockBounds(m1, B0 + {b}, a);
    SameDescriptor(m1, r, L, a);
    assert forall o <- L - {a} :: Sz(m, o) >= 0 by { forall o | o in L - {a} { BlockBounds(m, B0, o); } }
    SameWeaken(m, m1, B0 - {a}, L - {a});
    SameWeaken(m1, r, L, L - {a});
    SameTrans(m, m1, r, L - {a});
    SamePayload(m1, r, L, a);
  }

  lemma SameSelf(m: seq<Byte>, S: set<int>)
    requires InPage(m, S)
    ensures SameBlocks(m, m, S)
  {}

  lemma SameKept(m: seq<Byte>, r: seq<Byte>, S: set<int>)
    requires SameBlocks(m, r, S)
    ensures Kept(m, r, S)
  {}

  lemma InvTiled(m: seq<Byte>, used: int, first: int, last: int, B: set<int>, F: set<int>)
    requires PageInv(m, used, first, last, B, F, -1)
    ensures Tiled(m, B) && InPage(m, B)
  {}

  lemma FirstFree(m: seq<Byte>, F: set<int>, first: int, last: int)
    requires Threaded(m, F, first, last) && InPage(m, F)
    ensures first != 0 ==> first - DSC_SZ in F && IsMin(F, first - DSC_SZ) && IsMax(F, last - DSC_SZ)
    ensures first == 0 ==> F == {} && last == 0
  {}

  lemma BlockBounds(m: seq<Byte>, B: set<int>, a: int)
    requires Tiled(m, B) && a in B
    ensures 0 <= a <= |m| - FDS_SZ && a % DSC_SZ == 0 && a + FDS_SZ <= End(m, a) <= |m| <= MAX_PAGE
    ensures Sz(m, a) % DSC_SZ == 0
  {
    assert BlockOk(m, B, a);
  }

  lemma SameDescriptor(m: seq<Byte>, r: seq<Byte>, S: set<int>, o: int)
    requires SameBlocks(m, r, S) && o in S && Sz(m, o) >= 0
    ensures Sz(r, o) == Sz(m, o) && Md(r, o) == Md(m, o)
  {
    assert r[o] == m[o] && r[o + 1] == m[o + 1] && r[o + 2] == m[o + 2] && r[o + 3] == m[o + 3];
  }

  /** The block right behind a free block is free only if the list leads to it. */
  lemma NextFree(m: seq<Byte>, B: set<int>, F: set<int>, first: int, last: int, a: int)
    requires Tiled(m, B) && F <= B && Threaded(m, F, first, last) && a in F && InPage(m, F)
    ensures End(m, a) in F <==> Nx(m, a) != 0 && a + Nx(m, a) == End(m, a)
  {
    hide I2;
    assert Linked(m, F, a) && BlockOk(m, B, a);
  }

  lemma JoinableBounds(m: seq<Byte>, a: int)
    requires 0 <= a <= |m| - FDS_SZ && Joinable(m, a)
    ensures var off := Sz(m, a) + DSC_SZ;
            var b := a + off;
            && a + FDS_SZ <= b <= |m| - FDS_SZ && IsI2(off) && IsI2(off + Sz(m, b))
            && (Nx(m, b) != 0 ==>
                  && a + FDS_SZ <= b + Nx(m, b) <= |m| - FDS_SZ
                  && IsI2(Nx(m, b) + off) && IsI2(Pv(m, b + Nx(m, b)) - off))
  {}

  /** No two free blocks touch. */
  ghost predicate Coalesced(m: seq<Byte>, F: set<int>)
    requires InPage(m, F)
  {
    forall x <- F :: End(m, x) !in F
  }

  /** The free block that joining starts from once `a` was freed: the one before `a`, else `a`. */
  ghost predicate JoinStart(F: set<int>, a: int, s: int) {
    s in F + {a} && s <= a && forall q <- F :: q < a ==> q <= s < a
  }

  /** Free space lies right behind `a`, and before `a` there is a free block that does not touch it. */
  ghost predicate Missed(m: seq<Byte>, F: set<int>, a: int)
    requires InPage(m, F + {a})
  {
    End(m, a) in F && (exists q <- F :: q < a) && forall q <- F :: End(m, q) != a
  }

  /** From `m`, where `a` is about to be freed, to `r`: the free blocks right behind `s` were
      joined to it, and nothing else. */
  ghost predicate JoinedFrom(m: seq<Byte>, r: seq<Byte>, F: set<int>, F': set<int>, a: int, s: int)
    requires InPage(m, F + {a}) && InPage(r, F') && |r| == |m|
  {
    && F' <= F + {a} && s in F' && End(r, s) !in F' && End(r, s) >= End(m, s)
    && (forall x <- F + {a} :: x in F' || s < x < End(r, s))
    && (forall x <- F' :: x != s ==> Sz(r, x) == Sz(m, x))
  }

  lemma JoinedApart(m: seq<Byte>, r: seq<Byte>, B: set<int>, F: set<int>, B': set<int>, F': set<int>, a: int, s: int)
    requires Tiled(m, B) && Tiled(r, B') && |r| == |m| && InPage(m, B) && InPage(r, B') && F + {a} <= B && F' <= B'
    requires JoinStart(F, a, s) && JoinedFrom(m, r, F, F', a, s) && B - F - {a} <= B'
    requires Coalesced(m, F) && s != a && End(m, s) != a
    ensures a in F'
  {
    hide I2;
    assert BlockOk(m, B, s) && BlockOk(m, B, a) && BlockOk(r, B', s);
    var e := End(m, s);
    assert e < a;
    assert e in B - F - {a};
  }

  /** When no free blocks touched before, freeing `a` leaves touching free blocks exactly in the
      `Missed` case. */
  lemma CoalescedIff(m: seq<Byte>, r: seq<Byte>, B: set<int>, F: set<int>, B': set<int>, F': set<int>, a: int, s: int)
    requires Tiled(m, B) && Tiled(r, B') && |r| == |m| && InPage(m, B) && InPage(r, B') && F + {a} <= B && F' <= B'
    requires JoinStart(F, a, s) && JoinedFrom(m, r, F, F', a, s) && B - F - {a} <= B' && a !in F
    requires Coalesced(m, F)
    ensures Coalesced(r, F') <==> !Missed(m, F, a)
  {
    hide I2;
    assert BlockOk(m, B, s) && BlockOk(r, B', s) && BlockOk(m, B, a);
    if Missed(m, F, a) {
      JoinedApart(m, r, B, F, B', F', a, s);
      assert End(r, a) == End(m, a);
      assert End(m, a) in F';
    }
    forall x | x in F' && End(r, x) in F' ensures Missed(m, F, a) {
      assert BlockOk(m, B, x) && BlockOk(r, B', x);
      assert x == a;
      assert s in F && s < a;
      forall q | q in F ensures End(m, q) != a {
        assert BlockOk(m, B, q);
      }
    }
  }

  /** A block freed while there was no free block is the only one, unchanged. */
  lemma OneJoined(m: seq<Byte>, r: seq<Byte>, B: set<int>, B': set<int>, F': set<int>, b: int, s: int)
    requires Tiled(m, B) && Tiled(r, B') && |r| == |m| && InPage(m, B) && InPage(r, B') && b in B && F' <= B'
    requires JoinStart({}, b, s) && JoinedFrom(m, r, {}, F', b, s) && B - {b} <= B'
    ensures F' == {b} && End(r, b) == End(m, b)
  {
    hide I2;
    assert {} + {b} == {b};
    assert s == b && F' == {b};
    assert BlockOk(m, B, b) && BlockOk(r, B', b);
    var e := End(m, b);
    if e < |m| {
      assert e in B && e != b;
      assert e in B';
    }
  }

  lemma SlotAt(m: seq<Byte>, F: set<int>, a: int, b: int)
    requires a !in F && b in F && Linked(m, F, b)
    requires if b > a then forall q <- F :: q < b ==> q < a else IsMax(F, b)
    ensures if b > a then Slot(F, a, b - a, if Pv(m, b) < 0 then Pv(m, b) + b - a else 0) else Slot(F, a, 0, b - a)
  {
    hide I2;
  }

  lemma EmptySlot(F: set<int>, a: int)
    requires F == {}
    ensures Slot(F, a, 0, 0) && JoinStart(F, a, a)
  {}

  lemma SlotStart(F: set<int>, a: int, n: int, p: int)
    requires Slot(F, a, n, p)
    ensures JoinStart(F, a, a + p) && (p != 0 ==> a + p in F)
  {}

  lemma BytesNone(m: seq<Byte>, k: nat)
    ensures Bytes(m, {}, k) == 0
  {}

  /** A page that consists of one free block. */
  lemma FreshInv(m: seq<Byte>)
    requires FDS_SZ <= |m| <= MAX_PAGE && |m| % DSC_SZ == 0
    requires Sz(m, 0) == |m| - DSC_SZ && Md(m, 0) == 0 && Nx(m, 0) == 0 && Pv(m, 0) == 0
    ensures PageInv(m, 0, DSC_SZ, DSC_SZ, {0}, {0}, -1)
  {
    hide I2;
    assert BlockOk(m, {0}, 0);
    assert Linked(m, {0}, 0);
    BytesRemove(m, {0}, 0, |m|);
    assert {0} - {0} == {};
    BytesNone(m, |m|);
  }

  lemma TiledGrow(m: seq<Byte>, r: seq<Byte>, B: set<int>)
    requires Tiled(m, B) && InPage(m, B) && m <= r && |m| + FDS_SZ <= |r| <= MAX_PAGE && |r| % DSC_SZ == 0
    requires Sz(r, |m|) == |r| - |m| - DSC_SZ && forall x <- B :: Sz(r, x) == Sz(m, x)
    ensures Tiled(r, B + {|m|})
  {
    hide I2;
    forall o | o in B + {|m|} ensures BlockOk(r, B + {|m|}, o) {
      if o in B {
        assert BlockOk(m, B, o);
      }
    }
    forall o | o in B ensures o < |m| {
      assert BlockOk(m, B, o);
    }
  }

  lemma GrowBytes(m: seq<Byte>, r: seq<Byte>, F: set<int>, k: nat)
    requires InPage(m, F) && |m| <= |r| && forall x <- F :: Sz(r, x) == Sz(m, x)
    requires k >= |m|
    ensures Bytes(r, F, k) == Bytes(m, F, |m|)
  {
    if k > |m| {
      GrowBytes(m, r, F, k - 1);
    } else {
      GrowBytesTo(m, r, F, k);
    }
  }

  lemma {:induction false} GrowBytesTo(m: seq<Byte>, r: seq<Byte>, F: set<int>, k: nat)
    requires InPage(m, F) && |m| <= |r| && forall x <- F :: Sz(r, x) == Sz(m, x)
    ensures Bytes(r, F, k) == Bytes(m, F, k)
  {
    if k > 0 {
      GrowBytesTo(m, r, F, k - 1);
    }
  }

  lemma PrefixHeader(m: seq<Byte>, r: seq<Byte>, o: int)
    requires m <= r && 0 <= o <= |m| - FDS_SZ
    ensures Sz(r, o) == Sz(m, o) && Md(r, o) == Md(m, o) && Nx(r, o) == Nx(m, o) && Pv(r, o) == Pv(m, o)
  {}

  /** New room behind the old page end, seen as one used block. */
  lemma GrowInv(m: seq<Byte>, r: seq<Byte>, used: int, first: int, last: int, B: set<int>, F: set<int>)
    requires PageInv(m, used, first, last, B, F, -1)
    requires m <= r && |m| + FDS_SZ <= |r| <= MAX_PAGE && |r| % DSC_SZ == 0
    requires Sz(r, |m|) == |r| - |m| - DSC_SZ && Md(r, |m|) == DSC_SZ
    ensures PageInv(r, used + |r| - |m|, first, last, B + {|m|}, F, |m|)
    ensures |m| !in B && Kept(m, r, B)
  {
    hide I2, Bytes, Tiled, NextIs, PrevIs, Ends;
    forall o | o in B
      ensures Sz(r, o) == Sz(m, o) && Md(r, o) == Md(m, o) && Nx(r, o) == Nx(m, o) && Pv(r, o) == Pv(m, o)
    {
      PrefixHeader(m, r, o);
    }
    TiledGrow(m, r, B);
    GrowBytes(m, r, F, |r|);
    forall x | x in F ensures Linked(r, F, x) {
      assert Linked(m, F, x);
    }
  }

  lemma KeptSame(m1: seq<Byte>, m2: seq<Byte>, m3: seq<Byte>, B: set<int>, S: set<int>)
    requires Kept(m1, m2, B) && S <= B && SameBlocks(m2, m3, S) && forall o <- S :: Sz(m1, o) >= 0
    ensures Kept(m1, m3, S)
  {
    forall o | o in S ensures Sz(m2, o) == Sz(m1, o) {
      assert m2[o] == m1[o] && m2[o + 1] == m1[o + 1];
    }
  }

  lemma PlaceBounds(m: seq<Byte>, used: int, first: int, last: int, B: set<int>, F: set<int>, a: int, n: int, p: int)
    requires PageInv(m, used, first, last, B, F, a) && a in B && Slot(F, a, n, p)
    ensures InPage(m, B) && 0 <= a && a + FDS_SZ <= End(m, a) <= |m|
    ensures n != 0 ==> 0 <= a + n <= |m| - FDS_SZ
    ensures p != 0 ==> 0 <= a + p <= |m| - FDS_SZ
  {
    BlockBounds(m, B, a);
  }

  /** When the last free block reached the old page end, growing extends it to the new one. */
  lemma GrownTail(m: seq<Byte>, m1: seq<Byte>, r: seq<Byte>, B: set<int>, F: set<int>, B': set<int>, F': set<int>,
                  s: int)
    requires Tiled(m, B) && InPage(m, B) && F <= B && Kept(m, m1, B) && |m1| == |r| && |m| < |m1|
    requires Tiled(r, B') && InPage(r, B') && F' <= B' && B' - F' == B - F
    requires InPage(m1, F + {|m|}) && JoinStart(F, |m|, s) && JoinedFrom(m1, r, F, F', |m|, s)
    ensures forall t :: IsMax(F, t) && End(m, t) == |m| ==> t in F' && End(r, t) == |r|
  {
    hide I2;
    forall t | IsMax(F, t) && End(m, t) == |m| ensures t in F' && End(r, t) == |r| {
      assert BlockOk(m, B, t);
      assert t == s;
      assert m1[t] == m[t] && m1[t + 1] == m[t + 1];
      assert End(m1, t) == |m| by { SameSize(m, m1, t); }
      assert BlockOk(r, B', s);
      forall o | o in B ensures o < |m| {
        assert BlockOk(m, B, o);
      }
      assert |m| !in F';
      assert |m| in F + {|m|};
      var e := End(r, s);
      assert e > |m|;
      assert e in B' ==> e in B - F;
    }
  }

  lemma SameSize(m: seq<Byte>, r: seq<Byte>, o: int)
    requires 0 <= o <= |m| - FDS_SZ && |m| <= |r| && m[o] == r[o] && m[o + 1] == r[o + 1]
    ensures Sz(m, o) == Sz(r, o)
  {}

  lemma SameEnd(m: seq<Byte>, r: seq<Byte>, o: int)
    requires 0 <= o <= |m| - FDS_SZ && |m| == |r| && m[o] == r[o] && m[o + 1] == r[o + 1]
    ensures End(m, o) == End(r, o)
  {
    SameSize(m, r, o);
  }

  lemma ZeroBlock(m: seq<Byte>, B: set<int>)
    requires Tiled(m, B)
    ensures 0 in B
  {}

  lemma NextBlock(m: seq<Byte>, B: set<int>, a: int)
    requires Tiled(m, B) && a in B && InPage(m, B)
    ensures End(m, a) == |m| || End(m, a) in B
    ensures forall o <- B :: o <= a || End(m, a) <= o
  {
    assert BlockOk(m, B, a);
  }

  lemma SameWeaken(m: seq<Byte>, r: seq<Byte>, S: set<int>, T: set<int>)
    requires SameBlocks(m, r, S) && T <= S
    ensures SameBlocks(m, r, T)
  {}

  lemma SamePayload(m: seq<Byte>, r: seq<Byte>, S: set<int>, a: int)
    requires SameBlocks(m, r, S) && a in S
    ensures forall j :: a + DSC_SZ <= j < End(m, a) && j < |m| ==> r[j] == m[j]
  {}

  /** Setting the alignment of a used block and clearing it keeps the invariant. */
  lemma LiveZeroInv(m: seq<Byte>, used: int, first: int, last: int, B: set<int>, F: set<int>, a: int, mode: alignment)
    requires PageInv(m, used, first, last, B, F, -1) && a in B - F
    ensures var r := Zeroed(SetI2(m, a + 2, mode), a + DSC_SZ, End(m, a));
            && PageInv(r, used, first, last, B, F, -1) && SameBlocks(m, r, B - {a})
            && Sz(r, a) == Sz(m, a) && Md(r, a) == mode
  {
    hide I2, SetI2, Threaded, Bytes, Tiled, SameBlocks;
    var m1 := SetI2(m, a + 2, mode);
    var r := Zeroed(m1, a + DSC_SZ, End(m, a));
    WriteField(m, B, a, 2, mode);
    TiledFrame(m, m1, B);
    WritePayload(m1, r, B, a);
    assert forall o <- B - {a} :: Sz(m, o) >= 0 by { forall o | o in B { BlockBounds(m, B, o); } }
    SameTrans(m, m1, r, B - {a});
    ThreadedFrame(m, r, F, first, last);
    BytesFrame(m, r, F, |m|);
  }

  /** Two used blocks in a row become one. */
  lemma ExtendInv(m: seq<Byte>, used: int, first: int, last: int, B: set<int>, F: set<int>, a: int, b: int)
    requires PageInv(m, used, first, last, B, F, -1) && a in B - F && b in B - F && End(m, a) == b
    requires IsI2(Sz(m, a) + Sz(m, b) + DSC_SZ)
    ensures var r := SetI2(m, a, Sz(m, a) + Sz(m, b) + DSC_SZ);
            && PageInv(r, used, first, last, B - {b}, F, -1) && SameBlocks(m, r, B - {a})
            && Md(r, a) == Md(m, a) && forall j :: a + DSC_SZ <= j < |m| ==> r[j] == m[j]
  {
    hide I2, SetI2, Threaded, Bytes, Tiled;
    var r := SetI2(m, a, Sz(m, a) + Sz(m, b) + DSC_SZ);
    WriteField(m, B, a, 0, Sz(m, a) + Sz(m, b) + DSC_SZ);
    TiledMerge(m, r, B, a, b);
    ThreadedFrame(m, r, F, first, last);
    BytesFrame(m, r, F, |m|);
  }

  /** A block longer than the request, its descriptor and its alignment has room for it. */
  lemma LongFits(m: seq<Byte>, a: int, size: nat, align: alignment)
    requires 0 <= a <= |m| - FDS_SZ && Sz(m, a) >= size + align
    ensures Fits(m, a, size, align)
  {}

  lemma AlignedSum(base: int, x: int, align: alignment)
    requires base % PAGE_ALIGN == 0
    ensures Rem(base + x + Pad(x, align), align) == 0
  {
    hide Pad;
    RemSum(base / PAGE_ALIGN, x + Pad(x, align), align);
    assert base == 16 * (base / PAGE_ALIGN);
  }

  lemma RemSum(q: int, y: int, align: alignment)
    requires Rem(y, align) == 0
    ensures Rem(16 * q + y, align) == 0
  {}

  lemma {:induction false} BytesGap(m: seq<Byte>, B: set<int>, lo: nat, hi: nat)
    requires InPage(m, B) && lo <= hi && forall o <- B :: o < lo || hi <= o
    ensures Bytes(m, B, hi) == Bytes(m, B, lo)
  {
    if lo < hi {
      BytesGap(m, B, lo, hi - 1);
    }
  }

  /** The blocks before a block boundary take all the bytes before it. */
  lemma {:induction false} BytesTiled(m: seq<Byte>, B: set<int>, o: nat)
    requires Tiled(m, B) && InPage(m, B) && o in B
    ensures Bytes(m, B, |m|) - Bytes(m, B, o) == |m| - o
    decreases |m| - o
  {
    hide I2;
    var e := End(m, o);
    assert BlockOk(m, B, o);
    BytesGap(m, B, o + 1, e);
    if e != |m| {
      BytesTiled(m, B, e);
    }
  }

  lemma {:induction false} BytesDiff(m: seq<Byte>, B: set<int>, F: set<int>, k: nat)
    requires InPage(m, B) && F <= B
    ensures Bytes(m, B, k) == Bytes(m, F, k) + Bytes(m, B - F, k)
  {
    if k > 0 {
      BytesDiff(m, B, F, k - 1);
    }
  }

  lemma {:induction false} BytesPositive(m: seq<Byte>, S: set<int>, o: int, k: nat)
    requires InPage(m, S) && (forall q <- S :: Sz(m, q) >= 4)
    ensures Bytes(m, S, k) >= 0
    ensures o in S && o < k ==> Bytes(m, S, k) > 0
  {
    hide I2;
    if k > 0 {
      BytesPositive(m, S, o, k - 1);
    }
  }

  /** `used` counts exactly the bytes of the blocks in use; it is 0 only when there are none. */
  lemma UsedBytes(m: seq<Byte>, used: int, first: int, last: int, B: set<int>, F: set<int>)
    requires PageInv(m, used, first, last, B, F, -1)
    ensures used == Bytes(m, B - F, |m|)
    ensures used == 0 <==> B - F == {}
  {
    hide I2;
    BytesTiled(m, B, 0);
    BytesDiff(m, B, F, |m|);
    forall q | q in B ensures Sz(m, q) >= 4 && q < |m| {
      assert BlockOk(m, B, q);
    }
    forall o | o in B - F ensures used != 0 {
      BytesPositive(m, B - F, o, |m|);
    }
    if B - F == {} {
      assert B - F == {};
      BytesNone(m, |m|);
    }
    if used == 0 {
      assert forall o :: o !in B - F;
      assert B - F == {};
    }
  }

  /** A used block may be about to be freed. */
  lemma PendInv(m: seq<Byte>, used: int, first: int, last: int, B: set<int>, F: set<int>, a: int)
    requires PageInv(m, used, first, last, B, F, -1) && a in B - F
    ensures PageInv(m, used, first, last, B, F, a)
  {
    hide Bytes, Tiled, Threaded;
  }

  lemma UsedBlockBounds(m: seq<Byte>, used: int, first: int, last: int, B: set<int>, F: set<int>, a: int)
    requires PageInv(m, used, first, last, B, F, -1) && a in B
    ensures 0 <= a <= |m| - FDS_SZ && a + FDS_SZ <= End(m, a) <= |m|
  {
    BlockBounds(m, B, a);
  }

  /** The bytes with `s` written over them from `to` on. */
  function Pasted(m: seq<Byte>, to: nat, s: seq<Byte>): (r: seq<Byte>)
    requires to + |s| <= |m|
    ensures |r| == |m|
  {
    m[..to] + s + m[to + |s|..]
  }

  lemma PastedSlice(m: seq<Byte>, to: nat, s: seq<Byte>, lo: nat, hi: nat)
    requires lo <= to && to + |s| <= hi <= |m|
    ensures Pasted(m, to, s)[lo .. hi][to - lo .. to - lo + |s|] == s
  {
    var t := Pasted(m, to, s)[lo .. hi];
    var u := t[to - lo .. to - lo + |s|];
    forall x | 0 <= x < |s| ensures u[x] == s[x] {
      assert u[x] == t[to - lo + x] == Pasted(m, to, s)[to + x];
    }
    assert u == s;
  }

  lemma SliceSlice(m: seq<Byte>, lo: nat, hi: nat, off: nat, cnt: nat)
    requires lo <= off && off + cnt <= hi <= |m|
    ensures m[lo .. hi][off - lo .. off - lo + cnt] == m[off .. off + cnt]
  {
    var t := m[lo .. hi];
    var u := t[off - lo .. off - lo + cnt];
    forall x | 0 <= x < cnt ensures u[x] == m[off .. off + cnt][x] {
      assert u[x] == t[off - lo + x] == m[off + x];
    }
    assert u == m[off .. off + cnt];
  }

  /** Copies `cnt` bytes between areas that do not overlap. */
  method Bcopy(src: array<Byte>, off: nat, dst: array<Byte>, to: nat, cnt: nat)
    requires off + cnt <= src.Length && to + cnt <= dst.Length
    requires src == dst ==> off + cnt <= to || to + cnt <= off
    modifies dst
    ensures dst[..] == Pasted(old(dst[..]), to, old(src[off .. off + cnt]))
  {
    for x := 0 to cnt
      invariant dst[..to] == old(dst[..to]) && dst[to + x..] == old(dst[to + x..])
      invariant dst[to .. to + x] == old(src[off .. off + x])
      invariant src[off + x .. off + cnt] == old(src[off + x .. off + cnt])
    {
      assert src[off + x] == src[off + x .. off + cnt][0];
      dst[to + x] := src[off + x];
    }
  }

  lemma PastedPayload(m: seq<Byte>, to: nat, s: seq<Byte>, a: int)
    requires 0 <= a <= |m| - FDS_SZ && a + DSC_SZ <= to && to + |s| <= End(m, a) <= |m|
    ensures PayloadOnly(m, Pasted(m, to, s), a)
  {}

  lemma KeptOthers(m: seq<Byte>, r: seq<Byte>, B: set<int>, F: set<int>, a: int)
    requires SameBlocks(m, r, B - {a})
    ensures Kept(m, r, B - F - {a})
  {
    forall o | o in B - F - {a} ensures o in B - {a} {}
  }
}
