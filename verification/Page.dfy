/** One page of simulated virtual memory and the operations on its list of free blocks. */
module Page {
  import opened ByteType
  import opened PageLayout

  class Page {
    var mem: array<Byte>
    var base: nat
    var used: int
    var freePtr: int
    var lfreePtr: int
    ghost var B: set<int>   // where blocks start
    ghost var F: set<int>   // where the blocks of the free list start

    ghost predicate Inv(pend: int)
      reads this, mem
    {
      PageInv(mem[..], used, freePtr, lfreePtr, B, F, pend)
    }

    /** A page of `size` bytes at `base` that is one free block. */
    constructor (base: nat, size: nat)
      requires FDS_SZ <= size <= MAX_PAGE && size % DSC_SZ == 0
      ensures fresh(mem) && mem.Length == size && this.base == base && used == 0
      ensures Inv(-1) && B == {0} && F == {0} && End(mem[..], 0) == size
    {
      hide I2, SetI2;
      mem := new Byte[size];
      this.base := base;
      used := 0;
      freePtr, lfreePtr := DSC_SZ, DSC_SZ;
      B, F := {0}, {0};
      new;
      Put(2, 0);
      Put(0, size - DSC_SZ);
      Put(6, 0);
      Put(4, 0);
      FreshInv(mem[..]);
    }

    method Put(o: int, v: int)
      requires 0 <= o <= mem.Length - 2 && IsI2(v)
      modifies mem
      ensures mem[..] == SetI2(old(mem[..]), o, v)
    {
      var u := if v < 0 then v + 0x1_0000 else v;
      mem[o] := u % 256;
      mem[o + 1] := u / 256;
    }

    function Get(o: int): int
      requires 0 <= o <= mem.Length - 2
      reads this, mem
    {
      I2(mem[..], o)
    }

    method Bzero(lo: int, hi: int)
      requires 0 <= lo <= hi <= mem.Length
      modifies mem
      ensures mem[..] == Zeroed(old(mem[..]), lo, hi)
    {
      for j := lo to hi
        invariant forall k :: 0 <= k < mem.Length ==> mem[k] == if lo <= k < j then 0 else old(mem[k])
      {
        mem[j] := 0;
      }
    }

    method DeleteFvmb(a: int)
      requires Inv(-1) && a in F
      modifies this`used, this`freePtr, this`lfreePtr, this`F, mem
      ensures Inv(-1) && F == old(F) - {a}
      ensures SameBlocks(old(mem[..]), mem[..], B - old(F))
      ensures Sz(mem[..], a) == Sz(old(mem[..]), a) && Md(mem[..], a) == 1
    {
      hide I2, SetI2, Threaded, Bytes, NextIs, PrevIs, Ends, SameBlocks, BlockOk;
      ghost var m := mem[..];
      BypassInRange(m, F, freePtr, lfreePtr, a);
      DeleteInv(m, used, freePtr, lfreePtr, B, F, a);
      PrevInvertsNext(m, F, freePtr, lfreePtr, a);
      var n, p := Get(a + 4), Get(a + 6);
      hide PageInv;
      if n != 0 {
        if p != 0 {
          Put(a + n + 6, Get(a + n + 6) + p);
          Put(a + p + 4, Get(a + p + 4) + n);
        } else {
          Put(a + n + 6, 0);
          freePtr := freePtr + n;
        }
      } else {
        if p != 0 {
          lfreePtr := lfreePtr + p;
          Put(a + p + 4, 0);
        } else {
          freePtr := 0;
          lfreePtr := 0;
        }
      }
      assert mem[..] == Bypass(m, a);
      Put(a + 2, 1);
      used := used + Get(a) + DSC_SZ;
      F := F - {a};
    }

    /** Joins the free block `a` with the free block right behind it. */
    method Absorb(a: int)
      requires Inv(-1) && a in F && End(mem[..], a) in F
      modifies this`lfreePtr, this`B, this`F, mem
      ensures Inv(-1) && B - F == old(B - F) && SameBlocks(old(mem[..]), mem[..], B - F)
      ensures F == old(F - {End(mem[..], a)}) && a in F
      ensures End(mem[..], a) == old(End(mem[..], End(mem[..], a)))
      ensures forall x <- F :: x != a ==> Sz(mem[..], x) == Sz(old(mem[..]), x)
    {
      hide I2, SetI2, Threaded, Bytes, Tiled, SameBlocks, Joinable;
      ghost var m := mem[..];
      BlockBounds(m, B, a);
      NextFree(m, B, F, freePtr, lfreePtr, a);
      AbsorbInRange(m, B, F, freePtr, lfreePtr, a);
      AbsorbInv(m, used, freePtr, lfreePtr, B, F, a);
      var off := Get(a) + DSC_SZ;
      var b := a + off;
      JoinableBounds(m, a);
      hide PageInv;
      var size, next := Get(b), Get(b + 4);
      if next != 0 {
        Put(a + 4, next + off);
        Put(b + next + 6, Get(b + next + 6) - off);
      } else {
        Put(a + 4, 0);
        lfreePtr := a + DSC_SZ;
      }
      Put(a, off + size);
      Bzero(b, b + FDS_SZ);
      assert mem[..] == PageLayout.Absorb(m, a);
      B, F := B - {b}, F - {b};
    }

    /** Joins the free block `a` with all free blocks that follow it without a gap. */
    method JoinFvmb(a: int)
      requires Inv(-1) && a in F
      modifies this`lfreePtr, this`B, this`F, mem
      ensures Inv(-1) && F <= old(F) && B - F == old(B - F)
      ensures SameBlocks(old(mem[..]), mem[..], B - F)
      ensures a in F && End(mem[..], a) !in F && End(mem[..], a) >= End(old(mem[..]), a)
      ensures forall x <- old(F) :: x in F || a < x < End(mem[..], a)
      ensures forall x <- F :: x != a ==> Sz(mem[..], x) == Sz(old(mem[..]), x)
      decreases F
    {
      hide I2, SetI2, Threaded, Bytes, Tiled;
      ghost var m, B0 := mem[..], B;
      NextFree(m, B, F, freePtr, lfreePtr, a);
      if Get(a + 4) == 0 {
        return;
      }
      var b := a + Get(a + 4);
      var off := Get(a) + DSC_SZ;
      if a + off != b {
        return;
      }
      Absorb(a);
      ghost var m1 := mem[..];
      BlockBounds(m, B0, a);
      BlockBounds(m, B0, b);
      JoinFvmb(a);
      BlockBounds(mem[..], B, a);
      assert forall o <- B - F :: Sz(m, o) >= 0 by { forall o | o in B - F { BlockBounds(m, B0, o); } }
      SameTrans(m, m1, mem[..], B - F);
    }

    /** Walks the free list to the first block that does not start before `a`, or the last one. */
    method Seek(a: int) returns (b: int)
      requires Inv(a) && a in B && freePtr != 0
      ensures b in F && Linked(mem[..], F, b)
      ensures b > a || Get(b + 4) == 0
      ensures if b > a then forall q <- F :: q < b ==> q < a else IsMax(F, b)
    {
      hide I2, Bytes, Tiled;
      FirstFree(mem[..], F, freePtr, lfreePtr);
      b := freePtr - DSC_SZ;
      assert Linked(mem[..], F, b);
      while b < a && Get(b + 4) > 0
        invariant b in F && Linked(mem[..], F, b)
        invariant forall q <- F :: q < b ==> q < a
        decreases mem.Length - b
      {
        b := b + Get(b + 4);
        assert Linked(mem[..], F, b);
      }
    }

    /** Clears the block `a` and links it between the free blocks that `n` and `p` lead to. */
    method Place(a: int, n: int, p: int)
      requires Inv(a) && a in B && Slot(F, a, n, p) && -0x8000 < n < 0x8000 && -0x8000 < p < 0x8000
      modifies this`used, this`freePtr, this`lfreePtr, this`F, mem
      ensures Inv(-1) && F == old(F) + {a} && SameBlocks(old(mem[..]), mem[..], B - F)
      ensures forall x <- B :: Sz(mem[..], x) == Sz(old(mem[..]), x)
    {
      hide I2, SetI2, SameBlocks, PageInv, Slot;
      ghost var m := mem[..];
      PlaceBounds(m, used, freePtr, lfreePtr, B, F, a, n, p);
      InsertInv(m, used, freePtr, lfreePtr, B, F, a, n, p);
      var size := Get(a);
      Bzero(a + DSC_SZ, a + DSC_SZ + size);
      used := used - (size + DSC_SZ);
      Put(a + 2, 0);
      Put(a + 4, n);
      Put(a + 6, p);
      if p != 0 {
        Put(a + p + 4, -p);
      } else {
        freePtr := a + DSC_SZ;
      }
      if n != 0 {
        Put(a + n + 6, -n);
      } else {
        lfreePtr := a + DSC_SZ;
      }
      F := F + {a};
      assert mem[..] == Freed(m, a, n, p);
      assert B - F == B - old(F) - {a};
    }

    /** Puts the block `a` on the free list; `s` is where joining has to start. */
    method LinkFvmb(a: int) returns (s: int)
      requires Inv(a) && a in B
      modifies this`used, this`freePtr, this`lfreePtr, this`F, mem
      ensures Inv(-1) && F == old(F) + {a} && SameBlocks(old(mem[..]), mem[..], B - F)
      ensures forall x <- B :: Sz(mem[..], x) == Sz(old(mem[..]), x)
      ensures JoinStart(old(F), a, s)
    {
      hide I2, SetI2, Threaded, Bytes, SameBlocks, Tiled, Slot, NextIs, PrevIs;
      BlockBounds(mem[..], B, a);
      FirstFree(mem[..], F, freePtr, lfreePtr);
      if freePtr == 0 {
        EmptySlot(F, a);
        Place(a, 0, 0);
        return a;
      }
      var b := Seek(a);
      var off := b - a;
      BlockBounds(mem[..], B, b);
      PrevInvertsNext(mem[..], F, freePtr, lfreePtr, b);
      SlotAt(mem[..], F, a, b);
      if off < 0 {
        SlotStart(F, a, 0, off);
        Place(a, 0, off);
        return b;
      }
      var prev := if Get(b + 6) < 0 then Get(b + 6) + off else 0;
      SlotStart(F, a, off, prev);
      Place(a, off, prev);
      return a + prev;
    }

    /** Frees the block `a`: clears it, puts it on the free list and joins from the block before it. */
    method InsertFvmb(a: int) returns (ghost s: int)
      requires Inv(a) && a in B
      modifies this`used, this`freePtr, this`lfreePtr, this`B, this`F, mem
      ensures Inv(-1) && B - F == old(B - F) - {a}
      ensures SameBlocks(old(mem[..]), mem[..], B - F)
      ensures JoinStart(old(F), a, s) && JoinedFrom(old(mem[..]), mem[..], old(F), F, a, s)
      ensures Coalesced(old(mem[..]), old(F)) ==> (Coalesced(mem[..], F) <==> !Missed(old(mem[..]), old(F), a))
    {
      hide I2, SetI2, Threaded, Bytes, SameBlocks, Tiled, Coalesced, Missed;
      ghost var m, B0, F0, L := mem[..], B, F, B - F - {a};
      var start := LinkFvmb(a);
      s := start;
      ghost var m1 := mem[..];
      assert B - F == L;
      JoinFvmb(start);
      assert forall o <- L :: Sz(m, o) >= 0 by { forall o | o in L { BlockBounds(m, B0, o); } }
      SameTrans(m, m1, mem[..], L);
      if Coalesced(m, F0) {
        CoalescedIff(m, mem[..], B0, F0, B, F, a, s);
      }
    }

    /** Cuts the used block `a` in two at `b` and frees the rest. */
    method CutVmb(a: int, b: int)
      requires Inv(-1) && a in B - F && InPage(mem[..], B)
      requires b % DSC_SZ == 0 && a + FDS_SZ <= b && b + FDS_SZ <= End(mem[..], a) <= mem.Length <= MAX_PAGE
      modifies this`used, this`freePtr, this`lfreePtr, this`B, this`F, mem
      ensures Inv(-1) && B - F == old(B - F)
      ensures SameBlocks(old(mem[..]), mem[..], B - F - {a})
      ensures Sz(mem[..], a) == b - a - DSC_SZ && Md(mem[..], a) == Md(old(mem[..]), a)
      ensures forall j :: a + DSC_SZ <= j < b ==> mem[..][j] == old(mem[..])[j]
      ensures old(F) == {} ==> OnlyFree(b, old(End(mem[..], a)))
    {
      hide I2, SetI2, Threaded, Bytes, Tiled, Coalesced, Missed, SameBlocks;
      ghost var m, B0, L := mem[..], B, B - F - {a};
      CutInv(m, used, freePtr, lfreePtr, B, F, a, b);
      var size := Get(a);
      Put(b, size - (b - a));
      Put(a, b - a - DSC_SZ);
      Put(b + 2, 0);
      B := B + {b};
      ghost var m1 := mem[..];
      assert m1 == Cut(m, a, b);
      assert B - F - {b} == old(B - F);
      ghost var s := InsertFvmb(b);
      CutKept(m, m1, mem[..], B0, B - F, a, b);
      if old(F) == {} {
        assert forall x <- B0 :: x in old(B - F);
        assert B0 + {b} - {b} <= B;
        OneJoined(m1, mem[..], B0 + {b}, B, F, b, s);
      }
    }

    /** Ends the used block `a` at the page offset `off`, if what is left over can be a free block. */
    method SplitVmb(a: int, off: int)
      requires Inv(-1) && a in B && a !in F && a + DSC_SZ < off <= a + DSC_SZ + Get(a)
      modifies this`used, this`freePtr, this`lfreePtr, this`B, this`F, mem
      ensures Inv(-1) && B - F == old(B - F)
      ensures SameBlocks(old(mem[..]), mem[..], B - F - {a})
      ensures off <= End(mem[..], a) <= old(End(mem[..], a))
      ensures forall j :: a + DSC_SZ <= j < End(mem[..], a) && j < mem.Length ==> mem[..][j] == old(mem[..])[j]
      ensures Md(mem[..], a) == Md(old(mem[..]), a)
      ensures var b := AlignDsc(off);
              if b + FDS_SZ < old(End(mem[..], a))
              then End(mem[..], a) == b && (old(F) == {} ==> OnlyFree(b, old(End(mem[..], a))))
              else End(mem[..], a) == old(End(mem[..], a)) && F == old(F)
    {
      hide I2, SetI2, Threaded, Bytes, Tiled, AlignDsc, SameBlocks;
      var b := AlignDsc(off);
      BlockBounds(mem[..], B, a);
      if b + FDS_SZ < a + Get(a) + DSC_SZ {
        CutVmb(a, b);
      } else {
        SameSelf(mem[..], B - F - {a});
      }
    }

    /** What an object in block `a` leaves of a free block that ended at `e` is the only free block. */
    ghost predicate RestFree(a: int, size: nat, align: alignment, e: int)
      reads this, mem
    {
      var b := AlignDsc(a + DSC_SZ + Pad(a + DSC_SZ, align) + size);
      b + FDS_SZ < e ==> OnlyFree(b, e)
    }

    /** The only free block is the one at `b`, which ends at `e`. */
    ghost predicate OnlyFree(b: int, e: int)
      reads this, mem
    {
      F == {b} && 0 <= b <= mem.Length - FDS_SZ && End(mem[..], b) == e
    }

    /** Moves the page to a larger area, the new room at its end being one pseudo-used block. */
    method Enlarge(size: nat)
      requires Inv(-1) && mem.Length + FDS_SZ <= size <= MAX_PAGE && size % DSC_SZ == 0
      modifies this
      ensures fresh(mem) && mem.Length == size && Inv(old(mem.Length)) && B == old(B) + {old(mem.Length)}
      ensures base == old(base) && F == old(F) && old(mem.Length) !in old(B)
      ensures old(mem[..]) <= mem[..] && Kept(old(mem[..]), mem[..], old(B))
    {
      hide I2, SetI2, Bytes, Threaded, Tiled, Kept;
      ghost var m := mem[..];
      var oldSize := mem.Length;
      var p := new Byte[size];
      for j := 0 to oldSize
        modifies p
        invariant p[..j] == m[..j]
      {
        p[j] := mem[j];
      }
      mem := p;
      Put(oldSize, size - oldSize - DSC_SZ);
      Put(oldSize + 2, DSC_SZ);
      used := used + size - oldSize;
      GrowInv(m, mem[..], old(used), freePtr, lfreePtr, B, F);
      B := B + {oldSize};
    }

    /** Moves the page to a larger area and frees the new room at its end. */
    method Grow(size: nat)
      requires Inv(-1) && (lfreePtr == 0 || DSC_SZ <= lfreePtr <= mem.Length - DSC_SZ)
      requires mem.Length + FDS_SZ <= size <= MAX_PAGE && size % DSC_SZ == 0
      modifies this
      ensures Inv(-1) && fresh(mem) && mem.Length == size && base == old(base)
      ensures B - F == old(B - F) && Kept(old(mem[..]), mem[..], B - F)
      ensures old(lfreePtr >= DSC_SZ && !NoTail()) ==>
                var t := old(lfreePtr) - DSC_SZ; t in F && End(mem[..], t) == mem.Length
    {
      hide I2, SetI2, Bytes, Threaded, Tiled, JoinedFrom, JoinStart, Kept, Coalesced, Missed, SameBlocks;
      ghost var m, B0, F0 := mem[..], B, F;
      if lfreePtr != 0 && !NoTail() {
        TailEnds();
      }
      var oldSize := mem.Length;
      Enlarge(size);
      ghost var m1 := mem[..];
      ghost var s := InsertFvmb(oldSize);
      GrownTail(m, m1, mem[..], B0, F0, B, F, s);
      assert forall o <- B - F :: Sz(m, o) >= 0 by { forall o | o in B - F { BlockBounds(m, B0, o); } }
      KeptSame(m, m1, mem[..], B0, B - F);
    }

    ghost predicate HasRoom(q: int, size: nat, align: alignment)
      reads this, mem
    {
      q in F && 0 <= q <= mem.Length - FDS_SZ && Fits(mem[..], q, size, align)
    }

    ghost predicate NoRoom(size: nat, align: alignment)
      reads this, mem
    {
      forall q :: !HasRoom(q, size, align)
    }

    /** First fit: the first free block with room for the request. */
    method FindFit(size: nat, align: alignment) returns (found: bool, a: int)
      requires Inv(-1)
      ensures found ==> HasRoom(a, size, align) && forall q :: q < a ==> !HasRoom(q, size, align)
      ensures !found ==> NoRoom(size, align)
    {
      hide I2, Bytes, Tiled, Fits;
      FirstFree(mem[..], F, freePtr, lfreePtr);
      if freePtr == 0 {
        return false, 0;
      }
      a := freePtr - DSC_SZ;
      while true
        invariant a in F
        invariant forall q :: q < a ==> !HasRoom(q, size, align)
        decreases mem.Length - a
      {
        assert Linked(mem[..], F, a);
        if Fits(mem[..], a, size, align) {
          return true, a;
        }
        if Get(a + 4) == 0 {
          return false, 0;
        }
        a := a + Get(a + 4);
      }
    }

    lemma TailEnds()
      requires Inv(-1) && (lfreePtr == 0 || DSC_SZ <= lfreePtr <= mem.Length - DSC_SZ) && !NoTail()
      ensures DSC_SZ <= lfreePtr <= mem.Length - DSC_SZ
      ensures IsMax(F, lfreePtr - DSC_SZ) && lfreePtr + Get(lfreePtr - DSC_SZ) == mem.Length
    {
      LastFree();
    }

    /** Makes the free block `a` a cleared object of at least `size` bytes behind its padding. */
    method Claim(a: int, size: nat, align: alignment)
      requires Inv(-1) && a in F && size > 0 && Fits(mem[..], a, size, align)
      modifies this`used, this`freePtr, this`lfreePtr, this`B, this`F, mem
      ensures Inv(-1) && B - F == old(B - F) + {a} && SameBlocks(old(mem[..]), mem[..], old(B - F))
      ensures Md(mem[..], a) == align && forall j :: a + DSC_SZ <= j < End(mem[..], a) && j < mem.Length ==> mem[j] == 0
      ensures a + DSC_SZ + Pad(a + DSC_SZ, align) + size <= End(mem[..], a) <= mem.Length
      ensures var b := AlignDsc(a + DSC_SZ + Pad(a + DSC_SZ, align) + size);
              if b + FDS_SZ < old(End(mem[..], a))
              then End(mem[..], a) == b
              else End(mem[..], a) == old(End(mem[..], a)) && F == old(F) - {a}
      ensures old(F) == {a} ==> RestFree(a, size, align, old(End(mem[..], a)))
    {
      hide I2, SetI2, Threaded, Bytes, Tiled, SameBlocks, AlignDsc, Pad;
      ghost var m0, B0, L := mem[..], B, B - F;
      BlockBounds(m0, B, a);
      var off := a + DSC_SZ + Pad(a + DSC_SZ, align) + size;
      DeleteFvmb(a);
      ghost var m1 := mem[..];
      assert B - F - {a} == L && (old(F) == {a} ==> F == {});
      SplitVmb(a, off);
      ghost var m2 := mem[..];
      assert B - F - {a} == L;
      assert SameBlocks(m0, m2, L) by {
        assert forall o <- L :: Sz(m0, o) >= 0 by { forall o | o in L { BlockBounds(m0, B0, o); } }
        SameTrans(m0, m1, m2, L);
      }
      ClearVmb(a, align);
      assert SameBlocks(m0, mem[..], L) by {
        assert forall o <- L :: Sz(m0, o) >= 0 by { forall o | o in L { BlockBounds(m0, B0, o); } }
        SameTrans(m0, m2, mem[..], L);
      }
      BlockBounds(mem[..], B, a);
    }

    /** Gives the used block `a` the mode `align` and clears its bytes. */
    method ClearVmb(a: int, align: alignment)
      requires Inv(-1) && a in B - F && InPage(mem[..], B)
      modifies mem
      ensures Inv(-1) && SameBlocks(old(mem[..]), mem[..], B - F - {a})
      ensures Md(mem[..], a) == align && End(mem[..], a) == old(End(mem[..], a))
      ensures forall j :: a + DSC_SZ <= j < End(mem[..], a) && j < mem.Length ==> mem[j] == 0
      ensures forall b :: 0 <= b <= mem.Length - FDS_SZ && End(mem[..], a) <= b
                ==> End(mem[..], b) == old(End(mem[..], b))
    {
      hide I2, SetI2, Threaded, Bytes, Tiled, SameBlocks, PageInv;
      ghost var m := mem[..];
      assert Tiled(m, B) by { InvTiled(m, used, freePtr, lfreePtr, B, F); }
      BlockBounds(m, B, a);
      LiveZeroInv(m, used, freePtr, lfreePtr, B, F, a, align);
      Put(a + 2, align);
      Bzero(a + DSC_SZ, a + DSC_SZ + Get(a));
      assert mem[..] == Zeroed(SetI2(m, a + 2, align), a + DSC_SZ, End(m, a));
      SameWeaken(m, mem[..], B - {a}, B - F - {a});
      forall b | 0 <= b <= mem.Length - FDS_SZ && End(m, a) <= b
        ensures End(mem[..], b) == End(m, b)
      {
        SameEnd(m, mem[..], b);
      }
    }

    /** The used block whose payload holds the page offset `p`. */
    method FindBlock(p: int) returns (found: bool, a: int)
      requires Inv(-1)
      ensures found ==> a in B - F && a + DSC_SZ <= p < End(mem[..], a)
      ensures !found ==> forall o <- B - F :: !(o + DSC_SZ <= p < End(mem[..], o))
    {
      hide I2, Threaded, Bytes, Tiled;
      a := 0;
      ZeroBlock(mem[..], B);
      while a < mem.Length
        invariant a == mem.Length || a in B
        invariant forall o <- B - F :: o < a ==> !(o + DSC_SZ <= p < End(mem[..], o))
        decreases mem.Length - a
      {
        BlockBounds(mem[..], B, a);
        NextBlock(mem[..], B, a);
        if a + DSC_SZ <= p < a + DSC_SZ + Get(a) && Get(a + 2) > 0 {
          return true, a;
        }
        a := a + Get(a) + DSC_SZ;
      }
      forall o | o in B - F ensures o < a {
        BlockBounds(mem[..], B, o);
      }
      return false, 0;
    }

    /** Appends the free block behind the used block `a` to it. */
    method Extend(a: int)
      requires Inv(-1) && a in B - F && End(mem[..], a) in F
      modifies this`used, this`freePtr, this`lfreePtr, this`B, this`F, mem
      ensures Inv(-1) && B - F == old(B - F) && SameBlocks(old(mem[..]), mem[..], B - F - {a})
      ensures old(End(mem[..], a)) <= End(mem[..], a) == old(End(mem[..], End(mem[..], a)))
      ensures Md(mem[..], a) == Md(old(mem[..]), a)
      ensures forall j :: a + DSC_SZ <= j < old(End(mem[..], a)) && j < mem.Length ==> mem[j] == old(mem[..])[j]
    {
      hide I2, SetI2, Threaded, Bytes, Tiled, SameBlocks;
      ghost var m0, B0, L := mem[..], B, B - F - {a};
      BlockBounds(m0, B, a);
      var b := a + DSC_SZ + Get(a);
      BlockBounds(m0, B, b);
      DeleteFvmb(b);
      ghost var m1 := mem[..];
      SameDescriptor(m0, m1, B0 - old(F), a);
      ExtendInv(m1, used, freePtr, lfreePtr, B, F, a, b);
      Put(a, Get(a) + Get(b) + DSC_SZ);
      SameWeaken(m1, mem[..], B - {a}, L);
      B := B - {b};
      assert B - F - {a} == L;
      assert forall o <- L :: Sz(m0, o) >= 0 by { forall o | o in L { BlockBounds(m0, B0, o); } }
      SameWeaken(m0, m1, B0 - old(F), L);
      SameTrans(m0, m1, mem[..], L);
      SamePayload(m0, m1, B0 - old(F), a);
    }

    /** A request that fits nowhere gets a page of its own instead of making this last page longer:
        no free block reaches the page end, or the one that does is too small or too far behind. */
    predicate WantsNew(pageSize: int)
      requires lfreePtr == 0 || DSC_SZ <= lfreePtr <= mem.Length - DSC_SZ
      reads this, mem
    {
      NoTail() || pageSize > mem.Length
    }

    predicate NoTail()
      requires lfreePtr == 0 || DSC_SZ <= lfreePtr <= mem.Length - DSC_SZ
      reads this, mem
    {
      || lfreePtr == 0
      || lfreePtr > mem.Length * 3 / 4
      || lfreePtr + Get(lfreePtr - DSC_SZ) < mem.Length
    }

    lemma LastFree()
      requires Inv(-1)
      ensures lfreePtr == 0 || DSC_SZ <= lfreePtr <= mem.Length - DSC_SZ
      ensures lfreePtr != 0 ==> IsMax(F, lfreePtr - DSC_SZ) && lfreePtr + Get(lfreePtr - DSC_SZ) <= mem.Length
      ensures InPage(mem[..], B) && F <= B && FDS_SZ <= mem.Length <= MAX_PAGE && mem.Length % DSC_SZ == 0
    {
      hide I2;
      assert BlockOk(mem[..], B, 0);
      if lfreePtr != 0 {
        assert BlockOk(mem[..], B, lfreePtr - DSC_SZ);
      }
    }

    /** Copies bytes of `src` into the used block `a`. */
    method Paste(ghost a: int, to: nat, src: array<Byte>, off: nat, cnt: nat)
      requires Inv(-1) && a in B - F && InPage(mem[..], B)
      requires a + DSC_SZ <= to && to + cnt <= End(mem[..], a) <= mem.Length && off + cnt <= src.Length
      requires src == mem ==> off + cnt <= to || to + cnt <= off
      modifies mem
      ensures Inv(-1) && Kept(old(mem[..]), mem[..], B - F - {a})
      ensures mem[..] == Pasted(old(mem[..]), to, old(src[off .. off + cnt])) && End(mem[..], a) == old(End(mem[..], a))
    {
      hide I2, PageInv, Pasted;
      ghost var m, s := mem[..], src[off .. off + cnt];
      Bcopy(src, off, mem, to, cnt);
      PastedPayload(m, to, s, a);
      WritePayloadInv(m, mem[..], used, freePtr, lfreePtr, B, F, a);
      KeptOthers(m, mem[..], B, F, a);
    }

    // ---- A page with free blocks that touch ----

    /** The first `n` blocks of 20 bytes are in use, the rest of the page is free. */
    ghost predicate InUse(n: nat)
      reads this, mem
    {
      && Inv(-1) && mem.Length == 0x1000 && InPage(mem[..], B)
      && OnlyFree(20 * n, 0x1000) && B - F == (set i: nat | i < n :: 20 * i)
      && forall i: nat | i < n :: 20 * i in B && End(mem[..], 20 * i) == 20 * i + 20
    }

    method ClaimNext(n: nat)
      requires InUse(n) && n < 3
      modifies this`used, this`freePtr, this`lfreePtr, this`B, this`F, mem
      ensures InUse(n + 1)
    {
      hide I2, PageInv;
      ghost var m, L := mem[..], B - F;
      var a := 20 * n;
      Claim(a, 16, 4);
      assert InPage(mem[..], B) by { InvTiled(mem[..], used, freePtr, lfreePtr, B, F); }
      forall i: nat | i < n
        ensures 20 * i in B && End(mem[..], 20 * i) == 20 * i + 20
      {
        assert 20 * i in L;
        SameDescriptor(m, mem[..], L, 20 * i);
      }
      assert B - F == set i: nat | i < n + 1 :: 20 * i;
    }

    /** Frees the first of three blocks. */
    method FreeFirst()
      requires InUse(3)
      modifies this`used, this`freePtr, this`lfreePtr, this`B, this`F, mem
      ensures Inv(-1) && InPage(mem[..], B) && B - F == {20, 40} && F == {0, 60}
      ensures Coalesced(mem[..], F) && Missed(mem[..], F, 40)
    {
      hide I2, PageInv, SameBlocks;
      ghost var m := mem[..];
      assert 20 * 0 == 0 && 20 * 1 == 20 && 20 * 2 == 40;
      assert B - F == {0, 20, 40};
      PendInv(m, used, freePtr, lfreePtr, B, F, 0);
      ghost var s := InsertFvmb(0);
      InvTiled(mem[..], used, freePtr, lfreePtr, B, F);
      BlockBounds(mem[..], B, 0);
      assert B - F == {0, 20, 40} - {0} == {20, 40};
      assert 20 in B - F && 40 in B - F;
      assert BlockOk(mem[..], B, 0);
      assert End(mem[..], 0) == 20;
      SameDescriptor(m, mem[..], B - F, 40);
      assert F == {0, 60};
    }

    /** Three objects are allocated on a fresh page, and the first and the last one are freed: the last
        one and the free space behind it touch, but are not joined. */
    static method TouchingLeft() returns (p: Page)
      ensures fresh(p) && p.Inv(-1) && InPage(p.mem[..], p.B) && p.B - p.F == {20} && !Coalesced(p.mem[..], p.F)
    {
      hide I2, PageInv, SameBlocks, Coalesced, Missed;
      p := new Page(0, 0x1000);
      InvTiled(p.mem[..], p.used, p.freePtr, p.lfreePtr, p.B, p.F);
      assert p.B - p.F == set i: nat | i < 0 :: 20 * i;
      p.ClaimNext(0);
      p.ClaimNext(1);
      p.ClaimNext(2);
      p.FreeFirst();
      PendInv(p.mem[..], p.used, p.freePtr, p.lfreePtr, p.B, p.F, 40);
      ghost var _ := p.InsertFvmb(40);
      InvTiled(p.mem[..], p.used, p.freePtr, p.lfreePtr, p.B, p.F);
    }
  }
}
