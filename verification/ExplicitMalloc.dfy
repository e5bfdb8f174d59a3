/** The explicit-list allocator at work: it reads and writes tags and links in memory and
    keeps four pointers. Each method is tied to its effect on the layout. */
module ExplicitMalloc {
  import opened ByteMemory
  import opened BlockTags
  import opened ExplicitLayout
  import opened ExplicitMemory

  class Allocator {
    const base: int    // where the first block goes: 8 bytes past the start of the heap
    const limit: int   // one past the last byte the heap may use
    var mem: Memory
    var brk: int
    var heapFirst: int
    var heapLast: int
    var freeFirst: int
    var freeLast: int
    ghost var lay: Layout

    /** Memory and the list pointers represent the layout. */
    ghost predicate Core(pending: set<int>)
      reads this
    {
      && Represented(mem, lay, base, pending)
      && brk == lay.brk && brk <= limit < TWO64 - 1
      && freeFirst == FirstOf(lay.free) && freeLast == LastOf(lay.free)
    }

    ghost predicate Valid(pending: set<int>)
      reads this
    {
      Core(pending) && heapFirst == (if brk == base then 0 else base) && heapLast == lay.last
    }

    /** mm_init on a heap whose first byte is at `start`: 8 bytes of padding, no blocks. */
    constructor (start: int, size: int)
      requires start >= 0 && start % 16 == 0 && size >= 8 && start + size < TWO64 - 1
      ensures Valid({}) && lay == Layout(map[], [], base, 0) && base == start + 8 && limit == start + size
    {
      base, limit, mem, brk := start + 8, start + size, map[], start + 8;
      heapFirst, heapLast, freeFirst, freeLast := 0, 0, 0, 0;
      lay := Layout(map[], [], start + 8, 0);
    }

    function GetSize(block: int): int
      reads this
    {
      SizeBits(Load(mem, block))
    }

    predicate IsAllocated(block: int)
      reads this
    {
      AllocBit(Load(mem, block))
    }

    lemma ReadTag(pending: set<int>, a: int)
      requires Core(pending) && a in lay.blocks
      ensures GetSize(a) == lay.blocks[a].size && IsAllocated(a) == lay.blocks[a].alloc
      ensures Load(mem, a + lay.blocks[a].size - 8) == Load(mem, a)
    {
      hide Load, Represented, SizeBits, AllocBit;
      TagAt(mem, lay, base, pending, a);
    }

    method SetHeader(block: int, size: nat, alloc: bool)
      modifies this`mem
      ensures mem == Store(old(mem), block, Tag(size, alloc))
    {
      mem := Store(mem, block, Tag(size, alloc));
    }

    method SetFooter(block: int, size: nat, alloc: bool)
      modifies this`mem
      ensures mem == Store(old(mem), block + size - 8, Tag(size, alloc))
    {
      mem := Store(mem, block + size - 8, Tag(size, alloc));
    }

    /** remove_from_freelist */
    method RemoveFromFreelist(curr: int, ghost pending: set<int>)
      requires Core(pending) && curr in lay.free
      modifies this`mem, this`freeFirst, this`freeLast, this`lay
      ensures lay == Unlist(old(lay), curr) && Core(pending + {curr})
      ensures SameLive(old(mem), mem, lay)
    {
      hide Load, Store, SizeBits, AllocBit, Tagged, SameLive, Invariant, Linked, Represented;
      ghost var s, before := lay.free, mem;
      ghost var k := IndexOf(s, curr);
      ListIsSimple(mem, lay, base, pending);
      ListedAt(mem, lay, base, pending, k);
      if curr == freeFirst && curr == freeLast {
        UnlinkOnly(mem, lay, base, pending);
        freeFirst, freeLast := 0, 0;
      } else if curr == freeFirst {
        UnlinkHead(mem, lay, base, pending);
        var next := Load(mem, curr + 8);
        freeFirst := next;
        mem := Store(mem, next + 16, 0);
      } else if curr == freeLast {
        UnlinkTail(mem, lay, base, pending);
        var prev := Load(mem, curr + 16);
        freeLast := prev;
        mem := Store(mem, prev + 8, 0);
      } else {
        UnlinkInside(mem, lay, base, pending, k);
        var next, prev := Load(mem, curr + 8), Load(mem, curr + 16);
        mem := Store(mem, next + 16, prev);
        mem := Store(mem, prev + 8, next);
      }
      UnlinkedRepresented(before, mem, lay, base, pending, curr);
      lay := Unlist(lay, curr);
    }

    /** add_to_freelist, for a block already marked free whose neighbours are allocated. In a block
        of 16 bytes the links are written over its own footer and the word after it. */
    method AddToFreelist(block: int)
      requires Core({block}) && IsFree(lay, block) && Coalesced(lay, {})
      modifies this`mem, this`freeFirst, this`freeLast, this`lay
      ensures lay == Push(old(lay), block)
      ensures mem == LinkIn(old(mem), block, old(lay).blocks[block].size, old(freeFirst))
      ensures Linkable(old(lay), block) ==> Core({}) && SameLive(old(mem), mem, lay)
    {
      hide Load, Store, SizeBits, AllocBit, Tagged, SameLive, Invariant, Linked, Represented, Coalesced;
      ReadTag({block}, block);
      BlockAddress(mem, lay, base, {block}, block);
      if Linkable(lay, block) {
        PushRepresented(mem, lay, base, block);
      }
      ListIsSimple(mem, lay, base, {block});
      var size := GetSize(block);
      SetHeader(block, size, false);
      SetFooter(block, size, false);
      if freeFirst == 0 {
        freeFirst := block;
        mem := Store(mem, freeFirst + 16, 0);
        mem := Store(mem, freeFirst + 8, 0);
        freeLast := block;
      } else {
        mem := Store(mem, freeFirst + 16, block);
        mem := Store(mem, block + 8, freeFirst);
        freeFirst := block;
      }
      assert Push(lay, block).blocks == lay.blocks;
      SameBlocksMemory(old(mem), mem, lay, Push(lay, block));
      lay := Push(lay, block);
    }

    /** find_fit: the first listed block that is large enough, taken off the list. */
    method FindFit(size: int) returns (block: int)
      requires Valid({})
      modifies this`mem, this`freeFirst, this`freeLast, this`lay
      ensures var k := FirstFit(old(lay), size, 0);
        if k == |old(lay).free| then block == 0 && lay == old(lay) && mem == old(mem) && Valid({})
        else block == old(lay).free[k] && lay == Unlist(old(lay), block) && Valid({block}) && SameLive(old(mem), mem, lay)
    {
      hide Load, Store, SizeBits, AllocBit, Tagged, SameLive, Invariant, Linked, Represented;
      ListIsSimple(mem, lay, base, {});
      var curr := freeFirst;
      ghost var k := 0;
      while freeLast != 0 && curr != 0
        invariant 0 <= k <= |lay.free| && curr == (if k < |lay.free| then lay.free[k] else 0)
        invariant mem == old(mem) && lay == old(lay) && freeFirst == old(freeFirst) && freeLast == old(freeLast)
        invariant FirstFit(lay, size, 0) == FirstFit(lay, size, k)
        decreases |lay.free| - k
      {
        ListedAt(mem, lay, base, {}, k);
        ReadTag({}, curr);
        var currSize := GetSize(curr);
        if currSize >= size {
          RemoveFromFreelist(curr, {});
          assert {} + {curr} == {curr};
          return curr;
        }
        curr := Load(mem, curr + 8);
        k := k + 1;
      }
      return 0;
    }

    /** split_block_exp */
    method SplitBlock(block: int, size: int, blockSize: int) returns (payload: int)
      requires Valid({block}) && IsFree(lay, block) && Coalesced(lay, {})
      requires blockSize == lay.blocks[block].size && 16 <= size <= blockSize - 32 && size % 16 == 0
      modifies this
      ensures payload == block + 8 && lay == Push(Split(old(lay), block, size), block + size) && Valid({})
      ensures SameLive(old(mem), mem, lay)
    {
      hide Load, Store, SizeBits, AllocBit, Tagged, SameLive, Linked, Coalesced, Tiled, Aligned, Listed, Split;
      ghost var s := Split(lay, block, size);
      SplitTiled(lay, base, block, size);
      SplitAligned(lay, block, size);
      SplitListed(lay, base, block, size);
      SplitCoalesced(lay, base, block, size);
      CoalescedMore(s, {block + size});
      SplitFields(lay, base, block, size);
      RetagTwo(mem, lay, s, base, {block + size}, block, block + size);
      SetHeader(block, size, true);
      SetFooter(block, size, true);
      var freed := block + size;
      SetHeader(freed, blockSize - size, false);
      SetFooter(freed, blockSize - size, false);
      lay := s;
      ghost var half := mem;
      AddToFreelist(freed);
      assert lay.blocks == s.blocks;
      SameBlocksMemory(old(mem), half, s, lay);
      SameLiveTrans(old(mem), half, mem, lay);
      if block == heapLast {
        heapLast := block + size;
      }
      return block + 8;
    }

    /** The common end of both coalescing directions: p swallows its right neighbour q. */
    method Swallow(p: int, q: int, newSize: nat, ghost pending: set<int>)
      requires Valid(pending) && IsFree(lay, p) && q in lay.blocks && q == p + lay.blocks[p].size
      requires newSize == lay.blocks[p].size + lay.blocks[q].size
      requires Invariant(Join(lay, p, q), base, {p})
      modifies this`mem, this`heapLast, this`lay
      ensures lay == Join(old(lay), p, q) && Valid({p}) && SameLive(old(mem), mem, lay)
    {
      hide Load, Store, Tagged, SameLive, Linked, Coalesced, Tiled, Aligned, Listed, Join, SameBut;
      ghost var u := lay;
      JoinFields(u, base, p, q);
      Retag(mem, u, Join(u, p, q), base, {p}, p);
      if q == heapLast {
        heapLast := p;
      }
      SetHeader(p, newSize, false);
      SetFooter(p, newSize, false);
      lay := Join(u, p, q);
    }

    /** coalesce_left: the block is marked free and merged with a free left neighbour. */
    method CoalesceLeft(block: int) returns (merged: int)
      requires Valid({}) && block in lay.blocks && lay.blocks[block].alloc
      modifies this
      ensures (lay, merged) == MergeLeft(old(lay), base, block) && Valid({merged})
      ensures SameLive(old(mem), mem, lay)
    {
      hide Load, Store, SizeBits, AllocBit, Tagged, SameLive, Linked, Coalesced, Tiled, Aligned, Listed, Join, SameBut, Unlist;
      ghost var l := lay;
      Neighbours(l, base, block);
      Bounds(l, base, block);
      MergeLeftInvariant(l, base, block);
      ReadTag({}, block);
      merged := block;
      var newSize := GetSize(block);
      var prevSize, prev := 0, 0;
      if block != heapFirst {
        ReadTag({}, l.blocks[block].prev);
        var footer := Load(mem, block - 8);
        prevSize := SizeBits(footer);
        prev := block - prevSize;
      }
      if block != heapFirst && !IsAllocated(prev) {
        newSize := prevSize + newSize;
        ListedIfFree(l, base, {}, prev);
        RemoveFromFreelist(prev, {});
        assert {} + {prev} == {prev};
        UnlistFields(l, prev);
        ghost var u, half := lay, mem;
        Swallow(prev, block, newSize, {prev});
        merged := prev;
        LiveAfterJoin(old(mem), half, u, prev, block);
        SameLiveTrans(old(mem), half, mem, lay);
      } else {
        ghost var f := SetAlloc(l, block, false);
        SetAllocFields(l, block, false);
        Retag(mem, l, f, base, {block}, block);
        SetHeader(merged, newSize, false);
        SetFooter(merged, newSize, false);
        lay := f;
      }
    }

    /** coalesce_right: merges with a free right neighbour. */
    method CoalesceRight(block: int) returns (merged: int)
      requires Valid({block}) && IsFree(lay, block)
      modifies this
      ensures merged == block && lay == MergeRight(old(lay), block) && Valid({block})
      ensures SameLive(old(mem), mem, lay)
    {
      hide Load, Store, SizeBits, AllocBit, Tagged, SameLive, Linked, Coalesced, Tiled, Aligned, Listed, Join, SameBut, Unlist;
      ghost var l := lay;
      Neighbours(l, base, block);
      Bounds(l, base, block);
      MergeRightInvariant(l, base, block);
      ReadTag({block}, block);
      merged := block;
      var newSize := GetSize(block);
      var nextSize, next := 0, 0;
      if block != heapLast {
        next := block + newSize;
        ReadTag({block}, next);
        nextSize := GetSize(next);
      }
      if block != heapLast && !IsAllocated(next) {
        newSize := newSize + nextSize;
        ListedIfFree(l, base, {block}, next);
        RemoveFromFreelist(next, {block});
        UnlistFields(l, next);
        ghost var u, half := lay, mem;
        Swallow(block, next, newSize, {block} + {next});
        LiveAfterJoin(old(mem), half, u, block, next);
        SameLiveTrans(old(mem), half, mem, lay);
      } else {
        SameButSelf(l, block);
        Retag(mem, l, l, base, {block}, block);
        SetHeader(merged, newSize, false);
        SetFooter(merged, newSize, false);
      }
    }

    /** The rest of mm_malloc when find_fit succeeded: split the block or use it whole. */
    method UseBlock(block: int, size: int, ghost l: Layout) returns (payload: int)
      requires Valid({block}) && Invariant(l, base, {}) && block in l.free && IsFree(l, block) && lay == Unlist(l, block)
      requires 16 <= size <= l.blocks[block].size && size % 16 == 0
      modifies this
      ensures payload == block + 8 && lay == Take(l, block, size) && Valid({})
      ensures SameLive(old(mem), mem, lay)
    {
      hide Load, Store, SizeBits, AllocBit, Tagged, SameLive, Linked, Coalesced, Tiled, Aligned, Listed, Split, Push, SameBut, Unlist;
      UnlistFields(l, block);
      UnlistInvariant(l, base, {}, block);
      TakeInvariant(l, base, block, size);
      ReadTag({block}, block);
      var blockSize := GetSize(block);
      if blockSize >= RoundUp(size + 24, 16) {
        assert RoundUp(size + 24, 16) == size + 32;
        payload := SplitBlock(block, size, blockSize);
      } else {
        ghost var u := lay;
        ghost var whole := SetAlloc(u, block, true);
        SetAllocFields(u, block, true);
        Retag(mem, u, whole, base, {}, block);
        SetHeader(block, blockSize, true);
        SetFooter(block, blockSize, true);
        lay := whole;
        payload := block + 8;
      }
    }

    /** The rest of mm_malloc when nothing fits: a new block at the break. */
    method GrowHeap(size: int) returns (payload: int)
      requires Valid({}) && size >= 16 && size % 16 == 0 && brk + size <= limit
      modifies this
      ensures payload == old(brk) + 8 && lay == Extend(old(lay), size) && Valid({})
      ensures SameLive(old(mem), mem, lay)
    {
      hide Load, Store, SizeBits, AllocBit, Tagged, SameLive, Linked, Coalesced, Tiled, Aligned, Listed, Extend, SameBut;
      ghost var l := lay;
      ghost var e := Extend(l, size);
      ExtendInvariant(l, base, size);
      ExtendFields(l, base, size);
      EmptyHeap(l, base);
      var block := brk;
      brk := brk + size;
      if heapFirst == 0 {
        heapFirst := block;
      }
      heapLast := block;
      Retag(mem, l, e, base, {}, block);
      SetHeader(block, size, true);
      SetFooter(block, size, true);
      lay := e;
      payload := block + 8;
    }

    /** mm_malloc: the payload address, or 0 if the heap is exhausted. */
    method MmMalloc(request: nat) returns (payload: int)
      requires Valid({})
      modifies this
      ensures Valid({})
      ensures var (l', a) := Malloc(old(lay), request, limit);
        lay == l' && payload == (if a == 0 then 0 else a + 8)
      ensures SameLive(old(mem), mem, old(lay)) && (payload == 0 ==> mem == old(mem))
      ensures Large(old(lay)) && request >= 1 ==> Large(lay)
      ensures payload != 0 ==> Granted(old(lay), lay, payload - 8, request) && lay.blocks[payload - 8].size < request + 48
    {
      hide Large, Granted, Load, Store, SizeBits, AllocBit, SameLive, Invariant, Tagged, Linked, Extend, Take, KeepsLive, Unlist;
      ghost var l := lay;
      if Large(l) && request >= 1 {
        MallocLarge(l, request, limit);
      }
      MallocKeepsLive(l, base, request, limit);
      MallocGranted(l, base, request, limit);
      MallocAddress(l, base, request, limit);
      BlockSizeOk(request);
      EmptyHeap(l, base);
      SameLiveSelf(mem, l);
      var size := RoundUp(8 + request + 8, 16);
      ghost var k := FirstFit(l, size, 0);
      if k < |l.free| {
        FitFacts(l, base, size, k);
      }
      var block := FindFit(size);
      if block != 0 {
        UnlistFields(l, block);
        ghost var half := mem;
        payload := UseBlock(block, size, l);
        TookLive(old(mem), half, mem, l, Unlist(l, block), lay);
      } else {
        if brk + size > limit {
          return 0;
        }
        payload := GrowHeap(size);
        SameLiveKept(old(mem), mem, l, lay);
      }
    }

    /** mm_free. A block without room for links and without a free neighbour is lost: its footer is
        overwritten, and into an empty list also the header of the block after it. */
    method MmFree(payload: int)
      requires Valid({})
      requires payload != 0 ==> payload - 8 in lay.blocks && lay.blocks[payload - 8].alloc
      modifies this
      ensures payload == 0 ==> Valid({}) && lay == old(lay) && mem == old(mem)
      ensures payload != 0 ==> lay == Free(old(lay), base, payload - 8)
      ensures payload != 0 ==> (Valid({}) <==> CanFree(old(lay), base, payload - 8))
      ensures payload != 0 && CanFree(old(lay), base, payload - 8) ==> SameLive(old(mem), mem, lay)
      ensures Large(old(lay)) ==> Valid({}) && Large(lay)
      ensures payload != 0 && !CanFree(old(lay), base, payload - 8) ==>
        Load(mem, payload) == old(freeFirst) && (old(freeFirst) == 0 ==> Load(mem, payload + 8) == 0)
    {
      hide Large, Load, Store, SizeBits, AllocBit, Tagged, SameLive, Linked, Coalesced, Tiled, Aligned, Listed, Push, MergeLeft, MergeRight, LinkIn;
      if payload == 0 {
        return;
      }
      ghost var l := lay;
      var block := payload - 8;
      if Large(l) {
        FreeLarge(l, base, block);
      }
      FreeInvariant(l, base, block);
      MergedSize(l, base, block);
      AloneWhenLost(l, base, block);
      MergeLeftInvariant(l, base, block);
      block := CoalesceLeft(block);
      ghost var l1, m1 := lay, mem;
      MergeRightInvariant(l1, base, block);
      block := CoalesceRight(block);
      ghost var l2, m2 := lay, mem;
      PendingCoalesced(l2, base, block);
      PushFields(l2, block);
      ghost var first := freeFirst;
      BlockAddress(m2, l2, base, {block}, block);
      AddToFreelist(block);
      MergeRightLive(l1, block);
      if CanFree(l, base, payload - 8) {
        FreedLive(old(mem), m1, m2, mem, l1, l2, lay);
      } else {
        LinksOverwrite(m2, block, first);
      }
    }

    /** Copy bytes into the payload of a live block. */
    method CopyPayload(dst: int, src: int, n: nat)
      requires Valid({}) && dst - 8 in lay.blocks && lay.blocks[dst - 8].alloc && n <= lay.blocks[dst - 8].size - 16
      modifies this`mem
      ensures Valid({}) && Invariant(lay, base, {})
      ensures forall x :: !(dst <= x < dst + n) ==> ByteAt(mem, x) == ByteAt(old(mem), x)
      ensures forall x :: dst <= x < dst + n ==> ByteAt(mem, x) == ByteAt(old(mem), src + (x - dst))
    {
      hide Load, Invariant, Represented;
      CopyBytes(mem, dst, src, n);
      PayloadWrite(mem, Copy(mem, dst, src, n), lay, base, dst - 8);
      mem := Copy(mem, dst, src, n);
      RepresentedInvariant(mem, lay, base);
    }

    /** mm_realloc on a live block: a new block, the bytes that both can hold copied over, the old
        block freed. On an exhausted heap the bytes are copied to address 0, which crashes. */
    method ReallocLive(payload: int, request: nat) returns (newPayload: int, crash: bool)
      requires Valid({}) && request >= 1
      requires payload - 8 in lay.blocks && lay.blocks[payload - 8].alloc
      modifies this
      ensures Reallocated(old(lay), old(mem), lay, mem, base, limit, payload, request, newPayload, crash)
      ensures Valid({}) <==> crash || CanFree(Malloc(old(lay), request, limit).0, base, payload - 8)
      ensures Large(old(lay)) ==> Valid({}) && Large(lay)
    {
      hide Large, Granted, Load, Store, SizeBits, AllocBit, Invariant, Represented, Malloc, Free, SameLive, KeepsLive, InPayload, CanFree;
      ghost var l, m0 := lay, mem;
      RepresentedInvariant(mem, l, base);
      var block := payload - 8;
      MallocKeepsLive(l, base, request, limit);
      MallocInvariant(l, base, request, limit);
      MallocAddress(l, base, request, limit);
      BlockSizeOk(request);
      ReadTag({}, block);
      SizesOk(mem, l, base, block);
      var oldSize := GetSize(block) - 16;
      newPayload := MmMalloc(request);
      ghost var l1, m1 := lay, mem;
      LiveStays(l, l1, block);
      var n := if oldSize < request then oldSize else request;
      crash := newPayload == 0 && n > 0;
      if crash {
        return;
      }
      if n > 0 {
        NewBlock(l, base, newPayload - 8);
        CopyPayload(newPayload, payload, n);
      }
      ghost var m2 := mem;
      FreeKeepsLive(l1, base, block);
      MmFree(payload);
      InvariantTiled(l1, base);
      if CanFree(l1, base, block) {
        if n > 0 {
          ReallocBytes(m0, m1, m2, mem, l, l1, lay, base, block, newPayload - 8, n);
        } else {
          FreedBytes(m0, m1, mem, l, l1, lay, block);
        }
      }
    }

    /** mm_realloc */
    method MmRealloc(payload: int, request: nat) returns (newPayload: int, crash: bool)
      requires Valid({})
      requires payload != 0 ==> payload - 8 in lay.blocks && lay.blocks[payload - 8].alloc
      modifies this
      ensures payload == 0 ==>
        var (l', a) := Malloc(old(lay), request, limit);
        Valid({}) && !crash && lay == l' && newPayload == (if a == 0 then 0 else a + 8) && SameLive(old(mem), mem, old(lay))
      ensures payload != 0 && request == 0 ==>
        && newPayload == 0 && !crash && lay == Free(old(lay), base, payload - 8)
        && (Valid({}) <==> CanFree(old(lay), base, payload - 8)) && (Valid({}) ==> SameLive(old(mem), mem, lay))
      ensures payload != 0 && request >= 1 ==>
        && Reallocated(old(lay), old(mem), lay, mem, base, limit, payload, request, newPayload, crash)
        && (Valid({}) <==> crash || CanFree(Malloc(old(lay), request, limit).0, base, payload - 8))
      ensures Large(old(lay)) && (payload == 0 ==> request >= 1) ==> Valid({}) && Large(lay)
    {
      hide Large, Granted, Load, Store, SizeBits, AllocBit, Represented, Malloc, Free, SameLive, InPayload, CanFree, Reallocated;
      crash := false;
      if payload == 0 {
        newPayload := MmMalloc(request);
      } else if request == 0 {
        MmFree(payload);
        newPayload := 0;
      } else {
        newPayload, crash := ReallocLive(payload, request);
      }
    }
  }

  /** What reallocating a live block does: it crashes exactly when there is no room and there are
      bytes to copy; otherwise the old block is freed after the new one was taken, and unless freeing
      it goes wrong the common bytes are in the new block and the other live payloads unchanged. */
  ghost predicate Reallocated(l: Layout, m: Memory, l': Layout, m': Memory, base: int, limit: int,
                              payload: int, request: nat, newPayload: int, crash: bool)
    requires payload - 8 in l.blocks
  {
    var (l1, a) := Malloc(l, request, limit);
    var n := Min(l.blocks[payload - 8].size - 16, request);
    && (crash <==> a == 0 && n > 0)
    && (crash ==> l' == l && m' == m)
    && payload - 8 in l1.blocks
    && (!crash ==> newPayload == (if a == 0 then 0 else a + 8) && l' == Free(l1, base, payload - 8))
    && (!crash && CanFree(l1, base, payload - 8) ==>
         && (forall x :: newPayload <= x < newPayload + n ==> ByteAt(m', x) == ByteAt(m, payload + (x - newPayload)))
         && (forall b, x {:trigger InPayload(l, b, x)} ::
               InPayload(l, b, x) && b != payload - 8 ==> ByteAt(m', x) == ByteAt(m, x)))
  }

  /** On any fresh heap with room: mm_malloc(0), mm_malloc(1) and freeing the first leaves a header
      of 0 at the second block, which is still live. */
  method ZeroRequestDestroysNeighbour(start: int, size: int) returns (heap: Allocator, first: int, second: int)
    requires start >= 0 && start % 16 == 0 && size >= 56 && start + size < TWO64 - 1
    ensures fresh(heap) && first != 0 && second != 0
    ensures second - 8 in heap.lay.blocks && heap.lay.blocks[second - 8].alloc
    ensures Load(heap.mem, second - 8) == 0 && !heap.Valid({})
  {
    hide Load, Represented, SameLive, Free, Malloc, CanFree, Invariant, KeepsLive;
    heap := new Allocator(start, size);
    ghost var b := heap.base;
    TwoBlocksLayout(b, heap.limit);
    first := heap.MmMalloc(0);
    second := heap.MmMalloc(1);
    ValidInvariant(heap);
    SecondStaysLive(b);
    heap.MmFree(first);
  }

  /** A block of 16 bytes at the start of the heap and one of 32 bytes after it. */
  function TwoBlocks(b: int): Layout
  {
    Extend(Extend(Layout(map[], [], b, 0), 16), 32)
  }

  lemma TwoBlocksLayout(b: int, limit: int)
    requires b > 0 && b + 48 <= limit
    ensures
      var (l1, a1) := Malloc(Layout(map[], [], b, 0), 0, limit);
      var (l2, a2) := Malloc(l1, 1, limit);
      a1 == b && a2 == b + 16 && l2 == TwoBlocks(b)
  {
    hide Malloc, BlockSize, RoundUp, FirstFit;
    TwoSizes();
    MallocGrows(Layout(map[], [], b, 0), 0, limit);
    MallocGrows(Extend(Layout(map[], [], b, 0), 16), 1, limit);
  }

  lemma TwoSizes()
    ensures BlockSize(0) == 16 && BlockSize(1) == 32
  {
  }

  lemma MallocGrows(l: Layout, request: nat, limit: int)
    requires l.free == [] && l.brk + BlockSize(request) <= limit
    ensures Malloc(l, request, limit) == (Extend(l, BlockSize(request)), l.brk)
  {
    hide Extend;
  }

  lemma SecondStaysLive(b: int)
    requires Invariant(TwoBlocks(b), b, {})
    ensures b in TwoBlocks(b).blocks && !CanFree(TwoBlocks(b), b, b)
    ensures
      var l := Free(TwoBlocks(b), b, b);
      b + 16 in l.blocks && l.blocks[b + 16].alloc
  {
    hide Invariant, Free;
    FreeKeepsLive(TwoBlocks(b), b, b);
  }

  lemma ValidInvariant(heap: Allocator)
    requires heap.Valid({})
    ensures Invariant(heap.lay, heap.base, {})
  {
    RepresentedInvariant(heap.mem, heap.lay, heap.base);
  }

  function Min(a: int, b: int): int
  {
    if a < b then a else b
  }

  /** Memory after add_to_freelist wrote the tags of a block and its links in front of `first`. */
  function LinkIn(m: Memory, a: int, size: int, first: int): Memory
  {
    if size < 0 || a < 0 || first < 0 then m
    else
      var m1 := SetTags(m, a, size, false);
      if first == 0 then Store(Store(m1, a + 16, 0), a + 8, 0) else Store(Store(m1, first + 16, a), a + 8, first)
  }

  lemma MallocAddress(l: Layout, base: int, request: nat, limit: int)
    requires Invariant(l, base, {})
    ensures Malloc(l, request, limit).1 >= 0
  {
    hide Malloc;
    MallocInvariant(l, base, request, limit);
    var (l', a) := Malloc(l, request, limit);
    if a != 0 {
      Bounds(l', base, a);
    }
  }

  lemma LinksOverwrite(m: Memory, a: int, first: int)
    requires a >= 0 && 0 <= first < TWO64
    ensures Load(LinkIn(m, a, 16, first), a + 8) == first
    ensures first == 0 ==> Load(LinkIn(m, a, 16, first), a + 16) == 0
  {
    hide Load, Store, SetTags;
    Laws();
  }

  lemma BlockAddress(m: Memory, l: Layout, base: int, pending: set<int>, a: int)
    requires Represented(m, l, base, pending) && a in l.blocks
    ensures a >= 0 && l.blocks[a].size >= 16 && 0 <= FirstOf(l.free) < TWO64
  {
    hide Tagged, Linked, Coalesced, Aligned;
    Bounds(l, base, a);
    if l.free != [] {
      assert Linkable(l, l.free[0]);
      Bounds(l, base, l.free[0]);
    }
  }

  /** A block that cannot be freed has 16 bytes and merges with nothing. */
  lemma AloneWhenLost(l: Layout, base: int, a: int)
    requires Invariant(l, base, {}) && a in l.blocks && l.blocks[a].alloc
    ensures !CanFree(l, base, a) ==>
      && MergeLeft(l, base, a) == (SetAlloc(l, a, false), a)
      && MergeRight(SetAlloc(l, a, false), a) == SetAlloc(l, a, false)
      && l.blocks[a].size == 16
  {
    hide Tiled, Listed, Coalesced;
    assert AlignedAt(l, a);
    assert l.blocks[a].size >= 16 by { InvariantTiled(l, base); Bounds(l, base, a); }
  }

  lemma FreedBytes(m0: Memory, m1: Memory, m3: Memory, l: Layout, l1: Layout, l2: Layout, freed: int)
    requires SameLive(m0, m1, l) && KeepsLive(l, l1, {}) && KeepsLive(l1, l2, {freed}) && SameLive(m1, m3, l2)
    ensures forall b, x {:trigger InPayload(l, b, x)} :: InPayload(l, b, x) && b != freed ==> ByteAt(m3, x) == ByteAt(m0, x)
  {
    forall b, x | InPayload(l, b, x) && b != freed ensures ByteAt(m3, x) == ByteAt(m0, x) {
      assert InPayload(l1, b, x) && InPayload(l2, b, x);
      assert ByteAt(m1, x) == ByteAt(m0, x);
    }
  }

  lemma SizesOk(m: Memory, l: Layout, base: int, a: int)
    requires Represented(m, l, base, {}) && a in l.blocks
    ensures l.blocks[a].size >= 16 && a > 0
  {
    Bounds(l, base, a);
  }

  lemma RepresentedInvariant(m: Memory, l: Layout, base: int)
    requires Represented(m, l, base, {})
    ensures Invariant(l, base, {})
  {
  }

  lemma InvariantTiled(l: Layout, base: int)
    requires Invariant(l, base, {})
    ensures Tiled(l, base)
  {
  }

  /** The block mm_malloc returned is none of the blocks that were live before. */
  lemma NewBlock(l: Layout, base: int, a: int)
    requires Invariant(l, base, {}) && (IsFree(l, a) || a == l.brk)
    ensures forall b :: b in l.blocks && l.blocks[b].alloc ==> b != a
  {
    if l.brk in l.blocks {
      Bounds(l, base, l.brk);
      assert false;
    }
  }

  lemma ReallocBytes(m0: Memory, m1: Memory, m2: Memory, m3: Memory, l: Layout, l1: Layout, l2: Layout,
                     base: int, freed: int, a: int, n: nat)
    requires Tiled(l1, base) && freed in l.blocks && l.blocks[freed].alloc && a in l1.blocks && l1.blocks[a].alloc
    requires forall b :: b in l.blocks && l.blocks[b].alloc ==> b != a
    requires n <= l.blocks[freed].size - 16 && n <= l1.blocks[a].size - 16
    requires SameLive(m0, m1, l) && KeepsLive(l, l1, {}) && KeepsLive(l1, l2, {freed})
    requires forall x :: !(a + 8 <= x < a + 8 + n) ==> ByteAt(m2, x) == ByteAt(m1, x)
    requires forall x :: a + 8 <= x < a + 8 + n ==> ByteAt(m2, x) == ByteAt(m1, freed + 8 + (x - (a + 8)))
    requires SameLive(m2, m3, l2)
    ensures forall x :: a + 8 <= x < a + 8 + n ==> ByteAt(m3, x) == ByteAt(m0, freed + 8 + (x - (a + 8)))
    ensures forall b, x {:trigger InPayload(l, b, x)} :: InPayload(l, b, x) && b != freed ==> ByteAt(m3, x) == ByteAt(m0, x)
  {
    forall x | a + 8 <= x < a + 8 + n ensures ByteAt(m3, x) == ByteAt(m0, freed + 8 + (x - (a + 8))) {
      var y := freed + 8 + (x - (a + 8));
      assert InPayload(l2, a, x) && InPayload(l, freed, y);
      assert ByteAt(m3, x) == ByteAt(m2, x) == ByteAt(m1, y) == ByteAt(m0, y);
    }
    forall b, x | InPayload(l, b, x) && b != freed ensures ByteAt(m3, x) == ByteAt(m0, x) {
      assert InPayload(l1, b, x) && InPayload(l2, b, x);
      Apart(l1, base, a, b);
      assert ByteAt(m1, x) == ByteAt(m0, x);
    }
  }

  lemma ListIsSimple(m: Memory, l: Layout, base: int, pending: set<int>)
    requires Represented(m, l, base, pending)
    ensures NoDup(l.free) && 0 !in l.free
  {
    forall k | 0 <= k < |l.free| ensures l.free[k] != 0 {
      ListedAt(m, l, base, pending, k);
    }
  }

  lemma UnlinkedRepresented(m: Memory, m': Memory, l: Layout, base: int, pending: set<int>, a: int)
    requires Represented(m, l, base, pending) && a in l.free
    requires Tagged(m', l) && Linked(m', Without(l.free, a)) && SameLive(m, m', l)
    ensures Represented(m', Unlist(l, a), base, pending + {a}) && SameLive(m, m', Unlist(l, a))
  {
    UnlistedInvariant(l, base, pending, a);
    SameBlocksMemory(m, m', l, Unlist(l, a));
  }

  lemma UnlistFields(l: Layout, a: int)
    requires a in l.free
    ensures Unlist(l, a).blocks == l.blocks && Unlist(l, a).brk == l.brk && Unlist(l, a).last == l.last
    ensures Unlist(l, a).free == Without(l.free, a)
  {
  }

  lemma SetAllocFields(l: Layout, a: int, alloc: bool)
    requires a in l.blocks
    ensures var s := SetAlloc(l, a, alloc);
      && SameBut(l, s, {a}) && s.free == l.free && s.brk == l.brk && s.last == l.last
      && a in s.blocks && s.blocks[a].size == l.blocks[a].size && s.blocks[a].alloc == alloc
  {
  }

  lemma SameButSelf(l: Layout, a: int)
    ensures SameBut(l, l, {a})
  {
  }

  lemma ExtendFields(l: Layout, base: int, n: int)
    requires Tiled(l, base) && n >= 16
    ensures var e := Extend(l, n);
      && SameBut(l, e, {l.brk}) && e.free == l.free && e.brk == l.brk + n && e.last == l.brk
      && l.brk in e.blocks && e.blocks[l.brk].size == n && e.blocks[l.brk].alloc
    ensures KeepsLive(l, Extend(l, n), {})
  {
    ExtendTiled(l, base, n);
  }

  /** Live blocks of a joined layout were live before. */
  lemma LiveAfterJoin(m: Memory, m': Memory, u: Layout, p: int, q: int)
    requires SameLive(m, m', u) && p in u.blocks && q in u.blocks
    ensures SameLive(m, m', Join(u, p, q))
  {
    var j := Join(u, p, q);
    forall b, x | InPayload(j, b, x) ensures ByteAt(m', x) == ByteAt(m, x) {
      assert InPayload(u, b, x);
    }
  }

  lemma SameLiveKept(m: Memory, m': Memory, l: Layout, l': Layout)
    requires SameLive(m, m', l') && KeepsLive(l, l', {})
    ensures SameLive(m, m', l)
  {
    forall b, x | InPayload(l, b, x) ensures ByteAt(m', x) == ByteAt(m, x) {
      assert InPayload(l', b, x);
    }
  }

  lemma FitFacts(l: Layout, base: int, n: int, k: nat)
    requires Invariant(l, base, {}) && k == FirstFit(l, n, 0) && k < |l.free|
    ensures l.free[k] != 0 && IsFree(l, l.free[k]) && l.blocks[l.free[k]].size >= n
  {
    assert IsFree(l, l.free[k]);
    Bounds(l, base, l.free[k]);
  }

  lemma EmptyHeap(l: Layout, base: int)
    requires Invariant(l, base, {})
    ensures 0 < base <= l.brk
  {
  }

  lemma PushFields(l: Layout, a: int)
    requires IsFree(l, a)
    ensures Push(l, a).blocks == l.blocks && Push(l, a).brk == l.brk && Push(l, a).last == l.last
    ensures forall b, x :: InPayload(Push(l, a), b, x) ==> InPayload(l, b, x)
  {
    assert Push(l, a).blocks == l.blocks;
  }

  lemma TookLive(m: Memory, m1: Memory, m2: Memory, l: Layout, u: Layout, l': Layout)
    requires SameLive(m, m1, u) && SameLive(m1, m2, l') && u.blocks == l.blocks && KeepsLive(l, l', {})
    ensures SameLive(m, m2, l)
  {
    SameBlocksMemory(m, m1, u, l);
    SameLiveKept(m1, m2, l, l');
    SameLiveTrans(m, m1, m2, l);
  }

  lemma MergeRightLive(l: Layout, a: int)
    requires a in l.blocks && IsFree(l, a)
    ensures forall b, x :: InPayload(MergeRight(l, a), b, x) ==> InPayload(l, b, x)
  {
  }

  lemma FreedLive(m: Memory, m1: Memory, m2: Memory, m3: Memory, l1: Layout, l2: Layout, l3: Layout)
    requires SameLive(m, m1, l1) && SameLive(m1, m2, l2) && SameLive(m2, m3, l3)
    requires forall b, x :: InPayload(l2, b, x) ==> InPayload(l1, b, x)
    requires forall b, x :: InPayload(l3, b, x) ==> InPayload(l2, b, x)
    ensures SameLive(m, m3, l3)
  {
    forall b, x | InPayload(l3, b, x) ensures ByteAt(m3, x) == ByteAt(m, x) {
      assert InPayload(l2, b, x) && InPayload(l1, b, x);
      assert ByteAt(m3, x) == ByteAt(m2, x);
      assert ByteAt(m2, x) == ByteAt(m1, x);
      assert ByteAt(m1, x) == ByteAt(m, x);
    }
  }

  lemma SameLiveSelf(m: Memory, l: Layout)
    ensures SameLive(m, m, l)
  {
  }
}
