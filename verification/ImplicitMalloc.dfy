/** The implicit-list allocator at work: one header word per block, and a coalescing pass over
    the whole heap at every allocation. */
module ImplicitMalloc {
  import opened ByteMemory
  import opened BlockTags
  import opened ImplicitLayout

  /** Every block's header holds its size and state. */
  predicate Tagged(m: Memory, at: int, bs: seq<Block>)
    decreases bs
  {
    bs == [] ||
    (bs[0].size >= 0 && Load(m, at) == Tag(bs[0].size, bs[0].alloc) && Tagged(m, at + bs[0].size, bs[1..]))
  }

  lemma {:induction false} TaggedConcat(m: Memory, at: int, a: seq<Block>, b: seq<Block>)
    ensures Tagged(m, at, a + b) <==> Tagged(m, at, a) && Tagged(m, at + Sum(a), b)
    decreases a
  {
    hide Load;
    if a == [] {
      assert a + b == b;
    } else {
      TaggedConcat(m, at + a[0].size, a[1..], b);
      assert (a + b)[1..] == a[1..] + b;
    }
  }

  /** A header written outside a stretch of blocks leaves that stretch alone. */
  lemma {:induction false} TaggedElsewhere(m: Memory, w: int, v: nat, at: int, bs: seq<Block>)
    requires WellSized(bs) && Tagged(m, at, bs) && (w + 8 <= at || at + Sum(bs) <= w)
    ensures Tagged(Store(m, w, v), at, bs)
    decreases bs
  {
    hide Load, Store, Aligned;
    Laws();
    if bs != [] {
      SumBounds(bs[1..]);
      TaggedElsewhere(m, w, v, at + bs[0].size, bs[1..]);
    }
  }

  predicate InPayload(at: int, bs: seq<Block>, a: int, size: int, x: int)
  {
    Live(at, bs, a, size) && a + 8 <= x < a + size
  }

  /** The bytes of every live payload are the same. */
  ghost predicate SameLive(m: Memory, m': Memory, at: int, bs: seq<Block>)
  {
    forall a, size, x {:trigger InPayload(at, bs, a, size, x)} :: InPayload(at, bs, a, size, x) ==> ByteAt(m', x) == ByteAt(m, x)
  }

  /** The header position between two stretches of blocks is in no live payload. */
  lemma HeaderOutsidePayloads(at: int, before: seq<Block>, b: Block, after: seq<Block>, a: int, size: int, x: int)
    requires WellSized(before + [b] + after) && InPayload(at, before + [b] + after, a, size, x)
    ensures !(at + Sum(before) <= x < at + Sum(before) + 8)
  {
    hide Aligned;
    var w := at + Sum(before);
    LiveConcat(at, before + [b], after, a, size);
    LiveConcat(at, before, [b], a, size);
    LiveOne(w, b, a, size);
    SumConcat(before, [b]);
    SumOne(b);
    assert WellSized(before) by {
      forall i | 0 <= i < |before| ensures before[i].size >= 16 && Aligned(before[i].size) {
        assert (before + [b] + after)[i] == before[i];
      }
    }
    assert WellSized(after) && b.size >= 16 by {
      forall i | 0 <= i < |after| ensures after[i].size >= 16 && Aligned(after[i].size) {
        assert (before + [b] + after)[|before| + 1 + i] == after[i];
      }
      assert (before + [b] + after)[|before|] == b;
    }
    if Live(at, before, a, size) {
      LiveInside(before, at, a, size);
    } else if Live(w + b.size, after, a, size) {
      LiveInside(after, w + b.size, a, size);
    }
  }

  lemma WriteHeaderLive(m: Memory, v: nat, at: int, before: seq<Block>, b: Block, after: seq<Block>)
    requires WellSized(before + [b] + after)
    ensures SameLive(m, Store(m, at + Sum(before), v), at, before + [b] + after)
  {
    hide Load, Store, Aligned;
    Laws();
    var bs := before + [b] + after;
    forall a, size, x | InPayload(at, bs, a, size, x) ensures ByteAt(Store(m, at + Sum(before), v), x) == ByteAt(m, x) {
      HeaderOutsidePayloads(at, before, b, after, a, size, x);
    }
  }

  /** Replacing the block after `before` and writing its header. */
  lemma Rewrite(m: Memory, at: int, before: seq<Block>, replaced: seq<Block>, b: Block, after: seq<Block>)
    requires WellSized(before) && WellSized(after) && b.size >= 0 && b.size < TWO64 - 1
    requires Tagged(m, at, before + replaced + after) && Sum(replaced) == b.size >= 8
    ensures Tagged(Store(m, at + Sum(before), Tag(b.size, b.alloc)), at, before + [b] + after)
  {
    hide Load, Store, Aligned;
    Laws();
    var w := at + Sum(before);
    var m' := Store(m, w, Tag(b.size, b.alloc));
    TaggedConcat(m, at, before + replaced, after);
    TaggedConcat(m, at, before, replaced);
    SumConcat(before, replaced);
    TaggedElsewhere(m, w, Tag(b.size, b.alloc), at, before);
    TaggedElsewhere(m, w, Tag(b.size, b.alloc), w + b.size, after);
    TaggedConcat(m', at, before + [b], after);
    TaggedConcat(m', at, before, [b]);
    SumConcat(before, [b]);
    SumOne(b);
    assert [b][1..] == [];
    assert Tagged(m', w, [b]);
  }

  // ----- The allocator -----

  /** Where the last block starts; 0 in an empty heap. */
  function LastAddr(base: int, bs: seq<Block>): int
  {
    if bs == [] then 0 else base + Sum(bs[..|bs| - 1])
  }

  ghost predicate Represented(m: Memory, base: int, bs: seq<Block>, limit: int)
  {
    && base > 0 && Aligned(base + 8) && WellSized(bs)
    && base + Sum(bs) <= limit < TWO64 - 1 && Tagged(m, base, bs)
  }

  lemma AlignedMeans(n: int)
    requires Aligned(n)
    ensures n % 16 == 0
  {
  }

  lemma PlaceOf(base: int, bs: seq<Block>, k: nat)
    requires WellSized(bs) && k < |bs|
    ensures var a := base + Sum(bs[..k]);
      base <= a && bs[k].size >= 16 && a + bs[k].size == base + Sum(bs[..k + 1]) <= base + Sum(bs)
  {
    hide Aligned;
    assert bs[..k + 1] == bs[..k] + [bs[k]];
    SumConcat(bs[..k], [bs[k]]);
    SumOne(bs[k]);
    SumConcat(bs[..k + 1], bs[k + 1..]);
    assert bs == bs[..k + 1] + bs[k + 1..];
    SumBounds(bs[..k]);
    SumBounds(bs[k + 1..]);
  }

  lemma HeaderAt(m: Memory, base: int, bs: seq<Block>, limit: int, k: nat)
    requires Represented(m, base, bs, limit) && k < |bs|
    ensures var a := base + Sum(bs[..k]);
      && SizeBits(Load(m, a)) == bs[k].size && AllocBit(Load(m, a)) == bs[k].alloc
      && base <= a && bs[k].size >= 16 && a + bs[k].size == base + Sum(bs[..k + 1]) <= base + Sum(bs)
  {
    hide Load, SizeBits, AllocBit, Tag, Aligned, Sum;
    TaggedConcat(m, base, bs[..k], bs[k..]);
    assert bs == bs[..k] + bs[k..];
    assert bs[k].size % 16 == 0 by { AlignedMeans(bs[k].size); }
    TagParts(bs[k].size, bs[k].alloc);
    PlaceOf(base, bs, k);
  }

  /** Positions seen by a walk: the address after k blocks is at most that of the last block
      exactly when there is a k-th block. */
  lemma WalkGuard(base: int, bs: seq<Block>, k: nat)
    requires WellSized(bs) && base > 0 && k <= |bs| && bs != []
    ensures base + Sum(bs[..k]) <= LastAddr(base, bs) <==> k < |bs|
    ensures base + Sum(bs[..k]) == LastAddr(base, bs) <==> k == |bs| - 1
    ensures LastAddr(base, bs) > 0
  {
    hide Aligned;
    var n := |bs| - 1;
    SumBounds(bs[..n]);
    if k <= n {
      assert bs[..n] == bs[..k] + bs[k..n];
      SumConcat(bs[..k], bs[k..n]);
      SumBounds(bs[k..n]);
    } else {
      assert bs[..k] == bs == bs[..n] + [bs[n]];
      SumConcat(bs[..n], [bs[n]]);
      SumOne(bs[n]);
    }
  }

  /** Merging two free neighbours: same bytes, same live blocks, same last address rule. */
  lemma MergePair(m: Memory, base: int, bs: seq<Block>, limit: int, k: nat)
    requires Represented(m, base, bs, limit) && k + 1 < |bs| && !bs[k].alloc && !bs[k + 1].alloc
    ensures var b := Block(bs[k].size + bs[k + 1].size, false);
      var bs' := bs[..k] + [b] + bs[k + 2..];
      && b.size >= 0
      && Represented(Store(m, base + Sum(bs[..k]), Tag(b.size, false)), base, bs', limit)
      && Sum(bs') == Sum(bs)
      && SameLive(m, Store(m, base + Sum(bs[..k]), Tag(b.size, false)), base, bs')
  {
    hide Load, Store, SizeBits, AllocBit, Tag, Aligned, SameLive;
    var b := Block(bs[k].size + bs[k + 1].size, false);
    var pair := [bs[k], bs[k + 1]];
    var bs' := bs[..k] + [b] + bs[k + 2..];
    assert bs == bs[..k] + pair + bs[k + 2..];
    SumTwo(bs[k], bs[k + 1]);
    SumOne(b);
    SumConcat(bs[..k] + pair, bs[k + 2..]);
    SumConcat(bs[..k], pair);
    SumConcat(bs[..k] + [b], bs[k + 2..]);
    SumConcat(bs[..k], [b]);
    SumBounds(bs[..k]);
    SumBounds(bs[k + 2..]);
    Rewrite(m, base, bs[..k], pair, b, bs[k + 2..]);
    AlignedSum(bs[k].size, bs[k + 1].size);
    WriteHeaderLive(m, Tag(b.size, false), base, bs[..k], b, bs[k + 2..]);
  }

  lemma MergePairLive(base: int, bs: seq<Block>, k: nat, a: int, size: int)
    requires k + 1 < |bs| && !bs[k].alloc && !bs[k + 1].alloc
    ensures var b := Block(bs[k].size + bs[k + 1].size, false);
      Live(base, bs[..k] + [b] + bs[k + 2..], a, size) <==> Live(base, bs, a, size)
  {
    var b := Block(bs[k].size + bs[k + 1].size, false);
    var pair := [bs[k], bs[k + 1]];
    var here := base + Sum(bs[..k]);
    assert bs == bs[..k] + pair + bs[k + 2..];
    SumTwo(bs[k], bs[k + 1]);
    SumOne(b);
    LiveConcat(base, bs[..k] + pair, bs[k + 2..], a, size);
    LiveConcat(base, bs[..k], pair, a, size);
    LiveTwo(here, bs[k], bs[k + 1], a, size);
    LiveConcat(base, bs[..k] + [b], bs[k + 2..], a, size);
    LiveConcat(base, bs[..k], [b], a, size);
    LiveOne(here, b, a, size);
    SumConcat(bs[..k], pair);
    SumConcat(bs[..k], [b]);
  }

  lemma SameLiveStep(m0: Memory, m1: Memory, m2: Memory, at: int, bs: seq<Block>, bs': seq<Block>)
    requires SameLive(m0, m1, at, bs) && SameLive(m1, m2, at, bs')
    requires forall a, size :: Live(at, bs', a, size) ==> Live(at, bs, a, size)
    ensures SameLive(m0, m2, at, bs')
  {
    forall a, size, x | InPayload(at, bs', a, size, x) ensures ByteAt(m2, x) == ByteAt(m0, x) {
      assert InPayload(at, bs, a, size, x);
    }
  }

  class Allocator {
    const base: int
    const limit: int
    var mem: Memory
    var brk: int
    var heapFirst: int
    var heapLast: int
    ghost var bs: seq<Block>

    ghost predicate Valid()
      reads this
    {
      && Represented(mem, base, bs, limit) && brk == base + Sum(bs)
      && heapFirst == (if bs == [] then 0 else base) && heapLast == LastAddr(base, bs)
    }

    /** mm_init */
    constructor (start: int, size: int)
      requires start >= 0 && start % 16 == 0 && size >= 8 && start + size < TWO64 - 1
      ensures Valid() && bs == [] && base == start + 8 && limit == start + size
    {
      base, limit, mem, brk := start + 8, start + size, map[], start + 8;
      heapFirst, heapLast := 0, 0;
      bs := [];
    }

    function GetSize(block: int): int
      reads this
    {
      SizeBits(Load(mem, block))
    }

    predicate IsAllocated(block: int)
      reads this
    {
      AllocBit(Load(mem, block))
    }

    method SetHeader(block: int, size: nat, alloc: bool)
      modifies this`mem
      ensures mem == Store(old(mem), block, Tag(size, alloc))
    {
      mem := Store(mem, block, Tag(size, alloc));
    }

    /** coalesce_blocks: one pass that merges every run of free blocks. */
    method CoalesceBlocks()
      requires Valid()
      modifies this`mem, this`heapLast, this`bs
      ensures Valid() && bs == Coalesce(old(bs)) && SameLive(old(mem), mem, base, bs)
    {
      hide Load, Store, SizeBits, AllocBit, Tag, Aligned, Tagged, SameLive, Coalesce, WellSized, Sum;
      ghost var orig, m0, k := bs, mem, 0;
      SameLiveSelf(mem, base, bs);
      WalkStart(mem, base, bs, limit);
      var prev := heapFirst;
      var curr := heapFirst + GetSize(heapFirst);
      while heapLast != 0 && curr <= heapLast
        invariant Valid() && (bs == [] ==> orig == []) && (bs != [] ==> k < |bs|)
        invariant bs != [] ==> prev == base + Sum(bs[..k]) && curr == base + Sum(bs[..k + 1])
        invariant orig != [] ==> bs != [] && bs[..k] + Coalesce(bs[k..]) == Coalesce(orig)
        invariant SameLive(m0, mem, base, bs)
        decreases |bs| - k
      {
        LoopGuard(mem, base, bs, limit, k + 1);
        HeaderAt(mem, base, bs, limit, k);
        HeaderAt(mem, base, bs, limit, k + 1);
        CoalesceSteps(bs[k..]);
        if !IsAllocated(prev) && !IsAllocated(curr) {
          var newSize := GetSize(prev) + GetSize(curr);
          MergePair(mem, base, bs, limit, k);
          MergedPositions(mem, base, bs, limit, k);
          forall a, size ensures Live(base, bs[..k] + [Block(newSize, false)] + bs[k + 2..], a, size) <==> Live(base, bs, a, size) {
            MergePairLive(base, bs, k, a, size);
          }
          ghost var bs', m1 := bs[..k] + [Block(newSize, false)] + bs[k + 2..], mem;
          if curr == heapLast {
            heapLast := prev;
          }
          SetHeader(prev, newSize, false);
          curr := prev + newSize;
          SameLiveStep(m0, m1, mem, base, bs, bs');
          bs := bs';
        } else {
          prev := prev + GetSize(prev);
          curr := curr + GetSize(curr);
          assert bs[k..][1..] == bs[k + 1..] && bs[..k + 1] == bs[..k] + [bs[k]];
          assert bs[..k] + ([bs[k]] + Coalesce(bs[k + 1..])) == bs[..k + 1] + Coalesce(bs[k + 1..]);
          k := k + 1;
        }
      }
      if orig != [] {
        LoopGuard(mem, base, bs, limit, k + 1);
        assert bs[k..] == [bs[k]];
        CoalesceOne(bs[k]);
        assert bs == bs[..k] + [bs[k]];
      } else {
        CoalesceNone();
      }
    }

    /** find_fit: the first free block that is large enough; 0 if none is. */
    method FindFit(size: int) returns (block: int)
      requires Valid()
      ensures var k := FirstFit(bs, size);
        block == if k < |bs| then base + Sum(bs[..k]) else 0
    {
      hide Load, Store, SizeBits, AllocBit, Tag, Aligned, Tagged, Coalesce, WellSized, Sum;
      ghost var k := 0;
      WalkStart(mem, base, bs, limit);
      assert bs[0..] == bs;
      var curr := heapFirst;
      while heapLast != 0 && curr <= heapLast
        invariant 0 <= k <= |bs| && (bs != [] ==> curr == base + Sum(bs[..k]))
        invariant k + FirstFit(bs[k..], size) == FirstFit(bs, size)
        decreases |bs| - k
      {
        LoopGuard(mem, base, bs, limit, k);
        HeaderAt(mem, base, bs, limit, k);
        assert bs[k..][0] == bs[k] && bs[k..][1..] == bs[k + 1..];
        if !IsAllocated(curr) && GetSize(curr) >= size {
          return curr;
        }
        curr := curr + GetSize(curr);
        k := k + 1;
      }
      if bs != [] {
        LoopGuard(mem, base, bs, limit, k);
      }
      assert bs[k..] == [];
      return 0;
    }

    /** split_block, or the whole block when there is nothing to split off. */
    method UseBlock(block: int, size: int, ghost k: nat) returns (payload: int)
      requires Valid() && k < |bs| && block == base + Sum(bs[..k]) && !bs[k].alloc
      requires 16 <= size <= bs[k].size && Aligned(size)
      modifies this`mem, this`heapLast, this`bs
      ensures Valid() && bs == Take(old(bs), k, size) && payload == block + 8
      ensures SameLive(old(mem), mem, base, bs)
    {
      hide Load, Store, SizeBits, AllocBit, Tag, Aligned, Tagged, Coalesce, WellSized, Sum, SameLive;
      HeaderAt(mem, base, bs, limit, k);
      LoopGuard(mem, base, bs, limit, k);
      TakePositions(mem, base, bs, limit, k, size);
      var blockSize := GetSize(block);
      if size < blockSize {
        SplitMemory(mem, base, bs, limit, k, size);
        SetHeader(block, size, true);
        SetHeader(block + size, blockSize - size, false);
        if block == heapLast {
          heapLast := block + size;
        }
      } else {
        WholeMemory(mem, base, bs, limit, k, size);
        SetHeader(block, blockSize, true);
      }
      bs := Take(bs, k, size);
      payload := block + 8;
    }

    method GrowHeap(size: int) returns (payload: int)
      requires Valid() && size >= 16 && Aligned(size) && brk + size <= limit
      modifies this
      ensures Valid() && bs == old(bs) + [Block(size, true)] && payload == old(brk) + 8
      ensures SameLive(old(mem), mem, base, bs)
    {
      hide Load, Store, SizeBits, AllocBit, Tag, Aligned, Tagged, Coalesce, WellSized, Sum, SameLive;
      GrowMemory(mem, base, bs, limit, size);
      var block := brk;
      brk := brk + size;
      if heapFirst == 0 {
        heapFirst := block;
      }
      heapLast := block;
      SetHeader(block, size, true);
      bs := bs + [Block(size, true)];
      payload := block + 8;
    }

    /** mm_malloc: the payload address, or 0 if the heap is exhausted. */
    method MmMalloc(request: nat) returns (payload: int)
      requires Valid()
      modifies this
      ensures Valid()
      ensures var (bs', a) := Malloc(old(bs), base, request, limit);
        bs == bs' && payload == (if a == 0 then 0 else a + 8)
      ensures SameLive(old(mem), mem, base, old(bs))
    {
      hide Load, Store, SizeBits, AllocBit, Tag, Aligned, Tagged, Coalesce, WellSized, Sum, SameLive, Live, Take;
      ghost var orig, m0 := bs, mem;
      BlockSizeOk(request);
      BaseOk(mem, base, bs, limit);
      var size := (8 + request + 15) / 16 * 16;
      CoalesceBlocks();
      ghost var c, m1 := bs, mem;
      assert size == BlockSize(request);
      ghost var k := FirstFit(bs, size);
      if k < |bs| {
        HeaderAt(mem, base, bs, limit, k);
      }
      var block := FindFit(size);
      if block != 0 {
        payload := UseBlock(block, size, k);
      } else if brk + size > limit {
        payload := 0;
        SameLiveSelf(mem, base, bs);
      } else {
        payload := GrowHeap(size);
      }
      forall a, sz ensures Live(base, orig, a, sz) ==> Live(base, c, a, sz) && Live(base, bs, a, sz) {
        RepresentedSized(m0, base, orig, limit);
        CoalesceKeeps(orig, base, a, sz);
        MallocLive(orig, base, request, limit, a, sz);
      }
      SameLiveFewer(m0, m1, mem, base, orig, c, bs);
    }

    /** mm_free */
    method MmFree(payload: int, ghost size: int)
      requires Valid() && (payload != 0 ==> Live(base, bs, payload - 8, size))
      modifies this`mem, this`bs
      ensures Valid()
      ensures payload == 0 ==> bs == old(bs) && mem == old(mem)
      ensures payload != 0 ==> bs == Release(base, old(bs), payload - 8) && SameLive(old(mem), mem, base, bs)
    {
      hide Load, Store, SizeBits, AllocBit, Tag, Aligned, Tagged, Coalesce, WellSized, Sum, SameLive, Live, Release;
      if payload == 0 {
        return;
      }
      var block := payload - 8;
      RepresentedSized(mem, base, bs, limit);
      ghost var k := LiveIndex(base, bs, block, size);
      HeaderAt(mem, base, bs, limit, k);
      FreeMemory(mem, base, bs, limit, k);
      ReleaseIsUpdate(base, bs, k);
      SetHeader(block, GetSize(block), false);
      bs := Release(base, bs, block);
    }
  }

  lemma SameLiveSelf(m: Memory, at: int, bs: seq<Block>)
    ensures SameLive(m, m, at, bs)
  {
  }

  lemma CoalesceOne(b: Block)
    ensures Coalesce([b]) == [b]
  {
  }

  lemma CoalesceNone()
    ensures Coalesce([]) == []
  {
  }

  lemma WalkStart(m: Memory, base: int, bs: seq<Block>, limit: int)
    requires Represented(m, base, bs, limit)
    ensures Sum(bs[..0]) == 0 && bs[..0] + Coalesce(bs[0..]) == Coalesce(bs)
    ensures bs != [] ==> base + SizeBits(Load(m, base)) == base + Sum(bs[..1])
    ensures (bs == [] <==> LastAddr(base, bs) == 0)
  {
    hide Load, SizeBits, AllocBit, Coalesce, Aligned;
    assert bs[0..] == bs && bs[..0] == [];
    if bs != [] {
      HeaderAt(m, base, bs, limit, 0);
      WalkGuard(base, bs, 0);
    }
  }

  lemma LoopGuard(m: Memory, base: int, bs: seq<Block>, limit: int, k: nat)
    requires Represented(m, base, bs, limit) && k <= |bs| && bs != []
    ensures base + Sum(bs[..k]) <= LastAddr(base, bs) <==> k < |bs|
    ensures base + Sum(bs[..k]) == LastAddr(base, bs) <==> k == |bs| - 1
    ensures LastAddr(base, bs) != 0
  {
    WalkGuard(base, bs, k);
  }

  /** Addresses after blocks k and k + 1 have been merged. */
  lemma MergedPositions(m: Memory, base: int, bs: seq<Block>, limit: int, k: nat)
    requires Represented(m, base, bs, limit) && k + 1 < |bs|
    ensures var b := Block(bs[k].size + bs[k + 1].size, false);
      var bs' := bs[..k] + [b] + bs[k + 2..];
      && bs'[..k] == bs[..k] && bs'[k..] == [b] + bs[k + 2..] && k < |bs'|
      && bs[k..][2..] == bs[k + 2..] && bs[k..][0] == bs[k] && bs[k..][1] == bs[k + 1]
      && Sum(bs'[..k + 1]) == Sum(bs[..k]) + b.size
      && LastAddr(base, bs') == if k + 1 == |bs| - 1 then base + Sum(bs[..k]) else LastAddr(base, bs)
  {
    hide Tagged, Aligned;
    var b := Block(bs[k].size + bs[k + 1].size, false);
    var bs' := bs[..k] + [b] + bs[k + 2..];
    assert bs'[..k + 1] == bs[..k] + [b];
    SumConcat(bs[..k], [b]);
    SumOne(b);
    if k + 1 == |bs| - 1 {
      assert bs'[..|bs'| - 1] == bs[..k];
    } else {
      var n := |bs| - 1;
      var tail := bs[k + 2..n];
      assert bs'[..|bs'| - 1] == bs[..k] + [b] + tail;
      assert bs[..n] == bs[..k] + [bs[k], bs[k + 1]] + tail;
      SumConcat(bs[..k] + [b], tail);
      SumConcat(bs[..k] + [bs[k], bs[k + 1]], tail);
      SumConcat(bs[..k], [bs[k], bs[k + 1]]);
      SumTwo(bs[k], bs[k + 1]);
    }
  }

  lemma BaseOk(m: Memory, base: int, bs: seq<Block>, limit: int)
    requires Represented(m, base, bs, limit)
    ensures base > 0 && Sum(bs) >= 0
  {
    SumBounds(bs);
  }

  lemma RepresentedSized(m: Memory, base: int, bs: seq<Block>, limit: int)
    requires Represented(m, base, bs, limit)
    ensures WellSized(bs) && base > 0
  {
  }

  lemma SameLiveFewer(m0: Memory, m1: Memory, m2: Memory, at: int, few: seq<Block>, c: seq<Block>, bs: seq<Block>)
    requires SameLive(m0, m1, at, c) && SameLive(m1, m2, at, bs)
    requires forall a, size :: Live(at, few, a, size) ==> Live(at, c, a, size) && Live(at, bs, a, size)
    ensures SameLive(m0, m2, at, few)
  {
    forall a, size, x | InPayload(at, few, a, size, x) ensures ByteAt(m2, x) == ByteAt(m0, x) {
      assert InPayload(at, c, a, size, x) && InPayload(at, bs, a, size, x);
    }
  }

  /** The last block after block k has been used. */
  lemma TakePositions(m: Memory, base: int, bs: seq<Block>, limit: int, k: nat, n: int)
    requires Represented(m, base, bs, limit) && k < |bs|
    ensures var t := Take(bs, k, n);
      && t != [] && Sum(t) == Sum(bs)
      && LastAddr(base, t) == if k == |bs| - 1 && n < bs[k].size then base + Sum(bs[..k]) + n else LastAddr(base, bs)
  {
    hide Represented, Sum, Take, LastAddr;
    TakeSum(bs, k, n);
    TakeLast(bs, k, n);
    LastByTotal(base, Take(bs, k, n));
    LastByTotal(base, bs);
    if k == |bs| - 1 {
      SplitAt(bs, k);
      SumNone();
      assert bs[k + 1..] == [];
    }
  }

  lemma SumNone()
    ensures Sum([]) == 0
  {
  }

  lemma TakeLast(bs: seq<Block>, k: nat, n: int)
    requires k < |bs|
    ensures var t := Take(bs, k, n);
      t != [] && t[|t| - 1].size == if k == |bs| - 1 && n < bs[k].size then bs[k].size - n else bs[|bs| - 1].size
  {
    var t := Take(bs, k, n);
    if k < |bs| - 1 {
      var tail := bs[k + 1..];
      assert t[|t| - 1] == tail[|tail| - 1];
    }
  }

  lemma LastByTotal(base: int, bs: seq<Block>)
    requires bs != []
    ensures LastAddr(base, bs) == base + Sum(bs) - bs[|bs| - 1].size
  {
    var n := |bs| - 1;
    assert bs == bs[..n] + [bs[n]];
    SumConcat(bs[..n], [bs[n]]);
    SumOne(bs[n]);
  }

  lemma SplitMemory(m: Memory, base: int, bs: seq<Block>, limit: int, k: nat, n: int)
    requires Represented(m, base, bs, limit) && k < |bs| && 16 <= n < bs[k].size && Aligned(n)
    ensures var a := base + Sum(bs[..k]);
      var m' := Store(Store(m, a, Tag(n, true)), a + n, Tag(bs[k].size - n, false));
      Represented(m', base, Take(bs, k, n), limit) && SameLive(m, m', base, Take(bs, k, n))
  {
    hide Load, Store, SizeBits, AllocBit, Tag, Aligned, SameLive;
    var a := base + Sum(bs[..k]);
    var x, y := Block(n, true), Block(bs[k].size - n, false);
    var t := Take(bs, k, n);
    HeaderAt(m, base, bs, limit, k);
    SumBounds(bs[k + 1..]);
    SumBounds(bs);
    TakeSum(bs, k, n);
    TakeSized(bs, k, n);
    SixteenApart(bs[k].size, n);
    assert bs == bs[..k] + [bs[k]] + bs[k + 1..];
    SumOne(bs[k]);
    var m1 := Store(m, a, Tag(n, true));
    var m2 := Store(m1, a + n, Tag(y.size, false));
    SplitTagged(m, base, bs[..k], bs[k], n, bs[k + 1..]);
    assert t == bs[..k] + [x] + ([y] + bs[k + 1..]);
    assert t == (bs[..k] + [x]) + [y] + bs[k + 1..];
    WriteHeaderLive(m, Tag(n, true), base, bs[..k], x, [y] + bs[k + 1..]);
    WriteHeaderLive(m1, Tag(y.size, false), base, bs[..k] + [x], y, bs[k + 1..]);
    SumConcat(bs[..k], [x]);
    SumOne(x);
    SameLiveStep(m, m1, m2, base, t, t);
  }

  lemma SplitTagged(m: Memory, at: int, before: seq<Block>, b: Block, n: int, after: seq<Block>)
    requires WellSized(before) && WellSized(after) && 8 <= n <= b.size - 8 && b.size < TWO64 - 1
    requires Tagged(m, at, before + [b] + after)
    ensures var a := at + Sum(before);
      var m' := Store(Store(m, a, Tag(n, true)), a + n, Tag(b.size - n, false));
      Tagged(m', at, before + [Block(n, true), Block(b.size - n, false)] + after)
  {
    hide Load, Store, Aligned;
    Laws();
    var a := at + Sum(before);
    var x, y := Block(n, true), Block(b.size - n, false);
    var m1 := Store(m, a, Tag(n, true));
    var m2 := Store(m1, a + n, Tag(y.size, false));
    TaggedConcat(m, at, before + [b], after);
    TaggedConcat(m, at, before, [b]);
    SumConcat(before, [b]);
    SumOne(b);
    TaggedElsewhere(m, a, Tag(n, true), at, before);
    TaggedElsewhere(m1, a + n, Tag(y.size, false), at, before);
    TaggedElsewhere(m, a, Tag(n, true), a + b.size, after);
    TaggedElsewhere(m1, a + n, Tag(y.size, false), a + b.size, after);
    assert [x, y][1..] == [y] && [y][1..] == [];
    assert Tagged(m2, a + n, [y]);
    assert Tagged(m2, a, [x, y]);
    SumTwo(x, y);
    SumConcat(before, [x, y]);
    TaggedConcat(m2, at, before, [x, y]);
    TaggedConcat(m2, at, before + [x, y], after);
  }

  lemma WholeMemory(m: Memory, base: int, bs: seq<Block>, limit: int, k: nat, n: int)
    requires Represented(m, base, bs, limit) && k < |bs| && bs[k].size <= n
    ensures bs[k].size >= 16
    ensures var m' := Store(m, base + Sum(bs[..k]), Tag(bs[k].size, true));
      Represented(m', base, Take(bs, k, n), limit) && SameLive(m, m', base, Take(bs, k, n))
  {
    hide Load, Store, SizeBits, AllocBit, Tag, Aligned, SameLive;
    var b := Block(bs[k].size, true);
    HeaderAt(m, base, bs, limit, k);
    SumBounds(bs);
    TakeSum(bs, k, n);
    assert bs == bs[..k] + [bs[k]] + bs[k + 1..];
    SumOne(bs[k]);
    Rewrite(m, base, bs[..k], [bs[k]], b, bs[k + 1..]);
    WriteHeaderLive(m, Tag(b.size, true), base, bs[..k], b, bs[k + 1..]);
  }

  lemma GrowMemory(m: Memory, base: int, bs: seq<Block>, limit: int, n: int)
    requires Represented(m, base, bs, limit) && n >= 16 && Aligned(n) && base + Sum(bs) + n <= limit
    ensures var bs' := bs + [Block(n, true)];
      var m' := Store(m, base + Sum(bs), Tag(n, true));
      && Represented(m', base, bs', limit) && SameLive(m, m', base, bs')
      && Sum(bs') == Sum(bs) + n && LastAddr(base, bs') == base + Sum(bs)
      && (bs == [] <==> base + Sum(bs) == base) && base > 0 && (bs == [] ==> base + Sum(bs) == base)
  {
    hide Load, Store, SizeBits, AllocBit, Tag, Aligned, SameLive;
    var b := Block(n, true);
    var bs' := bs + [b];
    SumBounds(bs);
    SumConcat(bs, [b]);
    SumOne(b);
    assert bs'[..|bs'| - 1] == bs;
    GrowTagged(m, base, bs, n);
    assert bs' == bs + [b] + [];
    WriteHeaderLive(m, Tag(n, true), base, bs, b, []);
  }

  lemma GrowTagged(m: Memory, base: int, bs: seq<Block>, n: nat)
    requires Tagged(m, base, bs) && WellSized(bs) && n < TWO64 - 1
    ensures Tagged(Store(m, base + Sum(bs), Tag(n, true)), base, bs + [Block(n, true)])
  {
    hide Load, Store, Aligned;
    Laws();
    var b, a := Block(n, true), base + Sum(bs);
    var m' := Store(m, a, Tag(n, true));
    TaggedElsewhere(m, a, Tag(n, true), base, bs);
    assert [b][1..] == [];
    assert Tagged(m', a, [b]);
    TaggedConcat(m', base, bs, [b]);
  }

  lemma SameLast(base: int, bs: seq<Block>, k: nat, b: Block)
    requires k < |bs| && b.size == bs[k].size
    ensures LastAddr(base, bs[..k] + [b] + bs[k + 1..]) == LastAddr(base, bs)
  {
    var bs' := bs[..k] + [b] + bs[k + 1..];
    var n := |bs| - 1;
    if k < n {
      assert bs'[..n] == bs[..k] + [b] + bs[k + 1..n];
      assert bs[..n] == bs[..k] + [bs[k]] + bs[k + 1..n];
      SumConcat(bs[..k] + [b], bs[k + 1..n]);
      SumConcat(bs[..k], [b]);
      SumConcat(bs[..k] + [bs[k]], bs[k + 1..n]);
      SumConcat(bs[..k], [bs[k]]);
    } else {
      assert bs'[..n] == bs[..n];
    }
  }

  lemma FreeMemory(m: Memory, base: int, bs: seq<Block>, limit: int, k: nat)
    requires Represented(m, base, bs, limit) && k < |bs|
    ensures bs[k].size >= 16
    ensures var b := Block(bs[k].size, false);
      var bs' := bs[..k] + [b] + bs[k + 1..];
      var m' := Store(m, base + Sum(bs[..k]), Tag(b.size, false));
      && Represented(m', base, bs', limit) && SameLive(m, m', base, bs')
      && Sum(bs') == Sum(bs) && LastAddr(base, bs') == LastAddr(base, bs)
  {
    hide Load, Store, SizeBits, AllocBit, Tag, Aligned, SameLive, Sum, LastAddr;
    var b := Block(bs[k].size, false);
    var bs' := bs[..k] + [b] + bs[k + 1..];
    HeaderAt(m, base, bs, limit, k);
    SumBounds(bs);
    assert bs == bs[..k] + [bs[k]] + bs[k + 1..];
    SumOne(bs[k]);
    SumOne(b);
    AroundSum(bs, k, [b]);
    AroundSum(bs, k, [bs[k]]);
    Rewrite(m, base, bs[..k], [bs[k]], b, bs[k + 1..]);
    WriteHeaderLive(m, Tag(b.size, false), base, bs[..k], b, bs[k + 1..]);
    SameLast(base, bs, k, b);
  }

  lemma {:induction false} LiveIndex(at: int, bs: seq<Block>, a: int, size: int) returns (k: nat)
    requires WellSized(bs) && Live(at, bs, a, size)
    ensures k < |bs| && bs[k] == Block(size, true) && a == at + Sum(bs[..k])
    decreases bs
  {
    if bs[0].alloc && a == at && size == bs[0].size {
      k := 0;
    } else {
      var j := LiveIndex(at + bs[0].size, bs[1..], a, size);
      k := j + 1;
      assert bs[..k] == [bs[0]] + bs[1..][..j];
      SumConcat([bs[0]], bs[1..][..j]);
      SumOne(bs[0]);
    }
  }

  lemma {:induction false} ReleaseIsUpdate(at: int, bs: seq<Block>, k: nat)
    requires WellSized(bs) && k < |bs|
    ensures Release(at, bs, at + Sum(bs[..k])) == bs[..k] + [Block(bs[k].size, false)] + bs[k + 1..]
    decreases bs
  {
    hide Aligned;
    if k > 0 {
      var rest := bs[1..];
      assert bs[..k] == [bs[0]] + rest[..k - 1];
      SumConcat([bs[0]], rest[..k - 1]);
      SumOne(bs[0]);
      SumBounds(rest[..k - 1]);
      ReleaseIsUpdate(at + bs[0].size, rest, k - 1);
      assert rest[k..] == bs[k + 1..];
    } else {
      assert bs[..0] == [];
    }
  }
}
