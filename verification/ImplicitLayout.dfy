/** The implicit-list heap: blocks in address order, found by adding up sizes. */
module ImplicitLayout {

  /** `size` covers the 8-byte header and the payload. */
  datatype Block = Block(size: int, alloc: bool)

  function Sum(bs: seq<Block>): int
  {
    if bs == [] then 0 else bs[0].size + Sum(bs[1..])
  }

  predicate AllFree(bs: seq<Block>)
  {
    forall i :: 0 <= i < |bs| ==> !bs[i].alloc
  }

  predicate Aligned(n: int)
  {
    n % 16 == 0
  }

  lemma AlignedSum(a: int, b: int)
    requires Aligned(a) && Aligned(b)
    ensures Aligned(a + b) && Aligned(a - b)
  {
  }

  /** Sizes are positive multiples of 16. */
  predicate WellSized(bs: seq<Block>)
  {
    forall i :: 0 <= i < |bs| ==> bs[i].size >= 16 && Aligned(bs[i].size)
  }

  /** An allocated block of `size` bytes stands at `a`, in a heap that starts at `at`. */
  predicate Live(at: int, bs: seq<Block>, a: int, size: int)
    decreases bs
  {
    bs != [] &&
    ((bs[0].alloc && a == at && size == bs[0].size) || Live(at + bs[0].size, bs[1..], a, size))
  }

  /** Every run of adjacent free blocks becomes one block. */
  function Coalesce(bs: seq<Block>): seq<Block>
    decreases |bs|
  {
    if |bs| < 2 then bs
    else if !bs[0].alloc && !bs[1].alloc then Coalesce([Block(bs[0].size + bs[1].size, false)] + bs[2..])
    else [bs[0]] + Coalesce(bs[1..])
  }

  /** The first free block of at least `n` bytes, or |bs|. */
  function FirstFit(bs: seq<Block>, n: int): (k: nat)
    ensures k <= |bs|
    ensures k < |bs| ==> !bs[k].alloc && bs[k].size >= n
    ensures forall i :: 0 <= i < k ==> bs[i].alloc || bs[i].size < n
  {
    if bs == [] then 0
    else if !bs[0].alloc && bs[0].size >= n then 0
    else 1 + FirstFit(bs[1..], n)
  }

  /** Block k is allocated, all of it or its first `n` bytes. */
  function Take(bs: seq<Block>, k: nat, n: int): seq<Block>
    requires k < |bs|
  {
    bs[..k] + Taken(bs[k], n) + bs[k + 1..]
  }

  function BlockSize(request: nat): int
  {
    (8 + request + 15) / 16 * 16
  }

  /** mm_malloc: the new blocks, and the address of the allocated one (0 if out of memory). */
  function Malloc(bs: seq<Block>, base: int, request: nat, limit: int): (seq<Block>, int)
  {
    var c := Coalesce(bs);
    var n := BlockSize(request);
    var k := FirstFit(c, n);
    if k < |c| then (Take(c, k, n), base + Sum(c[..k]))
    else if base + Sum(c) + n > limit then (c, 0)
    else (c + [Block(n, true)], base + Sum(c))
  }

  // ----- Sums -----

  lemma {:induction false} SumConcat(a: seq<Block>, b: seq<Block>)
    ensures Sum(a + b) == Sum(a) + Sum(b)
  {
    if a == [] {
      assert a + b == b;
    } else {
      SumConcat(a[1..], b);
      assert (a + b)[1..] == a[1..] + b;
    }
  }

  lemma {:induction false} SumBounds(bs: seq<Block>)
    requires WellSized(bs)
    ensures Sum(bs) >= 16 * |bs| && Aligned(Sum(bs))
  {
    if bs != [] {
      SumBounds(bs[1..]);
      AlignedSum(bs[0].size, Sum(bs[1..]));
    }
  }

  lemma SumOne(b: Block)
    ensures Sum([b]) == b.size
  {
    assert [b][1..] == [];
  }

  lemma SumTwo(a: Block, b: Block)
    ensures Sum([a, b]) == a.size + b.size
  {
    assert [a, b][1..] == [b];
    SumOne(b);
  }

  lemma LiveTwo(at: int, a: Block, b: Block, x: int, size: int)
    ensures Live(at, [a, b], x, size) <==>
      (a.alloc && x == at && size == a.size) || (b.alloc && x == at + a.size && size == b.size)
  {
    assert [a, b][1..] == [b];
    LiveOne(at + a.size, b, x, size);
  }

  lemma {:induction false} LiveConcat(at: int, a: seq<Block>, b: seq<Block>, x: int, size: int)
    ensures Live(at, a + b, x, size) <==> Live(at, a, x, size) || Live(at + Sum(a), b, x, size)
    decreases a
  {
    if a == [] {
      assert a + b == b;
    } else {
      LiveConcat(at + a[0].size, a[1..], b, x, size);
      assert (a + b)[1..] == a[1..] + b && (a + b)[0] == a[0];
    }
  }

  lemma LiveOne(at: int, b: Block, x: int, size: int)
    ensures Live(at, [b], x, size) <==> b.alloc && x == at && size == b.size
  {
  }

  // ----- Coalescing -----

  lemma Merged(bs: seq<Block>)
    requires |bs| >= 2
    ensures bs == [bs[0], bs[1]] + bs[2..]
    ensures Sum([bs[0], bs[1]]) == bs[0].size + bs[1].size
  {
    SumTwo(bs[0], bs[1]);
  }

  /** Coalescing keeps the bytes of the heap, every allocated block where it is, and no other. */
  lemma {:induction false} CoalesceKeeps(bs: seq<Block>, at: int, x: int, size: int)
    ensures Sum(Coalesce(bs)) == Sum(bs)
    ensures Live(at, Coalesce(bs), x, size) <==> Live(at, bs, x, size)
    decreases |bs|
  {
    if |bs| < 2 {
    } else if !bs[0].alloc && !bs[1].alloc {
      var m := [Block(bs[0].size + bs[1].size, false)];
      var next := m + bs[2..];
      CoalesceKeeps(next, at, x, size);
      Merged(bs);
      SumConcat(m, bs[2..]);
      SumConcat([bs[0], bs[1]], bs[2..]);
      SumOne(m[0]);
      LiveConcat(at, m, bs[2..], x, size);
      LiveConcat(at, [bs[0], bs[1]], bs[2..], x, size);
      LiveTwo(at, bs[0], bs[1], x, size);
      LiveOne(at, m[0], x, size);
    } else {
      CoalesceKeeps(bs[1..], at + bs[0].size, x, size);
      var c := Coalesce(bs[1..]);
      assert ([bs[0]] + c)[1..] == c;
    }
  }

  predicate NoAdjacentFree(bs: seq<Block>)
  {
    forall i :: 0 < i < |bs| ==> bs[i - 1].alloc || bs[i].alloc
  }

  /** After coalescing no two free blocks touch. */
  lemma {:induction false} CoalesceSeparates(bs: seq<Block>)
    ensures NoAdjacentFree(Coalesce(bs))
    ensures bs != [] ==> Coalesce(bs) != [] && Coalesce(bs)[0].alloc == bs[0].alloc
    decreases |bs|
  {
    if |bs| < 2 {
    } else if !bs[0].alloc && !bs[1].alloc {
      CoalesceSeparates([Block(bs[0].size + bs[1].size, false)] + bs[2..]);
    } else {
      CoalesceSeparates(bs[1..]);
      var c := Coalesce(bs);
      forall i | 0 < i < |c| ensures c[i - 1].alloc || c[i].alloc {
        if i == 1 {
          assert c[0] == bs[0] && c[1] == Coalesce(bs[1..])[0];
        } else {
          assert c[i] == Coalesce(bs[1..])[i - 1] && c[i - 1] == Coalesce(bs[1..])[i - 2];
        }
      }
    }
  }

  /** A heap in which no free blocks touch is left as it is: coalescing is done once. */
  lemma {:induction false} CoalesceFixpoint(bs: seq<Block>)
    requires NoAdjacentFree(bs)
    ensures Coalesce(bs) == bs
  {
    if |bs| >= 2 {
      assert bs[0].alloc || bs[1].alloc;
      forall i | 0 < i < |bs[1..]| ensures bs[1..][i - 1].alloc || bs[1..][i].alloc {
        assert bs[i].alloc || bs[i + 1].alloc;
      }
      CoalesceFixpoint(bs[1..]);
    }
  }

  /** The leading free blocks end up in the first block. */
  lemma {:induction false} LeadingRun(bs: seq<Block>, j: nat)
    requires WellSized(bs) && 0 < j <= |bs| && AllFree(bs[..j])
    ensures Coalesce(bs) != [] && !Coalesce(bs)[0].alloc && Coalesce(bs)[0].size >= Sum(bs[..j])
    decreases |bs|
  {
    assert !bs[..j][0].alloc;
    if j == 1 {
      assert bs[..1][1..] == [];
      LeadingAtLeast(bs);
    } else {
      assert bs[..j][1] == bs[1] && !bs[..j][1].alloc;
      var next := [Block(bs[0].size + bs[1].size, false)] + bs[2..];
      assert forall i :: 0 < i < |next| ==> next[i] == bs[i + 1];
      var front := next[..j - 1];
      forall i | 0 <= i < |front| ensures !front[i].alloc {
        if i > 0 { assert front[i] == bs[i + 1] == bs[..j][i + 1]; }
      }
      LeadingRun(next, j - 1);
      Merged(bs[..j]);
      assert bs[..j][2..] == bs[2..][..j - 2];
      assert next[..j - 1] == [next[0]] + bs[2..][..j - 2];
      SumConcat([bs[0], bs[1]], bs[2..][..j - 2]);
      SumConcat([next[0]], bs[2..][..j - 2]);
      assert Sum([next[0]]) == next[0].size by { SumOne(next[0]); }
    }
  }

  lemma {:induction false} LeadingAtLeast(bs: seq<Block>)
    requires WellSized(bs) && bs != [] && !bs[0].alloc
    ensures Coalesce(bs) != [] && !Coalesce(bs)[0].alloc && Coalesce(bs)[0].size >= bs[0].size
    decreases |bs|
  {
    if |bs| >= 2 && !bs[1].alloc {
      LeadingAtLeast([Block(bs[0].size + bs[1].size, false)] + bs[2..]);
    }
  }

  /** A run that starts at the second block, after a free first one. */
  lemma RunFromSecond(bs: seq<Block>, j: nat)
    requires WellSized(bs) && 1 < j <= |bs| && !bs[0].alloc && AllFree(bs[1..j])
    ensures Coalesce(bs) != [] && !Coalesce(bs)[0].alloc && Coalesce(bs)[0].size >= Sum(bs[1..j])
  {
    hide Coalesce, Aligned;
    assert bs[..j] == [bs[0]] + bs[1..j];
    LeadingRun(bs, j);
    SumConcat([bs[0]], bs[1..j]);
    SumOne(bs[0]);
  }

  lemma MergedSized(bs: seq<Block>)
    requires WellSized(bs) && |bs| >= 2
    ensures WellSized([Block(bs[0].size + bs[1].size, false)] + bs[2..])
  {
    hide Aligned;
    AlignedSum(bs[0].size, bs[1].size);
  }

  /** Any run of adjacent free blocks is inside one block after coalescing. */
  lemma {:induction false} RunInsideBlock(bs: seq<Block>, i: nat, j: nat) returns (k: nat)
    requires WellSized(bs) && i < j <= |bs| && AllFree(bs[i..j])
    ensures k < |Coalesce(bs)| && !Coalesce(bs)[k].alloc && Coalesce(bs)[k].size >= Sum(bs[i..j])
    decreases |bs|
  {
    hide Aligned, Sum, Coalesce, AllFree, WellSized;
    CoalesceSteps(bs);
    if i == 0 {
      assert bs[0..j] == bs[..j];
      LeadingRun(bs, j);
      k := 0;
    } else if |bs| >= 2 && !bs[0].alloc && !bs[1].alloc {
      if i >= 2 {
        var next := [Block(bs[0].size + bs[1].size, false)] + bs[2..];
        MergedSized(bs);
        assert next[i - 1..j - 1] == bs[i..j];
        k := RunInsideBlock(next, i - 1, j - 1);
      } else {
        RunFromSecond(bs, j);
        k := 0;
      }
    } else {
      var rest := bs[1..];
      assert rest[i - 1..j - 1] == bs[i..j];
      RestSized(bs);
      k := RunInsideBlock(rest, i - 1, j - 1);
      assert ([bs[0]] + Coalesce(rest))[k + 1] == Coalesce(rest)[k];
      k := k + 1;
    }
  }

  lemma RestSized(bs: seq<Block>)
    requires WellSized(bs) && bs != []
    ensures WellSized(bs[1..])
  {
  }

  lemma CoalesceSteps(bs: seq<Block>)
    ensures |bs| >= 2 && !bs[0].alloc && !bs[1].alloc ==>
      Coalesce(bs) == Coalesce([Block(bs[0].size + bs[1].size, false)] + bs[2..])
    ensures |bs| >= 2 && (bs[0].alloc || bs[1].alloc) ==> Coalesce(bs) == [bs[0]] + Coalesce(bs[1..])
  {
  }

  /** The heap grows (or runs out) only when no run of adjacent free blocks, as the heap was
      before the call, holds the request. */
  lemma GrowsOnlyWhenNothingFits(bs: seq<Block>, base: int, request: nat, limit: int, i: nat, j: nat)
    requires WellSized(bs) && i < j <= |bs| && AllFree(bs[i..j])
    requires var (bs', a) := Malloc(bs, base, request, limit); a == 0 || Sum(bs') != Sum(bs)
    requires base > 0
    ensures Sum(bs[i..j]) < BlockSize(request)
  {
    var c, n := Coalesce(bs), BlockSize(request);
    var k := RunInsideBlock(bs, i, j);
    CoalesceKeeps(bs, base, 0, 0);
    var f := FirstFit(c, n);
    if f < |c| {
      TakeSum(c, f, n);
      CoalesceSized(bs);
      assert WellSized(c[..f]);
      SumBounds(c[..f]);
      assert false;
    }
  }

  lemma {:induction false} CoalesceSized(bs: seq<Block>)
    requires WellSized(bs)
    ensures WellSized(Coalesce(bs))
    decreases |bs|
  {
    hide Aligned;
    if |bs| < 2 {
    } else if !bs[0].alloc && !bs[1].alloc {
      AlignedSum(bs[0].size, bs[1].size);
      CoalesceSized([Block(bs[0].size + bs[1].size, false)] + bs[2..]);
    } else {
      CoalesceSized(bs[1..]);
    }
  }

  /** What block k turns into. */
  function Taken(b: Block, n: int): seq<Block>
  {
    if n < b.size then [Block(n, true), Block(b.size - n, false)] else [Block(b.size, true)]
  }

  lemma TakenParts(b: Block, n: int, at: int, x: int, size: int)
    ensures Sum(Taken(b, n)) == b.size
    ensures Live(at, Taken(b, n), x, size) <==> x == at && size == (if n < b.size then n else b.size)
  {
    if n < b.size {
      SumTwo(Block(n, true), Block(b.size - n, false));
      LiveTwo(at, Block(n, true), Block(b.size - n, false), x, size);
    } else {
      SumOne(Block(b.size, true));
      LiveOne(at, Block(b.size, true), x, size);
    }
  }

  lemma AroundSum(bs: seq<Block>, k: nat, mid: seq<Block>)
    requires k < |bs|
    ensures Sum(bs[..k] + mid + bs[k + 1..]) == Sum(bs[..k]) + Sum(mid) + Sum(bs[k + 1..])
  {
    hide Sum;
    SumConcat(bs[..k] + mid, bs[k + 1..]);
    SumConcat(bs[..k], mid);
  }

  lemma Around(bs: seq<Block>, k: nat, mid: seq<Block>, at: int, x: int, size: int)
    requires k < |bs|
    ensures Live(at, bs[..k] + mid + bs[k + 1..], x, size) <==>
      || Live(at, bs[..k], x, size) || Live(at + Sum(bs[..k]), mid, x, size)
      || Live(at + Sum(bs[..k]) + Sum(mid), bs[k + 1..], x, size)
  {
    hide Sum, Live;
    SumConcat(bs[..k], mid);
    LiveConcat(at, bs[..k] + mid, bs[k + 1..], x, size);
    LiveConcat(at, bs[..k], mid, x, size);
  }

  lemma SplitAt(bs: seq<Block>, k: nat)
    requires k < |bs|
    ensures bs == bs[..k] + [bs[k]] + bs[k + 1..]
    ensures Sum(bs) == Sum(bs[..k]) + bs[k].size + Sum(bs[k + 1..])
  {
    hide Sum;
    AroundSum(bs, k, [bs[k]]);
    SumOne(bs[k]);
    assert bs == bs[..k] + [bs[k]] + bs[k + 1..];
  }

  lemma TakeSum(bs: seq<Block>, k: nat, n: int)
    requires k < |bs|
    ensures Sum(Take(bs, k, n)) == Sum(bs)
  {
    hide Sum, Taken, Live;
    TakenParts(bs[k], n, 0, 0, 0);
    AroundSum(bs, k, Taken(bs[k], n));
    SplitAt(bs, k);
  }

  /** Allocating from block k adds exactly that block to the live ones. */
  lemma TakeLive(bs: seq<Block>, k: nat, n: int, at: int, x: int, size: int)
    requires k < |bs| && !bs[k].alloc
    ensures Live(at, Take(bs, k, n), x, size)
      <==> Live(at, bs, x, size) || (x == at + Sum(bs[..k]) && size == (if n < bs[k].size then n else bs[k].size))
  {
    var here := at + Sum(bs[..k]);
    hide Sum, Taken, Live;
    TakenParts(bs[k], n, here, x, size);
    Around(bs, k, Taken(bs[k], n), at, x, size);
    SplitAt(bs, k);
    Around(bs, k, [bs[k]], at, x, size);
    SumOne(bs[k]);
    LiveOne(here, bs[k], x, size);
  }

  lemma BlockSizeOk(request: nat)
    ensures Aligned(BlockSize(request)) && BlockSize(request) >= 16
    ensures request + 8 <= BlockSize(request) < request + 24
  {
  }

  /** Where the allocated block lies and how large it is. */
  function Granted(bs: seq<Block>, request: nat): int
  {
    var c, n := Coalesce(bs), BlockSize(request);
    var k := FirstFit(c, n);
    if k < |c| && !(n < c[k].size) then c[k].size else n
  }

  lemma GrantedSize(bs: seq<Block>, request: nat)
    ensures Aligned(Granted(bs, request)) && request + 8 <= Granted(bs, request) < request + 24
  {
    hide Coalesce;
    BlockSizeOk(request);
  }

  lemma RoomIff(c: seq<Block>, request: nat)
    requires WellSized(c)
    ensures FirstFit(c, BlockSize(request)) == |c| <==> forall b :: b in c && !b.alloc ==> b.size < request + 8
  {
    var k := FirstFit(c, BlockSize(request));
    if k < |c| {
      assert c[k] in c;
    } else {
      forall i | 0 <= i < |c| && !c[i].alloc ensures c[i].size < request + 8 {
        RoundedTest(c[i].size, request);
      }
    }
  }

  lemma RoundedTest(size: int, request: nat)
    requires Aligned(size)
    ensures size < BlockSize(request) <==> size < request + 8
  {
  }

  /** A request fails exactly when after coalescing no free block has room and the heap cannot grow by
      its block. */
  lemma MallocFailsIff(bs: seq<Block>, base: int, request: nat, limit: int)
    requires WellSized(bs) && base > 0
    ensures Malloc(bs, base, request, limit).1 == 0 <==>
      && (forall b :: b in Coalesce(bs) && !b.alloc ==> b.size < request + 8)
      && base + Sum(bs) + BlockSize(request) > limit
  {
    hide BlockSize, Coalesce, FirstFit, Sum, Take, Aligned, Live;
    var c := Coalesce(bs);
    BlockSizeOk(request);
    CoalesceSized(bs);
    CoalesceKeeps(bs, base, 0, 0);
    RoomIff(c, request);
    SumBounds(c);
    SumBounds(c[..FirstFit(c, BlockSize(request))]);
  }

  /** mm_malloc keeps every live block in place and adds exactly one live block, whose size is the
      least multiple of 16 with room for the request and its header; on failure only coalescing
      happened. */
  lemma MallocLive(bs: seq<Block>, base: int, request: nat, limit: int, x: int, size: int)
    requires WellSized(bs) && base > 0
    ensures Aligned(Granted(bs, request)) && request + 8 <= Granted(bs, request) < request + 24
    ensures var (bs', a) := Malloc(bs, base, request, limit);
      Live(base, bs', x, size) <==>
        Live(base, bs, x, size) || (a != 0 && x == a && size == Granted(bs, request))
  {
    GrantedSize(bs, request);
    hide Aligned;
    var c, n := Coalesce(bs), BlockSize(request);
    BlockSizeOk(request);
    hide BlockSize, Coalesce, Live, Sum, Take, FirstFit;
    CoalesceKeeps(bs, base, x, size);
    CoalesceSized(bs);
    SumBounds(c);
    var k := FirstFit(c, n);
    if k < |c| {
      TakeLive(c, k, n, base, x, size);
      SumBounds(c[..k]);
    } else if base + Sum(c) + n <= limit {
      LiveConcat(base, c, [Block(n, true)], x, size);
      LiveOne(base + Sum(c), Block(n, true), x, size);
      SumConcat(c, [Block(n, true)]);
      SumOne(Block(n, true));
    }
  }

  /** Sizes stay legal and payloads stay 16-byte aligned. */
  lemma MallocSized(bs: seq<Block>, base: int, request: nat, limit: int)
    requires WellSized(bs) && base > 0 && Aligned(base + 8)
    ensures var (bs', a) := Malloc(bs, base, request, limit);
      WellSized(bs') && (a != 0 ==> a >= base && Aligned(a + 8))
  {
    hide Aligned;
    var c, n := Coalesce(bs), BlockSize(request);
    BlockSizeOk(request);
    CoalesceSized(bs);
    var k := FirstFit(c, n);
    if k < |c| {
      SumBounds(c[..k]);
      AlignedSum(base + 8, Sum(c[..k]));
      TakeSized(c, k, n);
    } else if base + Sum(c) + n <= limit {
      SumBounds(c);
      AlignedSum(base + 8, Sum(c));
    }
  }

  lemma TakeSized(bs: seq<Block>, k: nat, n: int)
    requires WellSized(bs) && k < |bs| && n >= 16 && Aligned(n)
    ensures WellSized(Take(bs, k, n))
  {
    var t := Take(bs, k, n);
    forall i | 0 <= i < |t| ensures t[i].size >= 16 && Aligned(t[i].size) {
      if i < k {
        assert t[i] == bs[i];
      } else if n < bs[k].size {
        AlignedSum(bs[k].size, n);
        SixteenApart(bs[k].size, n);
        if i >= k + 2 { assert t[i] == bs[i - 1]; }
      } else if i > k {
        assert t[i] == bs[i];
      }
    }
  }

  lemma SixteenApart(a: int, b: int)
    requires Aligned(a) && Aligned(b) && b < a
    ensures a - b >= 16
  {
  }

  /** Two different live blocks do not overlap, and both lie inside the heap. */
  lemma {:induction false} LiveApart(bs: seq<Block>, at: int, a: int, sa: int, b: int, sb: int)
    requires WellSized(bs) && Live(at, bs, a, sa) && Live(at, bs, b, sb) && (a != b || sa != sb)
    ensures at <= a && a + sa <= at + Sum(bs)
    ensures a + sa <= b || b + sb <= a
  {
    LiveInside(bs, at, a, sa);
    if Live(at + bs[0].size, bs[1..], a, sa) && Live(at + bs[0].size, bs[1..], b, sb) {
      LiveApart(bs[1..], at + bs[0].size, a, sa, b, sb);
    } else if Live(at + bs[0].size, bs[1..], a, sa) {
      LiveInside(bs[1..], at + bs[0].size, a, sa);
    } else {
      LiveInside(bs[1..], at + bs[0].size, b, sb);
    }
  }

  lemma {:induction false} LiveInside(bs: seq<Block>, at: int, a: int, size: int)
    requires WellSized(bs) && Live(at, bs, a, size)
    ensures at <= a && a + size <= at + Sum(bs) && size >= 16
  {
    SumBounds(bs[1..]);
    if !(bs[0].alloc && a == at && size == bs[0].size) {
      LiveInside(bs[1..], at + bs[0].size, a, size);
    }
  }

  /** mm_free: the block at `a` is marked free; nothing is merged until the next allocation. */
  function Release(at: int, bs: seq<Block>, a: int): seq<Block>
    decreases bs
  {
    if bs == [] then []
    else if at == a then [bs[0].(alloc := false)] + bs[1..]
    else [bs[0]] + Release(at + bs[0].size, bs[1..], a)
  }

  /** Freeing a live block removes it, and only it, from the live ones. */
  lemma {:induction false} ReleaseLive(at: int, bs: seq<Block>, a: int, size: int, x: int, sx: int)
    requires WellSized(bs) && Live(at, bs, a, size)
    ensures WellSized(Release(at, bs, a)) && Sum(Release(at, bs, a)) == Sum(bs)
    ensures Live(at, Release(at, bs, a), x, sx) <==> Live(at, bs, x, sx) && x != a
    decreases bs
  {
    hide Aligned;
    var rest := bs[1..];
    var next := at + bs[0].size;
    if at == a {
      var r := [bs[0].(alloc := false)] + rest;
      assert r[1..] == rest;
      if Live(next, rest, x, sx) {
        LiveInside(rest, next, x, sx);
      }
      if Live(next, rest, a, size) {
        LiveInside(rest, next, a, size);
      }
    } else {
      ReleaseLive(next, rest, a, size, x, sx);
      var r := [bs[0]] + Release(next, rest, a);
      assert r[1..] == Release(next, rest, a);
      LiveInside(rest, next, a, size);
    }
  }
}
