/** The boundary-tag heap of the explicit-list allocator, seen as blocks that tile the heap
    and a list of the free ones. Addresses and sizes are in bytes. */
module ExplicitLayout {

  /** `prev` is the block to the left, or 0 for the first block. */
  datatype Block = Block(size: int, alloc: bool, prev: int)

  /** `last` is the rightmost block, or 0 if there is none. */
  datatype Layout = Layout(blocks: map<int, Block>, free: seq<int>, brk: int, last: int)

  // ----- The invariant -----

  predicate BlockOk(l: Layout, base: int, a: int)
    requires a in l.blocks
  {
    var b := l.blocks[a];
    && base <= a && b.size >= 16 && a + b.size <= l.brk
    && (a == base ==> b.prev == 0)
    && (a != base ==> b.prev in l.blocks && b.prev + l.blocks[b.prev].size == a)
    && (a + b.size == l.brk <==> a == l.last)
    && (a + b.size != l.brk ==> a + b.size in l.blocks && l.blocks[a + b.size].prev == a)
  }

  /** The blocks lie side by side from `base` to the break. */
  ghost predicate Tiled(l: Layout, base: int)
  {
    && 0 < base <= l.brk
    && (l.brk == base ==> l.blocks == map[] && l.last == 0)
    && (l.brk > base ==> base in l.blocks && l.last in l.blocks)
    && (forall a {:trigger BlockOk(l, base, a)} :: a in l.blocks ==> BlockOk(l, base, a))
    && (forall a, b {:trigger LeftOf(l, a, b)} :: a in l.blocks && b in l.blocks && a < b ==> LeftOf(l, a, b))
  }

  /** Payloads, 8 bytes into their blocks, are 16-byte aligned. */
  predicate AlignedAt(l: Layout, a: int)
    requires a in l.blocks
  {
    a % 16 == 8 && l.blocks[a].size % 16 == 0
  }

  ghost predicate Aligned(l: Layout)
  {
    l.brk % 16 == 8 && forall a {:trigger AlignedAt(l, a)} :: a in l.blocks ==> AlignedAt(l, a)
  }

  predicate LeftOf(l: Layout, a: int, b: int)
    requires a in l.blocks
  {
    a + l.blocks[a].size <= b
  }

  predicate NoDup(s: seq<int>)
  {
    forall i, j :: 0 <= i < j < |s| ==> s[i] != s[j]
  }

  predicate IsFree(l: Layout, a: int)
  {
    a in l.blocks && !l.blocks[a].alloc
  }

  /** A free block with room for two tags and two links. */
  predicate Linkable(l: Layout, a: int)
  {
    IsFree(l, a) && l.blocks[a].size >= 32
  }

  /** The list holds every free block once, except the `pending` ones, which are about to join it. */
  ghost predicate Listed(l: Layout, pending: set<int>)
  {
    && NoDup(l.free)
    && (forall i :: 0 <= i < |l.free| ==> Linkable(l, l.free[i]) && l.free[i] !in pending)
    && (forall a :: IsFree(l, a) && a !in pending ==> a in l.free)
  }

  /** No two free blocks touch (`pending` aside). */
  ghost predicate Coalesced(l: Layout, pending: set<int>)
  {
    forall a {:trigger NextFree(l, a)} ::
      IsFree(l, a) && a !in pending && a + l.blocks[a].size !in pending ==> !NextFree(l, a)
  }

  predicate NextFree(l: Layout, a: int)
    requires a in l.blocks
  {
    IsFree(l, a + l.blocks[a].size)
  }

  ghost predicate Invariant(l: Layout, base: int, pending: set<int>)
  {
    Tiled(l, base) && Aligned(l) && Listed(l, pending) && Coalesced(l, pending)
  }

  // ----- The operations -----

  function IndexOf(s: seq<int>, a: int): (k: nat)
    requires a in s
    ensures k < |s| && s[k] == a
  {
    if s[0] == a then 0 else 1 + IndexOf(s[1..], a)
  }

  function DropAt(s: seq<int>, k: nat): seq<int>
    requires k < |s|
  {
    s[..k] + s[k + 1..]
  }

  function Without(s: seq<int>, a: int): seq<int>
    requires a in s
  {
    DropAt(s, IndexOf(s, a))
  }

  function SetAlloc(l: Layout, a: int, alloc: bool): Layout
    requires a in l.blocks
  {
    l.(blocks := l.blocks[a := l.blocks[a].(alloc := alloc)])
  }

  /** Right neighbours learn their new left neighbour. */
  function Relink(blocks: map<int, Block>, a: int, prev: int): map<int, Block>
  {
    if a in blocks then blocks[a := blocks[a].(prev := prev)] else blocks
  }

  /** Blocks p and q, side by side, become one free block. */
  function Join(l: Layout, p: int, q: int): Layout
    requires p in l.blocks && q in l.blocks
  {
    var b := Block(l.blocks[p].size + l.blocks[q].size, false, l.blocks[p].prev);
    l.(blocks := Relink((l.blocks - {q})[p := b], p + b.size, p),
       last := if q == l.last then p else l.last)
  }

  /** The first `n` bytes of block `a` become an allocated block, the rest a free one. */
  function Split(l: Layout, a: int, n: int): Layout
    requires a in l.blocks
  {
    var b := l.blocks[a];
    var rest := a + n;
    l.(blocks := Relink(l.blocks, a + b.size, rest)[a := Block(n, true, b.prev)][rest := Block(b.size - n, false, a)],
       last := if a == l.last then rest else l.last)
  }

  function Push(l: Layout, a: int): Layout
    requires a in l.blocks
  {
    SetAlloc(l, a, false).(free := [a] + l.free)
  }

  function Unlist(l: Layout, a: int): Layout
    requires a in l.free
  {
    l.(free := Without(l.free, a))
  }

  /** A new allocated block at the break. */
  function Extend(l: Layout, n: int): Layout
  {
    l.(blocks := l.blocks[l.brk := Block(n, true, l.last)], brk := l.brk + n, last := l.brk)
  }

  /** The position of the first listed block of at least `n` bytes, or |free|. */
  function FirstFit(l: Layout, n: int, from: nat): (k: nat)
    requires from <= |l.free|
    ensures from <= k <= |l.free|
    ensures forall i :: from <= i < k ==> l.free[i] !in l.blocks || l.blocks[l.free[i]].size < n
    ensures k < |l.free| ==> l.free[k] in l.blocks && l.blocks[l.free[k]].size >= n
    decreases |l.free| - from
  {
    if from == |l.free| then from
    else if l.free[from] in l.blocks && l.blocks[l.free[from]].size >= n then from
    else FirstFit(l, n, from + 1)
  }

  function RoundUp(size: int, n: int): int
    requires n > 0
  {
    (size + (n - 1)) / n * n
  }

  /** The block size for a request: header, payload, footer, rounded up to 16. */
  function BlockSize(request: nat): int
  {
    RoundUp(8 + request + 8, 16)
  }

  /** Allocation from a listed block: split it if what is left over can hold a free block. */
  function Take(l: Layout, a: int, n: int): Layout
    requires a in l.free && a in l.blocks
  {
    var u := Unlist(l, a);
    if l.blocks[a].size >= RoundUp(n + 24, 16)
    then Push(Split(u, a, n), a + n)
    else SetAlloc(u, a, true)
  }

  /** The new layout and the allocated block, or 0 when the heap cannot grow. */
  function Malloc(l: Layout, request: nat, limit: int): (Layout, int)
  {
    var n := BlockSize(request);
    var k := FirstFit(l, n, 0);
    if k < |l.free| then (Take(l, l.free[k], n), l.free[k])
    else if l.brk + n > limit then (l, 0)
    else (Extend(l, n), l.brk)
  }

  /** Merges a block that is being freed with a free left neighbour. */
  function MergeLeft(l: Layout, base: int, a: int): (Layout, int)
    requires a in l.blocks
  {
    var p := l.blocks[a].prev;
    if a != base && IsFree(l, p) && p in l.free then (Join(Unlist(l, p), p, a), p)
    else (SetAlloc(l, a, false), a)
  }

  function MergeRight(l: Layout, a: int): Layout
    requires a in l.blocks
  {
    var q := a + l.blocks[a].size;
    if a != l.last && IsFree(l, q) && q in l.free then Join(Unlist(l, q), a, q) else l
  }

  function Free(l: Layout, base: int, a: int): Layout
    requires a in l.blocks
  {
    var (l1, p) := MergeLeft(l, base, a);
    Push(MergeRight(l1, p), p)
  }

  // ----- Each operation keeps the invariant -----

  lemma BlockSizeOk(request: nat)
    ensures BlockSize(request) % 16 == 0 && BlockSize(request) >= request + 16
    ensures BlockSize(request) >= 32 <==> request >= 1
    ensures BlockSize(request) < request + 32
    ensures RoundUp(BlockSize(request) + 24, 16) == BlockSize(request) + 32
  {
  }

  /** Two blocks do not overlap, whichever comes first. */
  lemma Apart(l: Layout, base: int, a: int, b: int)
    requires Tiled(l, base) && a in l.blocks && b in l.blocks && a != b
    ensures a + l.blocks[a].size <= b || b + l.blocks[b].size <= a
  {
    assert a < b ==> LeftOf(l, a, b);
    assert b < a ==> LeftOf(l, b, a);
  }

  lemma JoinBlockOk(l: Layout, base: int, p: int, q: int, a: int)
    requires Tiled(l, base) && p in l.blocks && q in l.blocks && q == p + l.blocks[p].size
    requires a in l.blocks && a != q
    ensures a in Join(l, p, q).blocks && BlockOk(Join(l, p, q), base, a)
  {
    assert BlockOk(l, base, p) && BlockOk(l, base, q) && BlockOk(l, base, a);
    var n := q + l.blocks[q].size;
    if n in l.blocks {
      assert BlockOk(l, base, n);
    }
    if a != p {
      Apart(l, base, a, p);
      Apart(l, base, a, q);
    }
  }

  lemma JoinTiled(l: Layout, base: int, p: int, q: int)
    requires Tiled(l, base) && p in l.blocks && q in l.blocks && q == p + l.blocks[p].size
    ensures Tiled(Join(l, p, q), base)
  {
    hide BlockOk;
    var j := Join(l, p, q);
    assert base <= p && 16 <= l.blocks[p].size && 16 <= l.blocks[q].size by {
      Bounds(l, base, p);
      Bounds(l, base, q);
    }
    assert j.blocks.Keys == l.blocks.Keys - {q};
    forall a | a in j.blocks ensures BlockOk(j, base, a) {
      JoinBlockOk(l, base, p, q, a);
    }
    forall a, b | a in j.blocks && b in j.blocks && a < b ensures LeftOf(j, a, b) {
      Bounds(l, base, b);
      Apart(l, base, a, b);
      if a == p {
        Apart(l, base, q, b);
      }
    }
  }

  lemma Bounds(l: Layout, base: int, a: int)
    requires Tiled(l, base) && a in l.blocks
    ensures 0 < base <= a && l.blocks[a].size >= 16 && a + l.blocks[a].size <= l.brk
  {
    assert BlockOk(l, base, a);
  }

  lemma SplitBlockOk(l: Layout, base: int, a: int, n: int, c: int)
    requires Tiled(l, base) && a in l.blocks && 16 <= n <= l.blocks[a].size - 32
    requires c in l.blocks || c == a + n
    ensures c in Split(l, a, n).blocks && BlockOk(Split(l, a, n), base, c)
  {
    assert BlockOk(l, base, a);
    var b := l.blocks[a];
    if c in l.blocks {
      assert BlockOk(l, base, c);
      if c != a {
        Apart(l, base, a, c);
      }
    }
    if a + b.size in l.blocks {
      assert BlockOk(l, base, a + b.size);
    }
    if c in l.blocks && c + l.blocks[c].size in l.blocks && c + l.blocks[c].size != a {
      Apart(l, base, a, c + l.blocks[c].size);
    }
    if c in l.blocks && c != base && l.blocks[c].prev != a {
      Apart(l, base, a, l.blocks[c].prev);
      Bounds(l, base, l.blocks[c].prev);
    }
  }

  lemma SplitTiled(l: Layout, base: int, a: int, n: int)
    requires Tiled(l, base) && a in l.blocks && 16 <= n <= l.blocks[a].size - 32
    ensures Tiled(Split(l, a, n), base)
    ensures a + n !in l.blocks
  {
    hide BlockOk;
    var s := Split(l, a, n);
    Bounds(l, base, a);
    if a + n in l.blocks {
      Apart(l, base, a, a + n);
      Bounds(l, base, a + n);
      assert false;
    }
    assert s.blocks.Keys == l.blocks.Keys + {a + n};
    forall c | c in s.blocks ensures BlockOk(s, base, c) {
      SplitBlockOk(l, base, a, n, c);
    }
    forall c, d | c in s.blocks && d in s.blocks && c < d ensures LeftOf(s, c, d) {
      if c in l.blocks && d in l.blocks {
        Apart(l, base, c, d);
        Bounds(l, base, d);
      } else if c in l.blocks {
        if c != a {
          Apart(l, base, c, a);
          Bounds(l, base, c);
        }
      } else {
        Apart(l, base, a, d);
        Bounds(l, base, d);
      }
    }
  }

  lemma SetAllocTiled(l: Layout, base: int, a: int, alloc: bool)
    requires Tiled(l, base) && a in l.blocks
    ensures Tiled(SetAlloc(l, a, alloc), base)
  {
    var s := SetAlloc(l, a, alloc);
    forall c | c in s.blocks ensures BlockOk(s, base, c) {
      assert BlockOk(l, base, c);
    }
    forall c, d | c in s.blocks && d in s.blocks && c < d ensures LeftOf(s, c, d) {
      assert LeftOf(l, c, d);
    }
  }

  lemma ExtendBlockOk(l: Layout, base: int, n: int, c: int)
    requires Tiled(l, base) && n >= 16 && (c in l.blocks || c == l.brk)
    ensures l.brk !in l.blocks
    ensures c in Extend(l, n).blocks && BlockOk(Extend(l, n), base, c)
  {
    if l.brk in l.blocks {
      Bounds(l, base, l.brk);
      assert false;
    }
    if l.last in l.blocks {
      assert BlockOk(l, base, l.last);
    }
    if c in l.blocks {
      assert BlockOk(l, base, c);
    }
  }

  lemma ExtendTiled(l: Layout, base: int, n: int)
    requires Tiled(l, base) && n >= 16
    ensures Tiled(Extend(l, n), base)
    ensures l.brk !in l.blocks
  {
    hide BlockOk;
    var e := Extend(l, n);
    ExtendBlockOk(l, base, n, l.brk);
    forall c | c in e.blocks ensures BlockOk(e, base, c) {
      ExtendBlockOk(l, base, n, c);
    }
    forall c, d | c in e.blocks && d in e.blocks && c < d ensures LeftOf(e, c, d) {
      if c in l.blocks {
        Bounds(l, base, c);
      }
      if d in l.blocks {
        Bounds(l, base, d);
        if c in l.blocks {
          assert LeftOf(l, c, d);
        }
      }
    }
  }

  // ----- The free list -----

  lemma DropAtListed(s: seq<int>, k: nat)
    requires NoDup(s) && k < |s|
    ensures NoDup(DropAt(s, k)) && s[k] !in DropAt(s, k)
    ensures forall a :: a in DropAt(s, k) <==> a in s && a != s[k]
  {
    var t := DropAt(s, k);
    forall a | a in s && a != s[k] ensures a in t {
      var i :| 0 <= i < |s| && s[i] == a;
      assert if i < k then t[i] == a else t[i - 1] == a;
    }
  }

  lemma UnlistedListed(l: Layout, pending: set<int>, a: int)
    requires Listed(l, pending) && a in l.free
    ensures Listed(Unlist(l, a), pending + {a})
  {
    DropAtListed(l.free, IndexOf(l.free, a));
    var u := Unlist(l, a);
    forall c | IsFree(u, c) && c !in pending + {a} ensures c in u.free {
      assert IsFree(l, c);
    }
  }

  lemma PushListed(l: Layout, a: int)
    requires Listed(l, {a}) && a in l.blocks && l.blocks[a].size >= 32
    ensures Listed(Push(l, a), {})
  {
    var p := Push(l, a);
    forall i | 0 <= i < |p.free| ensures Linkable(p, p.free[i]) {
      if i > 0 {
        assert p.free[i] == l.free[i - 1];
      }
    }
    forall c | IsFree(p, c) ensures c in p.free {
      if c != a {
        assert IsFree(l, c) && c in l.free;
      } else {
        assert p.free[0] == a;
      }
    }
  }

  lemma JoinListed(l: Layout, pending: set<int>, p: int, q: int)
    requires Listed(l, pending) && p in l.blocks && q in l.blocks && p != q
    requires p in pending && pending <= {p, q} && (q in pending || l.blocks[q].alloc)
    ensures Listed(Join(l, p, q), {p})
  {
    var j := Join(l, p, q);
    forall i | 0 <= i < |j.free| ensures Linkable(j, j.free[i]) && j.free[i] !in {p} {
      assert Linkable(l, l.free[i]) && l.free[i] !in pending;
    }
    forall c | IsFree(j, c) && c !in {p} ensures c in j.free {
      assert IsFree(l, c);
    }
  }

  lemma JoinAligned(l: Layout, p: int, q: int)
    requires Aligned(l) && p in l.blocks && q in l.blocks && p != q
    ensures Aligned(Join(l, p, q))
  {
    var j := Join(l, p, q);
    assert AlignedAt(l, p) && AlignedAt(l, q);
    forall c | c in j.blocks ensures AlignedAt(j, c) {
      assert AlignedAt(l, c);
    }
  }

  lemma SplitAligned(l: Layout, a: int, n: int)
    requires Aligned(l) && a in l.blocks && n % 16 == 0
    ensures Aligned(Split(l, a, n))
  {
    var s := Split(l, a, n);
    assert AlignedAt(l, a);
    forall c | c in s.blocks ensures AlignedAt(s, c) {
      if c in l.blocks {
        assert AlignedAt(l, c);
      }
    }
  }

  lemma SetAllocAligned(l: Layout, a: int, alloc: bool)
    requires Aligned(l) && a in l.blocks
    ensures Aligned(SetAlloc(l, a, alloc))
  {
    var s := SetAlloc(l, a, alloc);
    forall c | c in s.blocks ensures AlignedAt(s, c) {
      assert AlignedAt(l, c);
    }
  }

  lemma SplitListed(l: Layout, base: int, a: int, n: int)
    requires Listed(l, {a}) && a in l.blocks && a + n !in l.blocks && n != 0
    ensures Listed(Split(l, a, n), {a + n})
  {
    var s := Split(l, a, n);
    forall i | 0 <= i < |s.free| ensures Linkable(s, s.free[i]) && s.free[i] !in {a + n} {
      assert Linkable(l, l.free[i]) && l.free[i] != a;
    }
    forall c | IsFree(s, c) && c !in {a + n} ensures c in s.free {
      assert IsFree(l, c);
    }
  }

  /** Which neighbour relations survive a split: the new free block has allocated neighbours. */
  lemma SplitCoalesced(l: Layout, base: int, a: int, n: int)
    requires Tiled(l, base) && Coalesced(l, {}) && IsFree(l, a) && 16 <= n <= l.blocks[a].size - 32
    ensures Coalesced(Split(l, a, n), {})
  {
    var s := Split(l, a, n);
    SplitTiled(l, base, a, n);
    assert !NextFree(l, a);
    forall c | IsFree(s, c) ensures !NextFree(s, c) {
      if c == a + n {
        assert s.blocks[c].size + c == a + l.blocks[a].size;
      } else {
        assert IsFree(l, c) && c != a;
        assert !NextFree(l, c);
        Apart(l, base, a, c);
        assert BlockOk(l, base, a) && BlockOk(l, base, c);
        assert c + l.blocks[c].size != a + n;
      }
    }
  }

  lemma UnlistInvariant(l: Layout, base: int, pending: set<int>, a: int)
    requires Invariant(l, base, pending) && a in l.free
    ensures var u := Unlist(l, a);
      Tiled(u, base) && Aligned(u) && Coalesced(u, pending) && Listed(u, pending + {a})
  {
    var u := Unlist(l, a);
    UnlistedListed(l, pending, a);
    SameBlocks(l, u, base);
    forall c | c in u.blocks ensures AlignedAt(u, c) {
      assert AlignedAt(l, c);
    }
    forall c | IsFree(u, c) && c !in pending && c + u.blocks[c].size !in pending ensures !NextFree(u, c) {
      assert IsFree(l, c) && !NextFree(l, c);
    }
  }

  lemma UnlistedInvariant(l: Layout, base: int, pending: set<int>, a: int)
    requires Invariant(l, base, pending) && a in l.free
    ensures Invariant(Unlist(l, a), base, pending + {a})
  {
    UnlistInvariant(l, base, pending, a);
    var u := Unlist(l, a);
    forall c | IsFree(u, c) && c !in pending + {a} && c + u.blocks[c].size !in pending + {a} ensures !NextFree(u, c) {
    }
  }

  lemma TakeWhole(l: Layout, base: int, a: int)
    requires Invariant(l, base, {}) && a in l.free && IsFree(l, a)
    ensures Invariant(SetAlloc(Unlist(l, a), a, true), base, {})
  {
    var u := Unlist(l, a);
    UnlistInvariant(l, base, {}, a);
    SetAllocTiled(u, base, a, true);
    SetAllocAligned(u, a, true);
    var s := SetAlloc(u, a, true);
    forall i | 0 <= i < |s.free| ensures Linkable(s, s.free[i]) {
      assert Linkable(u, u.free[i]) && u.free[i] !in {a};
    }
    forall c | IsFree(s, c) ensures c in s.free {
      assert IsFree(u, c) && c !in {a};
    }
    forall c | IsFree(s, c) ensures !NextFree(s, c) {
      assert IsFree(u, c) && !NextFree(u, c);
    }
  }

  lemma TakeSplit(l: Layout, base: int, a: int, n: int)
    requires Invariant(l, base, {}) && a in l.free && IsFree(l, a)
    requires 16 <= n <= l.blocks[a].size - 32 && n % 16 == 0
    ensures Invariant(Push(Split(Unlist(l, a), a, n), a + n), base, {})
    ensures a + n !in l.blocks
  {
    hide Split, Push, Coalesced, Listed, Tiled, Aligned;
    UnlistInvariant(l, base, {}, a);
    var u := Unlist(l, a);
    SplitTiled(u, base, a, n);
    SplitAligned(u, a, n);
    assert {} + {a} == {a};
    SplitListed(u, base, a, n);
    SplitCoalesced(u, base, a, n);
    SplitShape(u, a, n);
    assert Linkable(Split(u, a, n), a + n);
    PushInvariant(Split(u, a, n), base, a + n);
  }

  lemma SplitShape(l: Layout, a: int, n: int)
    requires a in l.blocks && n != 0
    ensures var s := Split(l, a, n);
      IsFree(s, a + n) && a in s.blocks && s.blocks[a].alloc && s.blocks[a].size == n
      && s.blocks[a + n].size == l.blocks[a].size - n
  {
  }

  /** Allocating from a listed block that is large enough keeps the invariant. */
  lemma TakeInvariant(l: Layout, base: int, a: int, n: int)
    requires Invariant(l, base, {}) && a in l.free && IsFree(l, a)
    requires 16 <= n <= l.blocks[a].size && n % 16 == 0
    ensures Invariant(Take(l, a, n), base, {})
    ensures a in Take(l, a, n).blocks && Take(l, a, n).blocks[a].alloc && Take(l, a, n).blocks[a].size >= n
  {
    hide Invariant, Split;
    assert RoundUp(n + 24, 16) == n + 32;
    if l.blocks[a].size >= n + 32 {
      TakeSplit(l, base, a, n);
      SplitShape(Unlist(l, a), a, n);
    } else {
      TakeWhole(l, base, a);
    }
  }

  lemma SameBlocks(l: Layout, u: Layout, base: int)
    requires Tiled(l, base) && u.blocks == l.blocks && u.brk == l.brk && u.last == l.last
    ensures Tiled(u, base)
  {
    forall c | c in u.blocks ensures BlockOk(u, base, c) {
      assert BlockOk(l, base, c);
    }
    forall c, d | c in u.blocks && d in u.blocks && c < d ensures LeftOf(u, c, d) {
      assert LeftOf(l, c, d);
    }
  }

  /** A pending free block with allocated neighbours may join the list. */
  lemma PushInvariant(l: Layout, base: int, a: int)
    requires Tiled(l, base) && Aligned(l) && Listed(l, {a}) && Coalesced(l, {}) && Linkable(l, a)
    ensures Invariant(Push(l, a), base, {})
  {
    var p := Push(l, a);
    assert p.blocks == l.blocks;
    SameBlocks(l, p, base);
    PushListed(l, a);
    assert Aligned(p) by {
      forall c | c in p.blocks ensures AlignedAt(p, c) { assert AlignedAt(l, c); }
    }
    forall c | IsFree(p, c) ensures !NextFree(p, c) {
      assert IsFree(l, c) && !NextFree(l, c);
    }
  }

  lemma ExtendInvariant(l: Layout, base: int, n: int)
    requires Invariant(l, base, {}) && n >= 16 && n % 16 == 0
    ensures Invariant(Extend(l, n), base, {}) && l.brk !in l.blocks
  {
    var e := Extend(l, n);
    ExtendTiled(l, base, n);
    forall c | c in e.blocks ensures AlignedAt(e, c) {
      if c in l.blocks {
        assert AlignedAt(l, c);
      }
    }
    forall i | 0 <= i < |e.free| ensures Linkable(e, e.free[i]) {
      assert Linkable(l, l.free[i]);
    }
    forall c | IsFree(e, c) ensures c in e.free {
      assert IsFree(l, c);
    }
    forall c | IsFree(e, c) ensures !NextFree(e, c) {
      assert IsFree(l, c) && !NextFree(l, c);
    }
  }

  /** mm_malloc, whatever is requested, keeps the invariant and, when it succeeds, returns a block that was free or
      new, is allocated now and has room for the request. */
  lemma MallocInvariant(l: Layout, base: int, request: nat, limit: int)
    requires Invariant(l, base, {})
    ensures var (l', a) := Malloc(l, request, limit);
      && Invariant(l', base, {})
      && (a == 0 ==> l' == l)
      && (a != 0 ==> a in l'.blocks && l'.blocks[a].alloc && l'.blocks[a].size >= BlockSize(request)
                     && (IsFree(l, a) || a == l.brk))
  {
    var n := BlockSize(request);
    BlockSizeOk(request);
    var k := FirstFit(l, n, 0);
    if k < |l.free| {
      assert IsFree(l, l.free[k]);
      Bounds(l, base, l.free[k]);
      TakeInvariant(l, base, l.free[k], n);
    } else if l.brk + n <= limit {
      ExtendInvariant(l, base, n);
    }
  }

  /** What a request is granted: the least multiple of 16 with room for it and two tags, except that
      a free block with less than 32 bytes to spare is used whole; what is split off is free. */
  ghost predicate Granted(l: Layout, l': Layout, a: int, request: nat)
  {
    a in l'.blocks && l'.blocks[a].alloc &&
    var s := l'.blocks[a].size;
    && s % 16 == 0
    && (a !in l.blocks ==> request + 16 <= s < request + 32)
    && (a in l.blocks ==>
          var b := l.blocks[a].size;
          if b >= request + 48
          then request + 16 <= s < request + 32 && IsFree(l', a + s) && l'.blocks[a + s].size == b - s
          else request + 16 <= s == b)
  }

  lemma Threshold(b: int, n: int, request: nat)
    requires b % 16 == 0 && n % 16 == 0 && request + 16 <= n < request + 32
    ensures b >= n + 32 <==> b >= request + 48
  {
  }

  lemma SplitGranted(l: Layout, a: int, n: int, request: nat)
    requires a in l.free && a in l.blocks && n % 16 == 0
    requires request + 16 <= n < request + 32 && l.blocks[a].size >= request + 48
    ensures Granted(l, Push(Split(Unlist(l, a), a, n), a + n), a, request)
  {
    SplitShape(Unlist(l, a), a, n);
    hide Split;
  }

  lemma WholeGranted(l: Layout, a: int, request: nat)
    requires a in l.free && a in l.blocks && l.blocks[a].size % 16 == 0
    requires request + 16 <= l.blocks[a].size < request + 48
    ensures Granted(l, SetAlloc(Unlist(l, a), a, true), a, request)
  {
  }

  lemma SplitSize(n: int)
    requires n % 16 == 0
    ensures RoundUp(n + 24, 16) == n + 32
  {
  }

  lemma SizeAligned(l: Layout, base: int, a: int)
    requires Invariant(l, base, {}) && a in l.blocks
    ensures l.blocks[a].size % 16 == 0
  {
    assert AlignedAt(l, a);
  }

  lemma TakeGranted(l: Layout, base: int, a: int, request: nat)
    requires Invariant(l, base, {}) && a in l.free && IsFree(l, a) && BlockSize(request) <= l.blocks[a].size
    ensures Granted(l, Take(l, a, BlockSize(request)), a, request)
  {
    hide Invariant, Split, Push, SetAlloc, Granted, BlockSize, RoundUp, Unlist;
    var n := BlockSize(request);
    BlockSizeOk(request);
    SizeAligned(l, base, a);
    SplitSize(n);
    Threshold(l.blocks[a].size, n, request);
    if l.blocks[a].size >= n + 32 {
      SplitGranted(l, a, n, request);
    } else {
      WholeGranted(l, a, request);
    }
  }

  lemma MallocGranted(l: Layout, base: int, request: nat, limit: int)
    requires Invariant(l, base, {})
    ensures var (l', a) := Malloc(l, request, limit);
      a != 0 ==> Granted(l, l', a, request) && l'.blocks[a].size < request + 48
  {
    var n := BlockSize(request);
    BlockSizeOk(request);
    var k := FirstFit(l, n, 0);
    if k < |l.free| {
      assert Linkable(l, l.free[k]);
      hide Invariant, Take, BlockSize, Extend;
      TakeGranted(l, base, l.free[k], request);
    } else if l.brk + n <= limit {
      hide Invariant, Take, BlockSize;
      ExtendInvariant(l, base, n);
    }
  }

  /** A request fails exactly when no free block has room and the heap cannot grow by its block. */
  lemma MallocFailsIff(l: Layout, base: int, request: nat, limit: int)
    requires Invariant(l, base, {})
    ensures Malloc(l, request, limit).1 == 0 <==>
      && (forall b :: IsFree(l, b) ==> l.blocks[b].size < request + 16)
      && l.brk + BlockSize(request) > limit
  {
    var n := BlockSize(request);
    BlockSizeOk(request);
    var k := FirstFit(l, n, 0);
    forall b | IsFree(l, b) ensures b != 0 && (l.blocks[b].size < request + 16 <==> l.blocks[b].size < n) && b in l.free {
      assert BlockOk(l, base, b) && AlignedAt(l, b);
    }
    hide BlockSize, FirstFit;
    if k < |l.free| {
      assert Linkable(l, l.free[k]);
    } else {
      forall b | IsFree(l, b) ensures l.blocks[b].size < n {
        var i :| 0 <= i < |l.free| && l.free[i] == b;
      }
    }
  }

  /** The block that freeing `a` makes is the first that a request it can serve gets. */
  lemma FreedIsReused(l: Layout, base: int, a: int, request: nat, limit: int)
    requires Invariant(l, base, {}) && a in l.blocks && l.blocks[a].alloc
    ensures var f, p := Free(l, base, a), MergeLeft(l, base, a).1;
      && p in f.blocks && (p == a || p == l.blocks[a].prev)
      && (request + 16 <= f.blocks[p].size ==> Malloc(f, request, limit).1 == p)
  {
    MergeLeftInvariant(l, base, a);
    var (l1, p) := MergeLeft(l, base, a);
    MergeRightInvariant(l1, base, p);
    var r := MergeRight(l1, p);
    assert AlignedAt(r, p);
    hide Invariant, MergeLeft, MergeRight;
    BlockSizeOk(request);
    var f := Push(r, p);
    assert f.free[0] == p;
    assert request + 16 <= f.blocks[p].size ==> FirstFit(f, BlockSize(request), 0) == 0;
  }

  // ----- Freeing -----

  lemma MergeLeftInvariant(l: Layout, base: int, a: int)
    requires Invariant(l, base, {}) && a in l.blocks && l.blocks[a].alloc
    ensures var (l1, p) := MergeLeft(l, base, a);
      && Invariant(l1, base, {p}) && IsFree(l1, p)
      && (p != base ==> !IsFree(l1, l1.blocks[p].prev))
  {
    assert BlockOk(l, base, a);
    var p := l.blocks[a].prev;
    if a != base && IsFree(l, p) {
      assert p in l.free;
      UnlistInvariant(l, base, {}, p);
      var u := Unlist(l, p);
      assert {} + {p} == {p};
      JoinTiled(u, base, p, a);
      JoinAligned(u, p, a);
      JoinListed(u, {p}, p, a);
      JoinLeftCoalesced(l, base, p, a);
    } else {
      FreeAlone(l, base, a);
    }
  }

  lemma FreeAlone(l: Layout, base: int, a: int)
    requires Invariant(l, base, {}) && a in l.blocks && l.blocks[a].alloc
    ensures Invariant(SetAlloc(l, a, false), base, {a})
  {
    var s := SetAlloc(l, a, false);
    SetAllocTiled(l, base, a, false);
    SetAllocAligned(l, a, false);
    forall i | 0 <= i < |s.free| ensures Linkable(s, s.free[i]) && s.free[i] !in {a} {
      assert Linkable(l, l.free[i]);
    }
    forall c | IsFree(s, c) && c !in {a} ensures c in s.free {
      assert IsFree(l, c);
    }
    forall c | IsFree(s, c) && c !in {a} && c + s.blocks[c].size !in {a} ensures !NextFree(s, c) {
      assert IsFree(l, c) && !NextFree(l, c);
    }
  }

  lemma JoinLeftCoalesced(l: Layout, base: int, p: int, a: int)
    requires Invariant(l, base, {}) && IsFree(l, p) && a in l.blocks && l.blocks[a].alloc
    requires a == p + l.blocks[p].size && p in l.free
    ensures var j := Join(Unlist(l, p), p, a);
      && Coalesced(j, {p}) && IsFree(j, p)
      && (p != base ==> !IsFree(j, j.blocks[p].prev))
  {
    var j := Join(Unlist(l, p), p, a);
    assert BlockOk(l, base, p) && BlockOk(l, base, a);
    forall c | IsFree(j, c) && c !in {p} && c + j.blocks[c].size !in {p} ensures !NextFree(j, c) {
      assert IsFree(l, c) && !NextFree(l, c);
      assert BlockOk(l, base, c);
    }
    if p != base {
      var o := l.blocks[p].prev;
      assert NextFree(l, o);
      assert BlockOk(l, base, o);
    }
  }

  lemma MergeRightInvariant(l: Layout, base: int, a: int)
    requires Invariant(l, base, {a}) && IsFree(l, a)
    ensures var r := MergeRight(l, a);
      && Invariant(r, base, {a}) && IsFree(r, a) && !NextFree(r, a)
      && r.blocks[a].prev == l.blocks[a].prev
      && (a != base && !IsFree(l, l.blocks[a].prev) ==> !IsFree(r, r.blocks[a].prev))
  {
    assert BlockOk(l, base, a);
    var q := a + l.blocks[a].size;
    if a != l.last && IsFree(l, q) {
      assert q in l.free;
      UnlistInvariant(l, base, {a}, q);
      var u := Unlist(l, q);
      assert {a} + {q} == {a, q};
      JoinTiled(u, base, a, q);
      JoinAligned(u, a, q);
      JoinListed(u, {a, q}, a, q);
      JoinRightCoalesced(l, base, a, q);
    } else if q in l.blocks {
      assert BlockOk(l, base, q);
    }
  }

  lemma JoinRightCoalesced(l: Layout, base: int, a: int, q: int)
    requires Invariant(l, base, {a}) && IsFree(l, a) && IsFree(l, q) && q in l.free
    requires q == a + l.blocks[a].size
    ensures var j := Join(Unlist(l, q), a, q);
      && Coalesced(j, {a}) && IsFree(j, a) && !NextFree(j, a)
      && j.blocks[a].prev == l.blocks[a].prev
      && (a != base && !IsFree(l, l.blocks[a].prev) ==> !IsFree(j, j.blocks[a].prev))
  {
    var j := Join(Unlist(l, q), a, q);
    assert BlockOk(l, base, a) && BlockOk(l, base, q);
    assert q + l.blocks[q].size != a;
    assert !NextFree(l, q);
    forall c | IsFree(j, c) && c !in {a} && c + j.blocks[c].size !in {a} ensures !NextFree(j, c) {
      assert IsFree(l, c) && !NextFree(l, c);
      assert BlockOk(l, base, c);
    }
    if a != base {
      assert BlockOk(l, base, l.blocks[a].prev);
    }
  }

  lemma PendingCoalesced(l: Layout, base: int, a: int)
    requires Invariant(l, base, {a}) && IsFree(l, a) && !NextFree(l, a)
    requires a != base ==> !IsFree(l, l.blocks[a].prev)
    ensures Coalesced(l, {})
  {
    assert BlockOk(l, base, a);
    forall c | IsFree(l, c) ensures !NextFree(l, c) {
      assert BlockOk(l, base, c);
      if c + l.blocks[c].size == a {
        if a != base {
          Apart(l, base, c, a);
          assert BlockOk(l, base, l.blocks[a].prev);
          if l.blocks[a].prev != c { Apart(l, base, c, l.blocks[a].prev); }
        }
      }
    }
  }

  /** The block has room for links, or a free neighbour to merge with. */
  predicate CanFree(l: Layout, base: int, a: int)
    requires a in l.blocks
  {
    || l.blocks[a].size >= 32
    || (a != base && IsFree(l, l.blocks[a].prev))
    || (a != l.last && IsFree(l, a + l.blocks[a].size))
  }

  lemma MergedLeftSize(l: Layout, base: int, a: int)
    requires Invariant(l, base, {}) && a in l.blocks && l.blocks[a].alloc
    ensures var (l1, p) := MergeLeft(l, base, a);
      && p in l1.blocks && (p == a <==> !(a != base && IsFree(l, l.blocks[a].prev)))
      && (p == a ==> l1 == SetAlloc(l, a, false))
      && (p != a ==> l1.blocks[p].size >= 32)
  {
    hide Coalesced, Aligned, LeftOf;
    assert BlockOk(l, base, a);
    var p := l.blocks[a].prev;
    if a != base && IsFree(l, p) {
      assert p in l.free && Linkable(l, p);
    }
  }

  lemma MergedRightSize(l: Layout, base: int, a: int)
    requires Invariant(l, base, {a}) && IsFree(l, a)
    ensures var r := MergeRight(l, a);
      && a in r.blocks
      && (r.blocks[a].size >= 32 <==> l.blocks[a].size >= 32 || (a != l.last && IsFree(l, a + l.blocks[a].size)))
  {
    hide Coalesced, Aligned, LeftOf;
    assert BlockOk(l, base, a);
    var q := a + l.blocks[a].size;
    if a != l.last && IsFree(l, q) {
      assert q in l.free && Linkable(l, q);
    }
  }

  /** The block that freeing `a` puts on the list. */
  lemma MergedSize(l: Layout, base: int, a: int)
    requires Invariant(l, base, {}) && a in l.blocks && l.blocks[a].alloc
    ensures var (l1, p) := MergeLeft(l, base, a);
      p in MergeRight(l1, p).blocks && (MergeRight(l1, p).blocks[p].size >= 32 <==> CanFree(l, base, a))
  {
    MergeLeftInvariant(l, base, a);
    MergedLeftSize(l, base, a);
    hide Invariant, MergeLeft, MergeRight;
    var (l1, p) := MergeLeft(l, base, a);
    MergedRightSize(l1, base, p);
  }

  /** mm_free keeps the invariant, two-sided coalescing leaving no adjacent free blocks, exactly
      when the block has room for links or a free neighbour. */
  lemma FreeInvariant(l: Layout, base: int, a: int)
    requires Invariant(l, base, {}) && a in l.blocks && l.blocks[a].alloc
    ensures Invariant(Free(l, base, a), base, {}) <==> CanFree(l, base, a)
  {
    hide MergeLeft, MergeRight;
    MergeLeftInvariant(l, base, a);
    var (l1, p) := MergeLeft(l, base, a);
    MergeRightInvariant(l1, base, p);
    MergedSize(l, base, a);
    PendingCoalesced(MergeRight(l1, p), base, p);
    if CanFree(l, base, a) {
      PushInvariant(MergeRight(l1, p), base, p);
    } else {
      var f := Free(l, base, a);
      assert f.free[0] == p && !Linkable(f, p);
    }
  }

  // ----- What the other blocks see -----

  /** Every block allocated in `l` (except `freed`) is still there in `l'`, same size. */
  ghost predicate KeepsLive(l: Layout, l': Layout, freed: set<int>)
  {
    forall b :: b in l.blocks && l.blocks[b].alloc && b !in freed ==>
      b in l'.blocks && l'.blocks[b].alloc && l'.blocks[b].size == l.blocks[b].size
  }

  lemma SplitKeepsLive(l: Layout, a: int, n: int)
    requires a in l.free && IsFree(l, a) && a + n !in l.blocks && n != 0
    ensures KeepsLive(l, Push(Split(Unlist(l, a), a, n), a + n), {})
  {
  }

  lemma TakeKeepsLive(l: Layout, base: int, a: int, n: int)
    requires Invariant(l, base, {}) && a in l.free && IsFree(l, a)
    requires 16 <= n <= l.blocks[a].size && n % 16 == 0
    ensures KeepsLive(l, Take(l, a, n), {})
  {
    hide Invariant, Split, Push;
    assert RoundUp(n + 24, 16) == n + 32;
    if l.blocks[a].size >= n + 32 {
      TakeSplit(l, base, a, n);
      SplitKeepsLive(l, a, n);
    }
  }

  lemma ExtendKeepsLive(l: Layout, n: int)
    requires l.brk !in l.blocks
    ensures KeepsLive(l, Extend(l, n), {})
  {
  }

  /** mm_malloc moves and resizes no allocated block. */
  lemma MallocKeepsLive(l: Layout, base: int, request: nat, limit: int)
    requires Invariant(l, base, {})
    ensures KeepsLive(l, Malloc(l, request, limit).0, {})
  {
    var n := BlockSize(request);
    BlockSizeOk(request);
    var k := FirstFit(l, n, 0);
    if k < |l.free| {
      assert Linkable(l, l.free[k]);
      hide Invariant, Take, KeepsLive, BlockSize, Extend;
      TakeKeepsLive(l, base, l.free[k], n);
    } else if l.brk + n <= limit {
      hide Invariant, Take, KeepsLive, BlockSize, Extend;
      ExtendInvariant(l, base, n);
      ExtendKeepsLive(l, n);
    } else {
      hide Invariant, Take, BlockSize, Extend;
    }
  }

  lemma JoinKeepsLive(l: Layout, p: int, q: int)
    requires IsFree(l, p) && q in l.blocks
    ensures KeepsLive(l, Join(l, p, q), {q}) && IsFree(Join(l, p, q), p)
    ensures p != q ==> q !in Join(l, p, q).blocks
  {
  }

  /** mm_free changes no other allocated block. */
  lemma FreeKeepsLive(l: Layout, base: int, a: int)
    requires Invariant(l, base, {}) && a in l.blocks && l.blocks[a].alloc
    ensures KeepsLive(l, Free(l, base, a), {a})
    ensures a !in Free(l, base, a).blocks || !Free(l, base, a).blocks[a].alloc
  {
    hide Invariant, Join;
    MergeLeftInvariant(l, base, a);
    var (l1, p) := MergeLeft(l, base, a);
    if p != a {
      JoinKeepsLive(Unlist(l, p), p, a);
    }
    assert KeepsLive(l, l1, {a}) && IsFree(l1, p);
    MergeRightInvariant(l1, base, p);
    var q := p + l1.blocks[p].size;
    if p != l1.last && IsFree(l1, q) && q in l1.free {
      JoinKeepsLive(Unlist(l1, q), p, q);
      JoinKeys(Unlist(l1, q), p, q);
    }
    assert KeepsLive(l1, MergeRight(l1, p), {});
  }

  lemma JoinKeys(l: Layout, p: int, q: int)
    requires p in l.blocks && q in l.blocks
    ensures Join(l, p, q).blocks.Keys <= l.blocks.Keys + {p}
  {
  }

  /** The blocks met when walking from `a` by block sizes, as a heap checker would. */
  function Walk(l: Layout, a: int): seq<int>
    decreases l.brk - a
  {
    if a !in l.blocks || l.blocks[a].size <= 0 || l.brk <= a then [] else [a] + Walk(l, a + l.blocks[a].size)
  }

  /** A walk from any block meets exactly the blocks from there to the break, in order, and
      their sizes add up to the distance. */
  lemma {:induction false} WalkMeetsAll(l: Layout, base: int, a: int)
    requires Tiled(l, base) && (a in l.blocks || a == l.brk)
    ensures forall b :: b in Walk(l, a) <==> b in l.blocks && b >= a
    ensures Total(l, Walk(l, a)) == l.brk - a
    decreases l.brk - a
  {
    if a in l.blocks {
      assert BlockOk(l, base, a);
      var n := a + l.blocks[a].size;
      WalkMeetsAll(l, base, n);
      var w := Walk(l, a);
      assert w == [a] + Walk(l, n) && w[0] == a && w[1..] == Walk(l, n);
      forall b | b in l.blocks && b >= a ensures b in w {
        if b != a {
          assert LeftOf(l, a, b);
          assert b in Walk(l, n);
        }
      }
      forall b | b in w ensures b in l.blocks && b >= a {
        assert b == a || b in Walk(l, n);
      }
    } else {
      forall b | b in l.blocks && b >= a ensures false {
        Bounds(l, base, b);
      }
    }
  }

  function Total(l: Layout, s: seq<int>): int
  {
    if s == [] then 0 else (if s[0] in l.blocks then l.blocks[s[0]].size else 0) + Total(l, s[1..])
  }

  /** Adjacent free blocks starting at `a`, and how many bytes they make together. */
  function FreeRun(l: Layout, a: int): int
    decreases l.brk - a
  {
    if !IsFree(l, a) || l.blocks[a].size <= 0 || l.brk <= a then 0
    else l.blocks[a].size + FreeRun(l, a + l.blocks[a].size)
  }

  /** The heap grows (or runs out) only when no run of adjacent free blocks, however many,
      holds the request. */
  lemma GrowsOnlyWhenNothingFits(l: Layout, base: int, request: nat, limit: int, a: int)
    requires Invariant(l, base, {})
    requires Malloc(l, request, limit).0.brk != l.brk || Malloc(l, request, limit).1 == 0
    ensures FreeRun(l, a) < BlockSize(request)
  {
    var n := BlockSize(request);
    BlockSizeOk(request);
    var k := FirstFit(l, n, 0);
    if k < |l.free| {
      var b := l.free[k];
      assert IsFree(l, b);
      Bounds(l, base, b);
      assert false;
    }
    if IsFree(l, a) {
      assert a in l.free;
      var i :| 0 <= i < |l.free| && l.free[i] == a;
      assert l.blocks[a].size < n;
      assert !NextFree(l, a);
      assert FreeRun(l, a + l.blocks[a].size) == 0;
    }
  }

  /** Live payloads are 16-byte aligned, inside the heap, and disjoint. */
  lemma PayloadsApart(l: Layout, base: int, a: int, b: int)
    requires Invariant(l, base, {}) && a in l.blocks && b in l.blocks && a != b
    ensures (a + 8) % 16 == 0
    ensures base < a + 8 <= a + l.blocks[a].size - 8 < l.brk
    ensures a + l.blocks[a].size - 8 < b + 8 || b + l.blocks[b].size - 8 < a + 8
  {
    assert AlignedAt(l, a);
    Bounds(l, base, a);
    Bounds(l, base, b);
    Apart(l, base, a, b);
  }

  // ----- Whole runs -----

  datatype Op = MallocOp(request: nat) | FreeOp(block: int) | ReallocOp(block: int, request: nat)

  /** A call the allocator's user may make: live blocks only, and a reallocation only while memory
      lasts (mm_realloc copies through a null result). */
  predicate Callable(l: Layout, limit: int, op: Op)
  {
    match op
    case MallocOp(_) => true
    case FreeOp(a) => a in l.blocks && l.blocks[a].alloc
    case ReallocOp(a, n) => a in l.blocks && l.blocks[a].alloc && (n >= 1 ==> Malloc(l, n, limit).1 != 0)
  }

  /** The layout in which the call frees its block, if it frees one. */
  function Freeing(l: Layout, limit: int, op: Op): Layout
    requires Callable(l, limit, op)
  {
    if op.ReallocOp? && op.request >= 1 then Malloc(l, op.request, limit).0 else l
  }

  function Apply(l: Layout, base: int, limit: int, op: Op): Layout
    requires Callable(l, limit, op)
  {
    if op.MallocOp? then Malloc(l, op.request, limit).0
    else
      var l1 := Freeing(l, limit, op);
      if op.block in l1.blocks then Free(l1, base, op.block) else l1
  }

  /** The call frees nothing, or a block with room for links or a free neighbour. */
  predicate FreesWell(l: Layout, base: int, limit: int, op: Op)
    requires Callable(l, limit, op)
  {
    op.MallocOp? || (op.block in Freeing(l, limit, op).blocks ==> CanFree(Freeing(l, limit, op), base, op.block))
  }

  /** The layouts a run can pass through. */
  ghost predicate IsRun(run: seq<Layout>, ops: seq<Op>, base: int, limit: int)
  {
    && |run| == |ops| + 1
    && run[0] == Layout(map[], [], base, 0)
    && forall i :: 0 <= i < |ops| ==> Callable(run[i], limit, ops[i]) && run[i + 1] == Apply(run[i], base, limit, ops[i])
  }

  /** One call keeps the invariant exactly when it frees nothing that it should not. */
  lemma ApplyInvariant(l: Layout, base: int, limit: int, op: Op)
    requires Invariant(l, base, {}) && Callable(l, limit, op)
    ensures Invariant(Apply(l, base, limit, op), base, {}) <==> FreesWell(l, base, limit, op)
  {
    hide Invariant, CanFree, Malloc, Free, KeepsLive;
    match op
    case MallocOp(n) => MallocInvariant(l, base, n, limit);
    case FreeOp(a) => FreeInvariant(l, base, a);
    case ReallocOp(a, n) =>
      MallocInvariant(l, base, n, limit);
      MallocKeepsLive(l, base, n, limit);
      LiveStays(l, Malloc(l, n, limit).0, a);
      FreeInvariant(Freeing(l, limit, op), base, a);
  }

  lemma LiveStays(l: Layout, l': Layout, a: int)
    requires KeepsLive(l, l', {}) && a in l.blocks && l.blocks[a].alloc
    ensures a in l'.blocks && l'.blocks[a].alloc && l'.blocks[a].size == l.blocks[a].size
  {
  }

  /** After any sequence of calls that free well the whole invariant holds. */
  lemma {:induction false} RunInvariant(run: seq<Layout>, ops: seq<Op>, base: int, limit: int, i: nat)
    requires IsRun(run, ops, base, limit) && base > 0 && base % 16 == 8 && i < |run|
    requires forall j :: 0 <= j < i ==> FreesWell(run[j], base, limit, ops[j])
    ensures Invariant(run[i], base, {})
  {
    hide FreesWell, Apply;
    if i > 0 {
      RunInvariant(run, ops, base, limit, i - 1);
      assert run[i - 1 + 1] == Apply(run[i - 1], base, limit, ops[i - 1]);
      assert FreesWell(run[i - 1], base, limit, ops[i - 1]);
      ApplyInvariant(run[i - 1], base, limit, ops[i - 1]);
    }
  }

  /** And no other sequence keeps it: the invariant holds all along a run exactly when every call
      of the run frees well. */
  lemma RunInvariantIff(run: seq<Layout>, ops: seq<Op>, base: int, limit: int)
    requires IsRun(run, ops, base, limit) && base > 0 && base % 16 == 8
    ensures (forall i :: 0 <= i < |run| ==> Invariant(run[i], base, {})) <==>
      (forall i :: 0 <= i < |ops| ==> FreesWell(run[i], base, limit, ops[i]))
  {
    hide Invariant, FreesWell, Apply;
    if forall i :: 0 <= i < |run| ==> Invariant(run[i], base, {}) {
      forall i | 0 <= i < |ops| ensures FreesWell(run[i], base, limit, ops[i]) {
        assert run[i + 1] == Apply(run[i], base, limit, ops[i]) && Invariant(run[i + 1], base, {});
        ApplyInvariant(run[i], base, limit, ops[i]);
      }
    } else if forall i :: 0 <= i < |ops| ==> FreesWell(run[i], base, limit, ops[i]) {
      forall i | 0 <= i < |run| ensures Invariant(run[i], base, {}) {
        RunInvariant(run, ops, base, limit, i);
      }
    }
  }

  // ----- Runs without requests of zero bytes -----

  /** Every block has room for two tags and two links. */
  ghost predicate Large(l: Layout)
  {
    forall a {:trigger a in l.blocks} :: a in l.blocks ==> l.blocks[a].size >= 32
  }

  lemma TakeLarge(l: Layout, a: int, n: int)
    requires Large(l) && a in l.free && a in l.blocks && n >= 32 && n % 16 == 0
    ensures Large(Take(l, a, n))
  {
    assert RoundUp(n + 24, 16) == n + 32;
  }

  lemma JoinLarge(l: Layout, p: int, q: int)
    requires Large(l) && p in l.blocks && q in l.blocks
    ensures Large(Join(l, p, q))
  {
  }

  lemma MallocLarge(l: Layout, request: nat, limit: int)
    requires Large(l) && request >= 1
    ensures Large(Malloc(l, request, limit).0)
  {
    hide Take;
    BlockSizeOk(request);
    var n := BlockSize(request);
    var k := FirstFit(l, n, 0);
    if k < |l.free| {
      TakeLarge(l, l.free[k], n);
    }
  }

  lemma FreeLarge(l: Layout, base: int, a: int)
    requires Large(l) && a in l.blocks
    ensures Large(Free(l, base, a)) && CanFree(l, base, a)
  {
    hide Join;
    var p := l.blocks[a].prev;
    if a != base && IsFree(l, p) && p in l.free {
      JoinLarge(Unlist(l, p), p, a);
      JoinShape(Unlist(l, p), p, a);
    }
    var (l1, b) := MergeLeft(l, base, a);
    assert Large(l1) && b in l1.blocks;
    var q := b + l1.blocks[b].size;
    if b != l1.last && IsFree(l1, q) && q in l1.free {
      JoinLarge(Unlist(l1, q), b, q);
      JoinShape(Unlist(l1, q), b, q);
    }
    assert Large(MergeRight(l1, b));
  }

  lemma JoinShape(l: Layout, p: int, q: int)
    requires p in l.blocks && q in l.blocks
    ensures p in Join(l, p, q).blocks
  {
  }

  /** The request that the call makes, if any, is of at least one byte. */
  predicate AsksForBytes(op: Op)
  {
    op.MallocOp? ==> op.request >= 1
  }

  /** The run theorem: after any sequence of mallocs of at least one byte, frees of live blocks and
      reallocations, the whole invariant holds and every block has at least 32 bytes. */
  lemma {:induction false} RunOfBytes(run: seq<Layout>, ops: seq<Op>, base: int, limit: int, i: nat)
    requires IsRun(run, ops, base, limit) && base > 0 && base % 16 == 8 && i < |run|
    requires forall j :: 0 <= j < |ops| ==> AsksForBytes(ops[j])
    ensures Invariant(run[i], base, {}) && Large(run[i])
  {
    hide Apply, FreesWell;
    if i > 0 {
      RunOfBytes(run, ops, base, limit, i - 1);
      hide Invariant, Large;
      assert run[i - 1 + 1] == Apply(run[i - 1], base, limit, ops[i - 1]);
      LargeStep(run[i - 1], base, limit, ops[i - 1]);
      ApplyInvariant(run[i - 1], base, limit, ops[i - 1]);
    }
  }

  /** In such a layout every call that asks for bytes frees well and keeps the blocks large. */
  lemma LargeStep(l: Layout, base: int, limit: int, op: Op)
    requires Large(l) && Callable(l, limit, op) && AsksForBytes(op)
    ensures FreesWell(l, base, limit, op) && Large(Apply(l, base, limit, op))
  {
    hide Large, CanFree, Malloc, Free;
    if op.MallocOp? {
      MallocLarge(l, op.request, limit);
    } else {
      if op.ReallocOp? && op.request >= 1 {
        MallocLarge(l, op.request, limit);
      }
      var l1 := Freeing(l, limit, op);
      if op.block in l1.blocks {
        FreeLarge(l1, base, op.block);
      }
    }
  }
}
