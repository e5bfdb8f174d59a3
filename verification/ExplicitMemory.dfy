/** How the explicit-list allocator's layout is written into memory: a tag at both ends of
    every block and two link words in every listed block. */
module ExplicitMemory {
  import opened ByteMemory
  import opened BlockTags
  import opened ExplicitLayout

  predicate TagsAt(m: Memory, l: Layout, a: int)
    requires a in l.blocks
  {
    var b := l.blocks[a];
    b.size >= 0 && Load(m, a) == Tag(b.size, b.alloc) && Load(m, a + b.size - 8) == Tag(b.size, b.alloc)
  }

  /** Header equals footer equals size and state, for every block. */
  ghost predicate Tagged(m: Memory, l: Layout)
  {
    forall a {:trigger TagsAt(m, l, a)} :: a in l.blocks ==> TagsAt(m, l, a)
  }

  /** The i-th listed block: `next` always, `prev` except in the first block, whose prev word
      the allocator leaves as it finds it. */
  predicate LinkAt(m: Memory, s: seq<int>, i: nat)
    requires i < |s|
  {
    && Load(m, s[i] + 8) == (if i + 1 < |s| then s[i + 1] else 0)
    && (i > 0 ==> Load(m, s[i] + 16) == s[i - 1])
  }

  ghost predicate Linked(m: Memory, s: seq<int>)
  {
    forall i {:trigger LinkAt(m, s, i)} :: 0 <= i < |s| ==> LinkAt(m, s, i)
  }

  /** Listed blocks are at least 32 bytes apart, so their link words do not meet. */
  ghost predicate Spread(s: seq<int>)
  {
    forall i, j :: 0 <= i < j < |s| ==> s[i] + 32 <= s[j] || s[j] + 32 <= s[i]
  }

  function SetTags(m: Memory, a: int, size: nat, alloc: bool): Memory
  {
    Store(Store(m, a, Tag(size, alloc)), a + size - 8, Tag(size, alloc))
  }

  /** The bytes of every live payload are the same. */
  ghost predicate SameLive(m: Memory, m': Memory, l: Layout)
  {
    forall b, x {:trigger ByteAt(m', x), InPayload(l, b, x)} :: InPayload(l, b, x) ==> ByteAt(m', x) == ByteAt(m, x)
  }

  predicate InPayload(l: Layout, b: int, x: int)
  {
    b in l.blocks && l.blocks[b].alloc && b + 8 <= x < b + l.blocks[b].size - 8
  }

  lemma ListSpread(l: Layout, base: int, pending: set<int>)
    requires Tiled(l, base) && Listed(l, pending)
    ensures Spread(l.free)
  {
    forall i, j | 0 <= i < j < |l.free| ensures l.free[i] + 32 <= l.free[j] || l.free[j] + 32 <= l.free[i] {
      assert Linkable(l, l.free[i]) && Linkable(l, l.free[j]);
      Apart(l, base, l.free[i], l.free[j]);
      Bounds(l, base, l.free[i]);
      Bounds(l, base, l.free[j]);
    }
  }

  // ----- Writing tags -----

  lemma SetTagsTagged(m: Memory, l: Layout, base: int, a: int)
    requires Tiled(l, base) && a in l.blocks && l.blocks[a].size < TWO64 - 1
    requires forall c {:trigger TagsAt(m, l, c)} :: c in l.blocks && c != a ==> TagsAt(m, l, c)
    ensures l.blocks[a].size >= 16
    ensures Tagged(SetTags(m, a, l.blocks[a].size, l.blocks[a].alloc), l)
  {
    hide Load, Store;
    Laws();
    Bounds(l, base, a);
    var b := l.blocks[a];
    var m' := SetTags(m, a, b.size, b.alloc);
    forall c | c in l.blocks ensures TagsAt(m', l, c) {
      if c != a {
        assert TagsAt(m, l, c);
        Apart(l, base, a, c);
        Bounds(l, base, c);
      }
    }
  }

  /** Writing one block's tags leaves another block's tags alone. */
  lemma SetTagsAt(m: Memory, l: Layout, base: int, a: int, c: int)
    requires Tiled(l, base) && a in l.blocks && c in l.blocks && l.blocks[a].size < TWO64 - 1
    requires c != a ==> TagsAt(m, l, c)
    ensures l.blocks[a].size >= 16
    ensures TagsAt(SetTags(m, a, l.blocks[a].size, l.blocks[a].alloc), l, c)
  {
    hide Load, Store;
    Laws();
    Bounds(l, base, a);
    Bounds(l, base, c);
    if c != a {
      Apart(l, base, a, c);
    }
  }

  lemma SetTagsLinked(m: Memory, l: Layout, base: int, a: int, s: seq<int>)
    requires Tiled(l, base) && a in l.blocks && Linked(m, s)
    requires forall i :: 0 <= i < |s| ==> Linkable(l, s[i])
    ensures l.blocks[a].size >= 16
    ensures Linked(SetTags(m, a, l.blocks[a].size, l.blocks[a].alloc), s)
  {
    hide Load, Store;
    Laws();
    Bounds(l, base, a);
    var m' := SetTags(m, a, l.blocks[a].size, l.blocks[a].alloc);
    forall i | 0 <= i < |s| ensures LinkAt(m', s, i) {
      assert LinkAt(m, s, i);
      Bounds(l, base, s[i]);
      if s[i] != a {
        Apart(l, base, a, s[i]);
      }
    }
  }

  lemma SetTagsLive(m: Memory, l: Layout, base: int, a: int)
    requires Tiled(l, base) && a in l.blocks
    ensures l.blocks[a].size >= 16
    ensures SameLive(m, SetTags(m, a, l.blocks[a].size, l.blocks[a].alloc), l)
  {
    hide Load, Store;
    Laws();
    Bounds(l, base, a);
    var m' := SetTags(m, a, l.blocks[a].size, l.blocks[a].alloc);
    forall b, x | InPayload(l, b, x) ensures ByteAt(m', x) == ByteAt(m, x) {
      if b != a {
        Apart(l, base, a, b);
      }
    }
  }

  // ----- Writing links -----

  /** A word store into the link area of a free block harms no tag and no live payload. */
  lemma LinkWrite(m: Memory, l: Layout, base: int, c: int, w: int, v: nat)
    requires Tiled(l, base) && Linkable(l, c) && (w == c + 8 || w == c + 16)
    ensures Tagged(m, l) ==> Tagged(Store(m, w, v), l)
    ensures SameLive(m, Store(m, w, v), l)
  {
    hide Load, Store;
    Laws();
    Bounds(l, base, c);
    var m' := Store(m, w, v);
    if Tagged(m, l) {
      forall a | a in l.blocks ensures TagsAt(m', l, a) {
        assert TagsAt(m, l, a);
        Bounds(l, base, a);
        if a != c {
          Apart(l, base, a, c);
        }
      }
    }
    forall b, x | InPayload(l, b, x) ensures ByteAt(m', x) == ByteAt(m, x) {
      Apart(l, base, b, c);
    }
  }

  /** Links after a block was pushed in front of the list. */
  lemma PushLinked(m: Memory, s: seq<int>, a: int)
    requires Linked(m, s) && Spread([a] + s) && 0 < a < TWO64 && (s != [] ==> 0 < s[0] < TWO64)
    ensures s != [] ==> Linked(Store(Store(m, s[0] + 16, a), a + 8, s[0]), [a] + s)
    ensures s == [] ==> Linked(Store(Store(m, a + 16, 0), a + 8, 0), [a])
  {
    hide Load, Store;
    Laws();
    if s == [] {
      assert LinkAt(Store(Store(m, a + 16, 0), a + 8, 0), [a], 0);
    } else {
      var t := [a] + s;
      assert t[0] == a && t[1] == s[0];
      var m' := Store(Store(m, s[0] + 16, a), a + 8, s[0]);
      forall i | 0 <= i < |t| ensures LinkAt(m', t, i) {
        if i > 0 {
          assert t[i] == s[i - 1];
          assert LinkAt(m, s, i - 1);
          assert t[0] + 32 <= t[i] || t[i] + 32 <= t[0];
          if i > 1 {
            assert t[1] + 32 <= t[i] || t[i] + 32 <= t[1];
            assert t[i - 1] == s[i - 2];
          }
          assert i + 1 < |t| ==> t[i + 1] == s[i];
        }
      }
    }
  }

  /** Links after the first block left. */
  lemma UnlinkFirst(m: Memory, s: seq<int>)
    requires Linked(m, s) && Spread(s) && |s| >= 2
    ensures Linked(Store(m, s[1] + 16, 0), DropAt(s, 0))
  {
    hide Load, Store;
    var w := s[1] + 16;
    var m', t := Store(m, w, 0), DropAt(s, 0);
    assert t == s[1..];
    forall i | 0 <= i < |t| ensures LinkAt(m', t, i) {
      assert LinkAt(m, s, i + 1) && t[i] == s[i + 1];
      assert i > 0 ==> s[1] + 32 <= s[i + 1] || s[i + 1] + 32 <= s[1];
      OtherWord(m, w, 0, t[i] + 8);
      if i > 0 {
        OtherWord(m, w, 0, t[i] + 16);
        assert t[i - 1] == s[i];
      }
    }
  }

  lemma UnlinkLast(m: Memory, s: seq<int>)
    requires Linked(m, s) && Spread(s) && |s| >= 2
    ensures Linked(Store(m, s[|s| - 2] + 8, 0), DropAt(s, |s| - 1))
  {
    hide Load, Store;
    var k := |s| - 2;
    var w := s[k] + 8;
    var m', t := Store(m, w, 0), DropAt(s, k + 1);
    assert t == s[..k + 1];
    forall i | 0 <= i < |t| ensures LinkAt(m', t, i) {
      assert LinkAt(m, s, i) && t[i] == s[i];
      assert i < k ==> s[i] + 32 <= s[k] || s[k] + 32 <= s[i];
      OtherWord(m, w, 0, s[i] + 16);
      if i < k {
        OtherWord(m, w, 0, s[i] + 8);
      } else {
        StoredWord(m, w, 0);
      }
    }
  }

  lemma UnlinkMiddle(m: Memory, s: seq<int>, k: nat)
    requires Linked(m, s) && Spread(s) && 0 < k < |s| - 1
    requires 0 < s[k - 1] < TWO64 && 0 < s[k + 1] < TWO64
    ensures Linked(Store(Store(m, s[k + 1] + 16, s[k - 1]), s[k - 1] + 8, s[k + 1]), DropAt(s, k))
  {
    hide Load, Store;
    Laws();
    var p, n := s[k - 1], s[k + 1];
    var m', t := Store(Store(m, n + 16, p), p + 8, n), DropAt(s, k);
    forall i | 0 <= i < |t| ensures LinkAt(m', t, i) {
      var j := if i < k then i else i + 1;
      assert t[i] == s[j];
      assert LinkAt(m, s, j);
      assert j < k - 1 ==> s[j] + 32 <= p || p + 32 <= s[j];
      assert j > k - 1 ==> p + 32 <= s[j] || s[j] + 32 <= p;
      assert j < k + 1 ==> s[j] + 32 <= n || n + 32 <= s[j];
      assert j > k + 1 ==> n + 32 <= s[j] || s[j] + 32 <= n;
    }
  }

  lemma SameBlocksMemory(m: Memory, m': Memory, l: Layout, u: Layout)
    requires u.blocks == l.blocks
    ensures Tagged(m', l) ==> Tagged(m', u)
    ensures SameLive(m, m', l) ==> SameLive(m, m', u)
  {
    if Tagged(m', l) {
      forall a | a in u.blocks ensures TagsAt(m', u, a) {
        assert TagsAt(m', l, a);
      }
    }
    if SameLive(m, m', l) {
      forall b, x | InPayload(u, b, x) ensures ByteAt(m', x) == ByteAt(m, x) {
        assert InPayload(l, b, x);
      }
    }
  }

  // ----- Unlinking, as a whole -----

  function FirstOf(s: seq<int>): int
  {
    if s == [] then 0 else s[0]
  }

  function LastOf(s: seq<int>): int
  {
    if s == [] then 0 else s[|s| - 1]
  }

  /** What unlinking the k-th block should leave: its links, the tags, the payloads and the
      two list pointers. */
  ghost predicate Unlinked(m: Memory, m': Memory, l: Layout, k: nat, first: int, last: int)
    requires k < |l.free|
  {
    var t := DropAt(l.free, k);
    Linked(m', t) && Tagged(m', l) && SameLive(m, m', l) && first == FirstOf(t) && last == LastOf(t)
  }

  ghost predicate Represented(m: Memory, l: Layout, base: int, pending: set<int>)
  {
    Invariant(l, base, pending) && Tagged(m, l) && Linked(m, l.free) && l.brk < TWO64 - 1
  }

  lemma TagAt(m: Memory, l: Layout, base: int, pending: set<int>, a: int)
    requires Represented(m, l, base, pending) && a in l.blocks
    ensures SizeBits(Load(m, a)) == l.blocks[a].size && AllocBit(Load(m, a)) == l.blocks[a].alloc
    ensures Load(m, a + l.blocks[a].size - 8) == Load(m, a)
  {
    hide Load, Tiled, Listed, Coalesced, Linked, SizeBits, AllocBit, Tag;
    assert TagsAt(m, l, a) && AlignedAt(l, a);
    TagParts(l.blocks[a].size, l.blocks[a].alloc);
  }

  lemma ListedAt(m: Memory, l: Layout, base: int, pending: set<int>, k: nat)
    requires Represented(m, l, base, pending) && k < |l.free|
    ensures Linkable(l, l.free[k]) && 0 < l.free[k] < TWO64
    ensures Load(m, l.free[k] + 8) == (if k + 1 < |l.free| then l.free[k + 1] else 0)
    ensures k > 0 ==> Load(m, l.free[k] + 16) == l.free[k - 1]
  {
    hide Load;
    assert LinkAt(m, l.free, k);
    assert Linkable(l, l.free[k]);
    Bounds(l, base, l.free[k]);
  }

  lemma UnlinkOnly(m: Memory, l: Layout, base: int, pending: set<int>)
    requires Represented(m, l, base, pending) && |l.free| == 1
    ensures Unlinked(m, m, l, 0, 0, 0)
  {
    hide Load;
  }

  lemma UnlinkHead(m: Memory, l: Layout, base: int, pending: set<int>)
    requires Represented(m, l, base, pending) && |l.free| >= 2
    ensures Unlinked(m, Store(m, l.free[1] + 16, 0), l, 0, l.free[1], LastOf(l.free))
  {
    hide Load, Store, Tagged, SameLive, Coalesced, Aligned, Tiled, Listed, Linked;
    ListSpread(l, base, pending);
    UnlinkFirst(m, l.free);
    ListedAt(m, l, base, pending, 1);
    LinkWrite(m, l, base, l.free[1], l.free[1] + 16, 0);
  }

  lemma UnlinkTail(m: Memory, l: Layout, base: int, pending: set<int>)
    requires Represented(m, l, base, pending) && |l.free| >= 2
    ensures var s := l.free; var k := |s| - 1;
      Unlinked(m, Store(m, s[k - 1] + 8, 0), l, k, s[0], s[k - 1])
  {
    hide Load, Store, Tagged, SameLive, Coalesced, Aligned, Tiled, Listed, Linked;
    var k := |l.free| - 1;
    ListSpread(l, base, pending);
    UnlinkLast(m, l.free);
    ListedAt(m, l, base, pending, k - 1);
    LinkWrite(m, l, base, l.free[k - 1], l.free[k - 1] + 8, 0);
  }

  lemma UnlinkInside(m: Memory, l: Layout, base: int, pending: set<int>, k: nat)
    requires Represented(m, l, base, pending) && 0 < k < |l.free| - 1
    ensures var s := l.free;
      && s[k - 1] >= 0 && s[k + 1] >= 0
      && Unlinked(m, Store(Store(m, s[k + 1] + 16, s[k - 1]), s[k - 1] + 8, s[k + 1]), l, k, s[0], LastOf(s))
  {
    hide Load, Store, Tagged, SameLive, Coalesced, Aligned, Tiled, Listed, Linked, Linkable, Spread;
    ListSpread(l, base, pending);
    ListedAt(m, l, base, pending, k - 1);
    ListedAt(m, l, base, pending, k + 1);
    var p, n := l.free[k - 1], l.free[k + 1];
    UnlinkMiddle(m, l.free, k);
    var m1 := Store(m, n + 16, p);
    LinkWrite(m, l, base, n, n + 16, p);
    LinkWrite(m1, l, base, p, p + 8, n);
    SameLiveTrans(m, m1, Store(m1, p + 8, n), l);
  }

  lemma SameLiveTrans(m0: Memory, m1: Memory, m2: Memory, l: Layout)
    requires SameLive(m0, m1, l) && SameLive(m1, m2, l)
    ensures SameLive(m0, m2, l)
  {
    forall b, x | InPayload(l, b, x) ensures ByteAt(m2, x) == ByteAt(m0, x) {
      assert ByteAt(m2, x) == ByteAt(m1, x);
      assert ByteAt(m1, x) == ByteAt(m0, x);
    }
  }

  // ----- Retagging: from one layout to the next -----

  /** Blocks of l' other than `changed` are blocks of `l` with the same size and state. */
  ghost predicate SameBut(l: Layout, l': Layout, changed: set<int>)
  {
    forall c :: c in l'.blocks && c !in changed ==>
      c in l.blocks && l.blocks[c].size == l'.blocks[c].size && l.blocks[c].alloc == l'.blocks[c].alloc
  }

  lemma CoalescedMore(l: Layout, pending: set<int>)
    requires Coalesced(l, {})
    ensures Coalesced(l, pending)
  {
    forall c | IsFree(l, c) ensures !NextFree(l, c) {
    }
  }

  lemma SplitFields(l: Layout, base: int, a: int, n: int)
    requires Tiled(l, base) && a in l.blocks && 16 <= n <= l.blocks[a].size - 32
    ensures var s := Split(l, a, n);
      && SameBut(l, s, {a, a + n}) && s.free == l.free && s.brk == l.brk
      && a in s.blocks && s.blocks[a] == Block(n, true, l.blocks[a].prev)
      && a + n in s.blocks && s.blocks[a + n] == Block(l.blocks[a].size - n, false, a)
      && s.last == if a == l.last then a + n else l.last
  {
    SplitTiled(l, base, a, n);
  }

  lemma JoinFields(l: Layout, base: int, p: int, q: int)
    requires Tiled(l, base) && p in l.blocks && q in l.blocks && q == p + l.blocks[p].size
    ensures var j := Join(l, p, q);
      && SameBut(l, j, {p}) && j.free == l.free && j.brk == l.brk
      && p in j.blocks && j.blocks[p].size == l.blocks[p].size + l.blocks[q].size && !j.blocks[p].alloc
      && j.last == if q == l.last then p else l.last
  {
    assert BlockOk(l, base, p) && BlockOk(l, base, q);
  }

  lemma Neighbours(l: Layout, base: int, a: int)
    requires Tiled(l, base) && a in l.blocks
    ensures a != base ==> l.blocks[a].prev in l.blocks && l.blocks[a].prev + l.blocks[l.blocks[a].prev].size == a
    ensures a != l.last ==> a + l.blocks[a].size in l.blocks
    ensures l.brk != base
  {
    assert BlockOk(l, base, a);
  }

  lemma ListedIfFree(l: Layout, base: int, pending: set<int>, a: int)
    requires Invariant(l, base, pending) && IsFree(l, a) && a !in pending
    ensures a in l.free
  {
  }

  lemma ListedInside(l: Layout, base: int, pending: set<int>)
    requires Invariant(l, base, pending)
    ensures forall i :: 0 <= i < |l.free| ==> Linkable(l, l.free[i])
  {
    forall i | 0 <= i < |l.free| ensures Linkable(l, l.free[i]) {
    }
  }

  /** One block changed: writing its tags makes memory represent the new layout. */
  lemma Retag(m: Memory, l: Layout, l': Layout, base: int, pending: set<int>, a: int)
    requires Tagged(m, l) && Linked(m, l'.free) && SameBut(l, l', {a})
    requires Invariant(l', base, pending) && a in l'.blocks && l'.brk < TWO64 - 1
    ensures l'.blocks[a].size >= 16
    ensures var m' := SetTags(m, a, l'.blocks[a].size, l'.blocks[a].alloc);
      Represented(m', l', base, pending) && SameLive(m, m', l')
  {
    hide Load, Store, SetTags, Listed, Coalesced, Aligned, Linked, SameLive;
    Bounds(l', base, a);
    forall c | c in l'.blocks && c != a ensures TagsAt(m, l', c) {
      assert TagsAt(m, l, c);
    }
    SetTagsTagged(m, l', base, a);
    ListedInside(l', base, pending);
    SetTagsLinked(m, l', base, a, l'.free);
    SetTagsLive(m, l', base, a);
  }

  /** Two blocks changed, as in a split. */
  lemma RetagTwo(m: Memory, l: Layout, l': Layout, base: int, pending: set<int>, a: int, b: int)
    requires Tagged(m, l) && Linked(m, l'.free) && SameBut(l, l', {a, b}) && a != b
    requires Invariant(l', base, pending) && a in l'.blocks && b in l'.blocks && l'.brk < TWO64 - 1
    ensures l'.blocks[a].size >= 16 && l'.blocks[b].size >= 16
    ensures var m1 := SetTags(m, a, l'.blocks[a].size, l'.blocks[a].alloc);
      var m2 := SetTags(m1, b, l'.blocks[b].size, l'.blocks[b].alloc);
      Represented(m2, l', base, pending) && SameLive(m, m2, l')
  {
    hide Load, Store, SetTags, Listed, Coalesced, Aligned, Linked, SameLive;
    Bounds(l', base, a);
    Bounds(l', base, b);
    var m1 := SetTags(m, a, l'.blocks[a].size, l'.blocks[a].alloc);
    forall c | c in l'.blocks && c != b ensures TagsAt(m1, l', c) {
      if c != a {
        assert TagsAt(m, l, c);
        assert TagsAt(m, l', c);
      }
      SetTagsAt(m, l', base, a, c);
    }
    ListedInside(l', base, pending);
    SetTagsLinked(m, l', base, a, l'.free);
    SetTagsLive(m, l', base, a);
    SetTagsTagged(m1, l', base, b);
    SetTagsLinked(m1, l', base, b, l'.free);
    SetTagsLive(m1, l', base, b);
    SameLiveTrans(m, m1, SetTags(m1, b, l'.blocks[b].size, l'.blocks[b].alloc), l');
  }

  /** add_to_freelist: tags rewritten, then linked in front. */
  lemma PushRepresented(m: Memory, l: Layout, base: int, a: int)
    requires Represented(m, l, base, {a}) && Coalesced(l, {}) && Linkable(l, a)
    ensures a >= 0 && (l.free != [] ==> l.free[0] >= 0)
    ensures var m1 := SetTags(m, a, l.blocks[a].size, false);
      var m2 := if l.free == [] then Store(Store(m1, a + 16, 0), a + 8, 0)
                else Store(Store(m1, l.free[0] + 16, a), a + 8, l.free[0]);
      Represented(m2, Push(l, a), base, {}) && SameLive(m, m2, l)
  {
    hide Load, Store, SetTags, Aligned, SameLive, Tagged, Linked, Coalesced, Tiled, Listed;
    Bounds(l, base, a);
    Retag(m, l, l, base, {a}, a);
    var m1 := SetTags(m, a, l.blocks[a].size, false);
    PushInvariant(l, base, a);
    var p := Push(l, a);
    assert p.blocks == l.blocks;
    ListSpread(p, base, {});
    if l.free == [] {
      var half := Store(m1, a + 16, 0);
      var m2 := Store(half, a + 8, 0);
      assert [a] + l.free == [a];
      PushLinked(m1, l.free, a);
      LinkWrite(m1, l, base, a, a + 16, 0);
      LinkWrite(half, l, base, a, a + 8, 0);
      SameLiveTrans(m, m1, half, l);
      SameLiveTrans(m, half, m2, l);
      SameBlocksMemory(m, m2, l, p);
    } else {
      var f := l.free[0];
      ListedAt(m, l, base, {a}, 0);
      var half := Store(m1, f + 16, a);
      var m2 := Store(half, a + 8, f);
      PushLinked(m1, l.free, a);
      LinkWrite(m1, l, base, f, f + 16, a);
      LinkWrite(half, l, base, a, a + 8, f);
      SameLiveTrans(m, m1, half, l);
      SameLiveTrans(m, half, m2, l);
      SameBlocksMemory(m, m2, l, p);
    }
  }

  /** Writing inside a live payload disturbs neither tags nor links. */
  lemma PayloadWrite(m: Memory, m': Memory, l: Layout, base: int, a: int)
    requires Represented(m, l, base, {}) && a in l.blocks && l.blocks[a].alloc
    requires forall x :: !(a + 8 <= x < a + l.blocks[a].size - 8) ==> ByteAt(m', x) == ByteAt(m, x)
    ensures Represented(m', l, base, {})
  {
    hide Load, Listed, Coalesced, Aligned;
    forall c | c in l.blocks ensures TagsAt(m', l, c) {
      assert TagsAt(m, l, c);
      PayloadApart(l, base, a, c);
      SameWord(m, m', c);
      SameWord(m, m', c + l.blocks[c].size - 8);
    }
    forall i | 0 <= i < |l.free| ensures LinkAt(m', l.free, i) {
      ListedAt(m, l, base, {}, i);
      assert LinkAt(m, l.free, i);
      PayloadApart(l, base, a, l.free[i]);
      SameWord(m, m', l.free[i] + 8);
      SameWord(m, m', l.free[i] + 16);
    }
  }

  lemma PayloadApart(l: Layout, base: int, a: int, c: int)
    requires Tiled(l, base) && a in l.blocks && c in l.blocks
    ensures l.blocks[a].size >= 16 && l.blocks[c].size >= 16
    ensures c + 8 <= a + 8 || a + l.blocks[a].size - 8 <= c
    ensures c + l.blocks[c].size <= a + 8 || a + l.blocks[a].size - 8 <= c + l.blocks[c].size - 8
    ensures c != a && l.blocks[c].size >= 32 ==> c + 32 <= a + 8 || a + l.blocks[a].size - 8 <= c
  {
    Bounds(l, base, a);
    Bounds(l, base, c);
    if c != a {
      Apart(l, base, a, c);
    }
  }

  /** A block has room for its two tags and two link words exactly when at least one byte was
      requested. */
  lemma RoomForLinksIff(request: nat)
    ensures BlockSize(request) >= 32 <==> request >= 1
  {
    BlockSizeOk(request);
    assert request == 0 ==> BlockSize(request) == 16;
  }
}
