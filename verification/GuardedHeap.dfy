/** The heap that guards each allocation with inaccessible pages and finds invalid frees and
    leaks. Pages are numbered from the start of the heap. */
module GuardedHeap {
  import opened Words

  const PAGE_SIZE: nat := 4096
  const START: nat := 0x1_0000_0000
  const MAX_HEAP_SIZE: nat := 0x4000_0000
  const MAX_PAGES: nat := MAX_HEAP_SIZE / PAGE_SIZE
  const HEADER_MAGIC: nat := 0x0123_4567_89AB_CDEF

  /** The first bytes of a page, read as a header. Pages that were never written read as zeros. */
  datatype Head = Head(magic: nat, size: nat, used: bool)

  /** An allocation, live or freed: its header page and the requested size. */
  datatype Chunk = Chunk(page: nat, size: nat, live: bool)

  function PagesRoundUp(size: nat): nat
  {
    (size + PAGE_SIZE - 1) / PAGE_SIZE
  }

  function EndOf(page: nat, size: nat): nat
  {
    page + 1 + PagesRoundUp(size)
  }

  /** The payload ends where its last page ends. */
  function Payload(page: nat, size: nat): int
  {
    START + page * PAGE_SIZE + PAGE_SIZE + PagesRoundUp(size) * PAGE_SIZE - size
  }

  lemma PayloadPage(page: nat, size: nat)
    ensures Payload(page, size) >= START + PAGE_SIZE && (Payload(page, size) - START) / PAGE_SIZE == page + 1
    ensures Payload(page, size) + size == START + EndOf(page, size) * PAGE_SIZE
  {
    var k := PagesRoundUp(size);
    assert 0 <= k * PAGE_SIZE - size < PAGE_SIZE;
    assert (Payload(page, size) - START) == (page + 1) * PAGE_SIZE + (k * PAGE_SIZE - size);
  }

  // ----- Layout -----

  /** The chunks lie one after the other from page 0 to the current page. */
  predicate Tiled(chunks: seq<Chunk>, current: nat)
  {
    && (forall i {:trigger StartOf(chunks, i)} :: 0 <= i < |chunks| ==> chunks[i].page == StartOf(chunks, i))
    && current == StartOf(chunks, |chunks|)
  }

  /** Where the first i chunks end. */
  function StartOf(chunks: seq<Chunk>, i: nat): nat
    requires i <= |chunks|
  {
    if i == 0 then 0 else EndOf(chunks[i - 1].page, chunks[i - 1].size)
  }

  function HeadAt(heads: map<nat, Head>, page: nat): Head
  {
    if page in heads then heads[page] else Head(0, 0, false)
  }

  predicate HeadersRight(chunks: seq<Chunk>, heads: map<nat, Head>)
  {
    forall i :: 0 <= i < |chunks| ==> HeadAt(heads, chunks[i].page) == Head(HEADER_MAGIC, chunks[i].size, chunks[i].live)
  }

  predicate InPayload(c: Chunk, page: nat)
  {
    c.page < page < EndOf(c.page, c.size)
  }

  predicate LivePage(chunks: seq<Chunk>, page: nat)
  {
    exists i :: 0 <= i < |chunks| && chunks[i].live && InPayload(chunks[i], page)
  }

  ghost predicate Unused(heads: map<nat, Head>, current: nat)
  {
    forall p: nat :: p >= current ==> HeadAt(heads, p) == Head(0, 0, false)
  }

  /** A page is accessible exactly when it holds live payload. */
  ghost predicate AccessRight(chunks: seq<Chunk>, access: set<nat>)
  {
    forall p: nat :: p in access <==> LivePage(chunks, p)
  }

  ghost predicate Layout(chunks: seq<Chunk>, heads: map<nat, Head>, access: set<nat>, current: nat)
  {
    Tiled(chunks, current) && HeadersRight(chunks, heads) && AccessRight(chunks, access) && Unused(heads, current)
  }

  lemma {:induction false} ChunksApart(chunks: seq<Chunk>, current: nat, i: nat, j: nat)
    requires Tiled(chunks, current) && i < j < |chunks|
    ensures EndOf(chunks[i].page, chunks[i].size) <= chunks[j].page
    decreases j
  {
    assert chunks[j].page == StartOf(chunks, j);
    if i < j - 1 {
      ChunksApart(chunks, current, i, j - 1);
    }
  }

  lemma ChunkBelow(chunks: seq<Chunk>, current: nat, i: nat)
    requires Tiled(chunks, current) && i < |chunks|
    ensures EndOf(chunks[i].page, chunks[i].size) <= current
  {
    if i < |chunks| - 1 {
      ChunksApart(chunks, current, i, |chunks| - 1);
    }
  }

  /** Every page below the current page belongs to one chunk, as its header or its payload. */
  lemma {:induction false} PageOwner(chunks: seq<Chunk>, current: nat, page: nat) returns (i: nat)
    requires Tiled(chunks, current) && page < current
    ensures i < |chunks| && chunks[i].page <= page < EndOf(chunks[i].page, chunks[i].size)
  {
    i := |chunks| - 1;
    while chunks[i].page > page
      invariant 0 <= i < |chunks| && page < EndOf(chunks[i].page, chunks[i].size)
      decreases i
    {
      assert chunks[i].page == StartOf(chunks, i);
      i := i - 1;
    }
  }

  /** The byte after a live payload is not accessible, and neither is any header. */
  lemma GuardsInaccessible(chunks: seq<Chunk>, heads: map<nat, Head>, access: set<nat>, current: nat, i: nat)
    requires Layout(chunks, heads, access, current) && i < |chunks|
    ensures chunks[i].page !in access
    ensures (Payload(chunks[i].page, chunks[i].size) + chunks[i].size - START) / PAGE_SIZE !in access
  {
    var c := chunks[i];
    PayloadPage(c.page, c.size);
    var after := EndOf(c.page, c.size);
    assert (Payload(c.page, c.size) + c.size - START) / PAGE_SIZE == after;
    forall j | 0 <= j < |chunks| ensures !InPayload(chunks[j], c.page) && !InPayload(chunks[j], after) {
      if i < j {
        ChunksApart(chunks, current, i, j);
      } else if j < i {
        ChunksApart(chunks, current, j, i);
      }
    }
  }

  // ----- Free -----

  datatype Verdict = Nothing | Freed | DoubleFree(size: nat) | InvalidFree | HeapAccess | SegFault

  /** The page that free takes for the header of a pointer. */
  function HeaderPage(ptr: int): int
  {
    (ptr - START) / PAGE_SIZE - 1
  }

  /** The test of free: its upper bound is 4096 heap sizes above the start. */
  predicate OutOfRange(ptr: int)
  {
    ptr < START + PAGE_SIZE || ptr > START + MAX_HEAP_SIZE * PAGE_SIZE
  }

  /** How the signal handler reports that a page past the heap was read. */
  function ReadFault(current: nat, page: nat): Verdict
  {
    if page <= current then HeapAccess else SegFault
  }

  /** What free concludes from the bytes that it finds, or the signal handler if it finds none. */
  function Judge(heads: map<nat, Head>, current: nat, ptr: int): Verdict
  {
    if ptr == 0 then Nothing
    else if OutOfRange(ptr) then InvalidFree
    else if HeaderPage(ptr) >= MAX_PAGES then ReadFault(current, HeaderPage(ptr))
    else
      var h := HeadAt(heads, HeaderPage(ptr));
      if h.magic != HEADER_MAGIC || Payload(HeaderPage(ptr), h.size) != ptr then InvalidFree
      else if h.used then Freed else DoubleFree(h.size)
  }

  predicate IsPayload(c: Chunk, ptr: int)
  {
    Payload(c.page, c.size) == ptr
  }

  /** What the chunks say about a pointer: whatever is no payload is an invalid free. */
  ghost predicate Right(chunks: seq<Chunk>, ptr: int, v: Verdict)
  {
    if ptr == 0 then v == Nothing
    else if exists i :: 0 <= i < |chunks| && IsPayload(chunks[i], ptr) then
      exists i :: 0 <= i < |chunks| && IsPayload(chunks[i], ptr) && v == if chunks[i].live then Freed else DoubleFree(chunks[i].size)
    else v == InvalidFree
  }

  /** A payload page that begins with bytes like those of a header for this very pointer. */
  ghost predicate Imitated(chunks: seq<Chunk>, heads: map<nat, Head>, ptr: int)
  {
    !OutOfRange(ptr) && HeaderPage(ptr) < MAX_PAGES &&
    var p := HeaderPage(ptr);
    && (forall i :: 0 <= i < |chunks| ==> chunks[i].page != p)
    && HeadAt(heads, p).magic == HEADER_MAGIC && Payload(p, HeadAt(heads, p).size) == ptr
  }

  /** The pointer passes the range test, but what free takes for its header is past the heap. */
  predicate PastHeap(ptr: int)
  {
    ptr != 0 && !OutOfRange(ptr) && HeaderPage(ptr) >= MAX_PAGES
  }

  /** Free tells live, freed and invalid pointers apart, exactly unless payload bytes imitate a
      header or the pointer is past the heap but below the wrong bound. */
  lemma JudgeRightIff(chunks: seq<Chunk>, heads: map<nat, Head>, access: set<nat>, current: nat, ptr: int)
    requires Layout(chunks, heads, access, current) && current <= MAX_PAGES
    ensures Right(chunks, ptr, Judge(heads, current, ptr)) <==> !Imitated(chunks, heads, ptr) && !PastHeap(ptr)
  {
    forall i | 0 <= i < |chunks| && IsPayload(chunks[i], ptr)
      ensures !OutOfRange(ptr) && HeaderPage(ptr) == chunks[i].page && chunks[i].page < MAX_PAGES
    {
      PayloadPage(chunks[i].page, chunks[i].size);
      ChunkBelow(chunks, current, i);
      PayloadInRange(chunks[i].page, chunks[i].size, current);
    }
    forall i, j | 0 <= i < j < |chunks| ensures chunks[i].page != chunks[j].page {
      ChunksApart(chunks, current, i, j);
    }
    if i :| 0 <= i < |chunks| && IsPayload(chunks[i], ptr) {
      assert Judge(heads, current, ptr) == if chunks[i].live then Freed else DoubleFree(chunks[i].size);
    } else if i :| 0 <= i < |chunks| && !OutOfRange(ptr) && chunks[i].page == HeaderPage(ptr) {
      assert !IsPayload(chunks[i], ptr);
    }
  }

  /** One page past the end of the heap: no payload ever, but free dies of a segmentation fault
      instead of reporting an invalid free. */
  lemma PastHeapPointer(chunks: seq<Chunk>, heads: map<nat, Head>, access: set<nat>, current: nat)
    requires Layout(chunks, heads, access, current) && current < MAX_PAGES
    ensures
      var ptr := START + MAX_HEAP_SIZE + PAGE_SIZE;
      && PastHeap(ptr) && Judge(heads, current, ptr) == SegFault
      && Right(chunks, ptr, InvalidFree) && !Right(chunks, ptr, SegFault)
  {
    var ptr := START + MAX_HEAP_SIZE + PAGE_SIZE;
    assert HeaderPage(ptr) == MAX_PAGES;
    if i :| 0 <= i < |chunks| && IsPayload(chunks[i], ptr) {
      PayloadPage(chunks[i].page, chunks[i].size);
      ChunkBelow(chunks, current, i);
      assert false;
    }
  }

  lemma PayloadInRange(page: nat, size: nat, current: nat)
    requires EndOf(page, size) <= current <= MAX_PAGES
    ensures !OutOfRange(Payload(page, size))
  {
    PayloadPage(page, size);
  }

  // ----- The heap -----

  function PayloadPages(page: nat, size: nat): set<nat>
  {
    set p: nat | page < p < EndOf(page, size) && InPayload(Chunk(page, size, true), p)
  }

  class Heap {
    /** The first page that was never used. */
    var current: nat
    var heads: map<nat, Head>
    var access: set<nat>
    ghost var chunks: seq<Chunk>

    ghost predicate Valid()
      reads this
    {
      Layout(chunks, heads, access, current) && current <= MAX_PAGES
    }

    constructor ()
      ensures Valid() && chunks == [] && current == 0
    {
      current, heads, access, chunks := 0, map[], {}, [];
    }

    /** The header page is opened, written and closed again. */
    method SetHeader(page: nat, size: nat, used: bool)
      modifies this`heads, this`access
      ensures heads == old(heads)[page := Head(HEADER_MAGIC, size, used)] && access == old(access) - {page}
    {
      access := access + {page};
      heads := heads[page := Head(HEADER_MAGIC, size, used)];
      access := access - {page};
    }

    /** While the heap is not exhausted, allocate a chunk at the current page. */
    method Malloc(size: nat) returns (ptr: int)
      requires Valid() && EndOf(current, size) <= MAX_PAGES
      modifies this
      ensures Valid() && chunks == old(chunks) + [Chunk(old(current), size, true)] && ptr == Payload(old(current), size)
    {
      var pages := PagesRoundUp(size);
      access := access + PayloadPages(current, size);
      access := access + {current};
      var header := current;
      SetHeader(header, size, true);
      access := access - {current};
      current := current + 1 + pages;
      chunks := chunks + [Chunk(header, size, true)];
      MallocLayout(old(chunks), old(heads), old(access), header, size);
      assert access == (old(access) + PayloadPages(header, size)) - {header};
      return Payload(header, size);
    }

    /** Free, or report and close the whole heap. Unless payload bytes imitate a header, exactly the
        chunk of the pointer is freed. */
    method Free(ptr: int) returns (v: Verdict)
      requires Valid()
      modifies this
      ensures v == Judge(old(heads), old(current), ptr)
      ensures v == Nothing ==> Valid() && chunks == old(chunks)
      ensures v == SegFault ==> Valid() && unchanged(this)
      ensures v != Nothing && v != Freed && v != SegFault ==> access == {} && chunks == old(chunks)
      ensures v == Freed && Imitated(old(chunks), old(heads), ptr) ==> chunks == old(chunks)
      ensures v == Freed && !Imitated(old(chunks), old(heads), ptr) ==>
        Valid() && exists i :: 0 <= i < |old(chunks)| && IsPayload(old(chunks)[i], ptr) && old(chunks)[i].live
                               && chunks == old(chunks)[i := old(chunks)[i].(live := false)]
    {
      if ptr == 0 {
        return Nothing;
      }
      if ptr < START + PAGE_SIZE || ptr > START + MAX_HEAP_SIZE * PAGE_SIZE {
        access := {};
        return InvalidFree;
      }
      var header := (ptr - PAGE_SIZE - (ptr - START) % PAGE_SIZE - START) / PAGE_SIZE;
      assert header == HeaderPage(ptr);
      if header >= MAX_PAGES {
        if header > current {
          return SegFault;
        }
        access := {};
        return HeapAccess;
      }
      access := access + {header};
      var size := HeadAt(heads, header).size;
      if HeadAt(heads, header).magic != HEADER_MAGIC || Payload(header, size) != ptr {
        access := {};
        return InvalidFree;
      }
      if !HeadAt(heads, header).used {
        access := {};
        return DoubleFree(size);
      }
      SetHeader(header, size, false);
      access := access - {header};
      access := access - PayloadPages(header, size);
      assert access == old(access) - {header} - PayloadPages(header, size);
      if !Imitated(chunks, old(heads), ptr) {
        ghost var i := FreedChunk(chunks, old(heads), old(access), current, ptr);
        chunks := chunks[i := chunks[i].(live := false)];
        FreeLayout(old(chunks), old(heads), old(access), current, i);
      }
      return Freed;
    }

    /** Walk over the headers; report the lowest live chunk. The loop also reads the page after the
        last chunk: on a heap filled to its last page that read faults, and the signal handler reports
        an invalid heap access. */
    method CheckForLeaks() returns (leak: Option<(int, nat)>, fault: bool)
      requires Valid()
      ensures fault <==> current == MAX_PAGES && forall i :: 0 <= i < |chunks| ==> !chunks[i].live
      ensures fault ==> leak.None? && ReadFault(current, current) == HeapAccess
      ensures leak.None? ==> forall i :: 0 <= i < |chunks| ==> !chunks[i].live
      ensures leak.Some? ==>
        exists i :: 0 <= i < |chunks| && chunks[i].live && leak.value == (Payload(chunks[i].page, chunks[i].size), chunks[i].size)
                    && forall j :: 0 <= j < i ==> !chunks[j].live
    {
      var header, next := 0, 0;
      ghost var k := 0;
      while header < current
        invariant k <= |chunks| + 1 && forall j :: 0 <= j < k && j < |chunks| ==> !chunks[j].live
        invariant k == 0 ==> header == 0 && next == 0
        invariant 0 < k <= |chunks| ==> header == chunks[k - 1].page && next == EndOf(chunks[k - 1].page, chunks[k - 1].size)
        invariant 0 < k <= |chunks| ==> header < current
        invariant k == |chunks| + 1 ==> header == current < MAX_PAGES
        decreases |chunks| + 1 - k
      {
        header := next;
        assert header == StartOf(chunks, k);
        if k < |chunks| {
          ChunkBelow(chunks, current, k);
        }
        if header >= MAX_PAGES {
          return None, true;
        }
        var size := HeadAt(heads, header).size;
        if HeadAt(heads, header).used {
          return Some((Payload(header, size), size)), false;
        }
        next := header + 1 + PagesRoundUp(size);
        k := k + 1;
      }
      return None, false;
    }

    /** The program writes to a page that it may access. */
    method UserWrite(page: nat, head: Head)
      requires Valid() && page in access
      modifies this`heads
      ensures Valid() && heads == old(heads)[page := head]
    {
      WriteLayout(chunks, heads, access, current, page, head);
      heads := heads[page := head];
    }
  }

  /** An allocation of two pages whose first bytes are written like a header for its second page:
      free accepts the second page as an allocation of its own. */
  method ImitateHeader() returns (h: Heap, v: Verdict)
    ensures fresh(h) && v == Freed
    ensures h.chunks == [Chunk(0, 2 * PAGE_SIZE, true)] && !Right(h.chunks, START + 2 * PAGE_SIZE, v)
  {
    h := new Heap();
    var p := h.Malloc(2 * PAGE_SIZE);
    var chunk := Chunk(0, 2 * PAGE_SIZE, true);
    assert EndOf(0, 2 * PAGE_SIZE) == 3 && InPayload(h.chunks[0], 1);
    assert LivePage(h.chunks, 1);
    var fake := Head(HEADER_MAGIC, PAGE_SIZE, true);
    h.UserWrite(1, fake);
    var ptr := START + 2 * PAGE_SIZE;
    assert HeaderPage(ptr) == 1 && Payload(1, PAGE_SIZE) == ptr;
    assert HeadAt(h.heads, 1) == fake;
    assert Imitated(h.chunks, h.heads, ptr);
    assert !IsPayload(chunk, ptr);
    v := h.Free(ptr);
  }

  lemma WriteUnused(heads: map<nat, Head>, page: nat, head: Head, current: nat, current': nat)
    requires Unused(heads, current) && page < current' && current <= current'
    ensures Unused(heads[page := head], current')
  {
    var heads' := heads[page := head];
    forall p: nat | p >= current' ensures HeadAt(heads', p) == Head(0, 0, false) {
      assert HeadAt(heads, p) == Head(0, 0, false);
    }
  }

  lemma MallocLayout(chunks: seq<Chunk>, heads: map<nat, Head>, access: set<nat>, current: nat, size: nat)
    requires Layout(chunks, heads, access, current)
    ensures Layout(chunks + [Chunk(current, size, true)], heads[current := Head(HEADER_MAGIC, size, true)],
                   (access + PayloadPages(current, size)) - {current}, EndOf(current, size))
  {
    var chunks', access' := chunks + [Chunk(current, size, true)], (access + PayloadPages(current, size)) - {current};
    WriteUnused(heads, current, Head(HEADER_MAGIC, size, true), current, EndOf(current, size));
    assert forall j :: 0 <= j <= |chunks| ==> StartOf(chunks', j) == StartOf(chunks, j);
    forall i | 0 <= i < |chunks| ensures EndOf(chunks[i].page, chunks[i].size) <= current {
      ChunkBelow(chunks, current, i);
    }
    forall p: nat ensures p in access' <==> LivePage(chunks', p) {
      if p in access {
        var i :| 0 <= i < |chunks| && chunks[i].live && InPayload(chunks[i], p);
        assert chunks'[i] == chunks[i];
      } else if p in access' {
        assert InPayload(chunks'[|chunks|], p);
      } else if i :| 0 <= i < |chunks'| && chunks'[i].live && InPayload(chunks'[i], p) {
        assert false;
      }
    }
  }

  lemma FreedChunk(chunks: seq<Chunk>, heads: map<nat, Head>, access: set<nat>, current: nat, ptr: int) returns (i: nat)
    requires Layout(chunks, heads, access, current) && current <= MAX_PAGES
    requires Judge(heads, current, ptr) == Freed && !Imitated(chunks, heads, ptr)
    ensures i < |chunks| && IsPayload(chunks[i], ptr) && chunks[i].live && chunks[i].page == HeaderPage(ptr)
    ensures HeadAt(heads, HeaderPage(ptr)).size == chunks[i].size
  {
    i :| 0 <= i < |chunks| && chunks[i].page == HeaderPage(ptr);
  }

  lemma FreeLayout(chunks: seq<Chunk>, heads: map<nat, Head>, access: set<nat>, current: nat, i: nat)
    requires Layout(chunks, heads, access, current) && i < |chunks|
    ensures var c := chunks[i];
      Layout(chunks[i := c.(live := false)], heads[c.page := Head(HEADER_MAGIC, c.size, false)],
             access - {c.page} - PayloadPages(c.page, c.size), current)
  {
    var c := chunks[i];
    var chunks', access' := chunks[i := c.(live := false)], access - {c.page} - PayloadPages(c.page, c.size);
    ChunkBelow(chunks, current, i);
    WriteUnused(heads, c.page, Head(HEADER_MAGIC, c.size, false), current, current);
    assert forall j :: 0 <= j < |chunks| ==> chunks'[j].page == chunks[j].page && chunks'[j].size == chunks[j].size;
    assert forall j :: 0 <= j <= |chunks| ==> StartOf(chunks', j) == StartOf(chunks, j);
    forall j | 0 <= j < |chunks| && j != i
      ensures EndOf(chunks[j].page, chunks[j].size) <= c.page || EndOf(c.page, c.size) <= chunks[j].page
    {
      if i < j {
        ChunksApart(chunks, current, i, j);
      } else {
        ChunksApart(chunks, current, j, i);
      }
    }
    forall p: nat ensures p in access' <==> LivePage(chunks', p) {
      if p in access {
        var j :| 0 <= j < |chunks| && chunks[j].live && InPayload(chunks[j], p);
        assert j != i ==> chunks'[j] == chunks[j];
        assert p in access' <==> j != i;
      }
    }
  }

  lemma WriteLayout(chunks: seq<Chunk>, heads: map<nat, Head>, access: set<nat>, current: nat, page: nat, head: Head)
    requires Layout(chunks, heads, access, current) && page in access
    ensures Layout(chunks, heads[page := head], access, current)
  {
    var i :| 0 <= i < |chunks| && chunks[i].live && InPayload(chunks[i], page);
    ChunkBelow(chunks, current, i);
    WriteUnused(heads, page, head, current, current);
    forall j | 0 <= j < |chunks| ensures chunks[j].page != page {
      GuardsInaccessible(chunks, heads, access, current, j);
    }
  }
}
