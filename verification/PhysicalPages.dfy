/** Physical memory with the kernel's page allocator. */
module PhysicalPages {
  import opened PageTable

  const PAGESIZE: Word := 0x1000
  const MEMSIZE_PHYSICAL: Word := 0x20_0000
  const KERNEL_START_ADDR: Word := 0x4_0000
  const KERNEL_STACK_TOP: Word := 0x8_0000
  const IOPHYSMEM: Word := 0xA_0000
  const EXTPHYSMEM: Word := 0x10_0000

  predicate Reserved(pa: Word)
  {
    pa < PAGESIZE || (pa >= IOPHYSMEM && pa < EXTPHYSMEM)
  }

  /** `kernelEnd` is the end of the kernel's code and data, rounded up to a page. */
  predicate Allocatable(pa: Word, kernelEnd: Word)
  {
    && !Reserved(pa)
    && (pa < KERNEL_START_ADDR || pa >= kernelEnd)
    && (pa < KERNEL_STACK_TOP - PAGESIZE || pa >= KERNEL_STACK_TOP)
    && pa < MEMSIZE_PHYSICAL
  }

  predicate Within(pa: Word, first: Word, end: Word)
  {
    first <= pa < end
  }

  /** The ranges that are not for processes: the first page, the memory of devices, the kernel's code
      and data, its stack page, and what is no physical memory. */
  predicate KeptBack(pa: Word, kernelEnd: Word)
  {
    || Within(pa, 0, 0x1000)
    || Within(pa, 0xA_0000, 0x10_0000)
    || Within(pa, 0x4_0000, kernelEnd)
    || Within(pa, 0x7_F000, 0x8_0000)
    || 0x20_0000 <= pa
  }

  /** The test of the allocator lets exactly the rest pass. */
  lemma AllocatableIff(pa: Word, kernelEnd: Word)
    ensures Allocatable(pa, kernelEnd) <==> !KeptBack(pa, kernelEnd)
  {
  }

  predicate Aligned(pa: Word)
  {
    pa & 0xFFF == 0
  }

  /** `pages` holds the pages whose reference count is not zero. */
  predicate IsFree(pages: set<Word>, kernelEnd: Word, pa: Word)
  {
    Aligned(pa) && Allocatable(pa, kernelEnd) && pa !in pages
  }

  /** Memory after the first n entries of page `p` were set to `e`. */
  function FillEntries(m: Memory, p: Word, e: Word, n: nat): Memory
    requires n <= 512
  {
    if n == 0 then m else FillEntries(m, p, e, n - 1)[Entry(p, (n - 1) as Word) := e]
  }

  lemma {:induction false} FillOutside(m: Memory, p: Word, e: Word, n: nat)
    requires n <= 512
    ensures SameOutside(m, FillEntries(m, p, e, n), p)
  {
    if n > 0 {
      FillOutside(m, p, e, n - 1);
      var m', w := FillEntries(m, p, e, n - 1), Entry(p, (n - 1) as Word);
      forall s: Slot | s.Entry? && s.table != p ensures Read(m'[w := e], s) == Read(m, s) {
        ReadOther(m', w, e, s);
      }
    }
  }

  /** Memory after page `p` was filled with zeros. */
  function ZeroPage(m: Memory, p: Word): Memory
  {
    map s | s in m && !(s.Entry? && s.table == p) :: m[s]
  }

  lemma ZeroOutside(m: Memory, p: Word)
    ensures SameOutside(m, ZeroPage(m, p), p)
    ensures forall i :: Read(ZeroPage(m, p), Entry(p, i)) == 0
  {
  }

  lemma FreeIsPage(pages: set<Word>, kernelEnd: Word, p: Word)
    requires IsFree(pages, kernelEnd, p)
    ensures PageAddress(p) && p != 0 && p < MEMSIZE_PHYSICAL
  {
    FreeBits(p);
  }

  lemma FreeBits(p: Word)
    requires p & 0xFFF == 0 && p < 0x20_0000
    ensures p & PTE_PAMASK == p
  {
  }

  lemma PastPage(pa: Word, q: Word)
    requires pa & 0xFFF == 0 && q & 0xFFF == 0 && pa < q && pa < 0x20_0000
    ensures pa + 0x1000 <= q
  {
  }

  lemma NextPage(pa: Word)
    requires pa & 0xFFF == 0 && pa < 0x20_0000
    ensures (pa + 0x1000) & 0xFFF == 0 && pa < pa + 0x1000 <= 0x20_0000
    ensures 0x20_0000 - (pa + 0x1000) < 0x20_0000 - pa
  {
  }

  // ----- Counting free pages -----

  /** How many pages from `pa` to the end of physical memory are free. */
  function FreeFrom(pages: set<Word>, kernelEnd: Word, pa: Word): nat
    requires Aligned(pa) && pa <= MEMSIZE_PHYSICAL
    decreases MEMSIZE_PHYSICAL - pa
  {
    if pa == MEMSIZE_PHYSICAL then 0
    else
      NextPage(pa);
      (if IsFree(pages, kernelEnd, pa) then 1 else 0) + FreeFrom(pages, kernelEnd, pa + PAGESIZE)
  }

  function FreeCount(pages: set<Word>, kernelEnd: Word): nat
  {
    FirstAligned();
    FreeFrom(pages, kernelEnd, 0)
  }

  lemma FirstAligned()
    ensures Aligned(0) && 0 <= MEMSIZE_PHYSICAL
  {
  }

  lemma CountStep(pages: set<Word>, kernelEnd: Word, pa: Word)
    requires Aligned(pa) && pa < MEMSIZE_PHYSICAL
    ensures Aligned(pa + PAGESIZE) && pa < pa + PAGESIZE <= MEMSIZE_PHYSICAL
    ensures MEMSIZE_PHYSICAL - (pa + PAGESIZE) < MEMSIZE_PHYSICAL - pa
    ensures FreeFrom(pages, kernelEnd, pa)
      == (if IsFree(pages, kernelEnd, pa) then 1 else 0) + FreeFrom(pages, kernelEnd, pa + PAGESIZE)
  {
    NextPage(pa);
    hide IsFree, Aligned;
  }

  /** 1 when `pa` is not above `q`. */
  function Upto(pa: Word, q: Word): nat
  {
    if pa <= q then 1 else 0
  }

  lemma StepBits(pa: Word, q: Word)
    requires pa & 0xFFF == 0 && q & 0xFFF == 0 && pa < 0x20_0000
    ensures pa == q ==> pa <= q && !(pa + 0x1000 <= q)
    ensures pa != q && pa <= q ==> pa + 0x1000 <= q
    ensures pa + 0x1000 <= q ==> pa <= q
  {
  }

  lemma UptoStep(pa: Word, q: Word)
    requires Aligned(pa) && Aligned(q) && pa < MEMSIZE_PHYSICAL
    ensures Upto(pa, q) == (if pa == q then 1 else 0) + Upto(pa + PAGESIZE, q)
  {
    StepBits(pa, q);
  }

  lemma TakeFree(pages: set<Word>, kernelEnd: Word, q: Word, pa: Word)
    requires IsFree(pages, kernelEnd, q)
    ensures Aligned(q) && (IsFree(pages + {q}, kernelEnd, pa) <==> IsFree(pages, kernelEnd, pa) && pa != q)
  {
    hide Allocatable, Aligned;
  }

  lemma AboveAll(pages: set<Word>, kernelEnd: Word, q: Word)
    requires IsFree(pages, kernelEnd, q)
    ensures Upto(MEMSIZE_PHYSICAL, q) == 0
  {
    FreeIsPage(pages, kernelEnd, q);
  }

  lemma {:induction false} TakeOneFrom(pages: set<Word>, kernelEnd: Word, q: Word, pa: Word)
    requires IsFree(pages, kernelEnd, q) && Aligned(pa) && pa <= MEMSIZE_PHYSICAL
    ensures FreeFrom(pages + {q}, kernelEnd, pa) == FreeFrom(pages, kernelEnd, pa) - Upto(pa, q)
    decreases MEMSIZE_PHYSICAL - pa
  {
    hide IsFree, Aligned, Upto;
    if pa == MEMSIZE_PHYSICAL {
      AboveAll(pages, kernelEnd, q);
    } else {
      hide FreeFrom;
      CountStep(pages, kernelEnd, pa);
      CountStep(pages + {q}, kernelEnd, pa);
      TakeFree(pages, kernelEnd, q, pa);
      UptoStep(pa, q);
      TakeOneFrom(pages, kernelEnd, q, pa + PAGESIZE);
    }
  }

  /** Taking a free page leaves one free page less. */
  lemma TakeOne(pages: set<Word>, kernelEnd: Word, q: Word)
    requires IsFree(pages, kernelEnd, q)
    ensures FreeCount(pages + {q}, kernelEnd) == FreeCount(pages, kernelEnd) - 1
  {
    hide FreeFrom, IsFree, Aligned;
    FirstAligned();
    ZeroLeast(q);
    TakeOneFrom(pages, kernelEnd, q, 0);
  }

  lemma ZeroLeast(p: Word)
    ensures 0 <= p
  {
  }

  lemma {:induction false} NoneFreeFrom(pages: set<Word>, kernelEnd: Word, pa: Word)
    requires (forall q :: !IsFree(pages, kernelEnd, q)) && Aligned(pa) && pa <= MEMSIZE_PHYSICAL
    ensures FreeFrom(pages, kernelEnd, pa) == 0
    decreases MEMSIZE_PHYSICAL - pa
  {
    hide IsFree, Aligned;
    if pa != MEMSIZE_PHYSICAL {
      hide FreeFrom;
      CountStep(pages, kernelEnd, pa);
      NoneFreeFrom(pages, kernelEnd, pa + PAGESIZE);
    }
  }

  /** No page is free exactly when the count is 0. */
  lemma NoneFree(pages: set<Word>, kernelEnd: Word)
    ensures (forall q :: !IsFree(pages, kernelEnd, q)) <==> FreeCount(pages, kernelEnd) == 0
  {
    hide FreeFrom, IsFree, Aligned;
    FirstAligned();
    if q :| IsFree(pages, kernelEnd, q) {
      TakeOne(pages, kernelEnd, q);
    } else {
      NoneFreeFrom(pages, kernelEnd, 0);
    }
  }

  class PhysicalMemory {
    var memory: Memory
    /** The pages in use: Kalloc raises a count from 0 to 1, and nothing lowers it. */
    var pages: set<Word>
    const kernelEnd: Word
    /** The page tables that are in use. */
    ghost var roots: set<Word>

    /** At boot no page is in use, and no process has a page table. */
    constructor (memory: Memory, kernelEnd: Word)
      ensures Valid() && this.memory == memory && this.kernelEnd == kernelEnd && pages == {} && roots == {}
    {
      this.memory, this.kernelEnd, pages, roots := memory, kernelEnd, {}, {};
    }

    predicate FreeNow(pa: Word)
      reads this`pages
    {
      IsFree(pages, kernelEnd, pa)
    }

    ghost predicate Valid()
      reads this
    {
      && Forest(memory, roots)
      && (forall r :: r in roots ==> Aligned(r))
      && TablesUsed(memory, roots, pages, kernelEnd)
    }

    /** How many pages are left. */
    function Left(): nat
      reads this`pages
    {
      FreeCount(pages, kernelEnd)
    }

    /** Take the first free page, or return 0. */
    method Kalloc(sz: Word) returns (p: Word)
      modifies this`memory, this`pages
      ensures p == 0 ==> memory == old(memory) && pages == old(pages)
      ensures p == 0 ==> sz > PAGESIZE || forall q :: !FreeNow(q)
      ensures p != 0 ==> sz <= PAGESIZE && old(FreeNow(p)) && NoneBelow(old(pages), kernelEnd, p)
      ensures p != 0 ==> pages == old(pages) + {p} && SameOutside(old(memory), memory, p)
      ensures p != 0 ==> Aligned(p) && !KeptBack(p, kernelEnd) && p !in old(pages)
      ensures p != 0 ==> PassedOver(old(pages), kernelEnd, p)
      ensures p == 0 && sz <= PAGESIZE ==> PassedOver(pages, kernelEnd, MEMSIZE_PHYSICAL)
      ensures p == 0 && sz <= PAGESIZE ==> Left() == 0
      ensures p != 0 ==> Left() == old(Left()) - 1
    {
      hide SameOutside, FillEntries, Allocatable, KeptBack, PassedOver, Aligned, NoneBelow, FreeCount;
      if sz > PAGESIZE {
        return 0;
      }
      FirstPage(pages, kernelEnd);
      var pa: Word := 0;
      while pa != MEMSIZE_PHYSICAL
        invariant Aligned(pa) && pa <= MEMSIZE_PHYSICAL
        invariant NoneBelow(pages, kernelEnd, pa)
        invariant memory == old(memory) && pages == old(pages)
        decreases MEMSIZE_PHYSICAL - pa
      {
        if Allocatable(pa, kernelEnd) && pa !in pages {
          FreeIsPage(pages, kernelEnd, pa);
          FillOutside(memory, pa, 0xCCCC_CCCC_CCCC_CCCC, 512);
          TakeOne(pages, kernelEnd, pa);
          AllocatableIff(pa, kernelEnd);
          NoneBelowPassed(pages, kernelEnd, pa);
          pages := pages + {pa};
          memory := FillEntries(memory, pa, 0xCCCC_CCCC_CCCC_CCCC, 512);
          return pa;
        }
        assert !IsFree(pages, kernelEnd, pa);
        SearchOn(pages, kernelEnd, pa);
        pa := pa + PAGESIZE;
      }
      SearchEnds(pages, kernelEnd);
      NoneBelowPassed(pages, kernelEnd, MEMSIZE_PHYSICAL);
      NoneFree(pages, kernelEnd);
      return 0;
    }
  }

  /** All free pages lie at or above `pa`. */
  ghost predicate NoneBelow(pages: set<Word>, kernelEnd: Word, pa: Word)
  {
    forall q {:trigger IsFree(pages, kernelEnd, q)} :: IsFree(pages, kernelEnd, q) ==> pa <= q
  }

  /** Every page below `pa` is kept back or in use. */
  ghost predicate PassedOver(pages: set<Word>, kernelEnd: Word, pa: Word)
  {
    forall q {:trigger KeptBack(q, kernelEnd)} {:trigger q in pages} ::
      Aligned(q) && q < pa ==> KeptBack(q, kernelEnd) || q in pages
  }

  lemma NoneBelowPassed(pages: set<Word>, kernelEnd: Word, pa: Word)
    requires NoneBelow(pages, kernelEnd, pa)
    ensures PassedOver(pages, kernelEnd, pa)
  {
    hide Allocatable, KeptBack, Aligned;
    forall q | Aligned(q) && q < pa ensures KeptBack(q, kernelEnd) || q in pages {
      AllocatableIff(q, kernelEnd);
      assert !IsFree(pages, kernelEnd, q) by { NotBelow(pages, kernelEnd, pa, q); }
    }
  }

  lemma NotBelow(pages: set<Word>, kernelEnd: Word, pa: Word, q: Word)
    requires NoneBelow(pages, kernelEnd, pa) && q < pa
    ensures !IsFree(pages, kernelEnd, q)
  {
    hide IsFree;
  }

  lemma FirstPage(pages: set<Word>, kernelEnd: Word)
    ensures Aligned(0) && NoneBelow(pages, kernelEnd, 0)
  {
    hide IsFree;
  }

  lemma SearchOn(pages: set<Word>, kernelEnd: Word, pa: Word)
    requires Aligned(pa) && pa < MEMSIZE_PHYSICAL && !IsFree(pages, kernelEnd, pa) && NoneBelow(pages, kernelEnd, pa)
    ensures Aligned(pa + PAGESIZE) && pa < pa + PAGESIZE <= MEMSIZE_PHYSICAL
    ensures MEMSIZE_PHYSICAL - (pa + PAGESIZE) < MEMSIZE_PHYSICAL - pa
    ensures NoneBelow(pages, kernelEnd, pa + PAGESIZE)
  {
    hide IsFree;
    forall q | IsFree(pages, kernelEnd, q) ensures pa + PAGESIZE <= q {
      PastFree(pages, kernelEnd, pa, q);
    }
    NextPage(pa);
  }

  lemma PastFree(pages: set<Word>, kernelEnd: Word, pa: Word, q: Word)
    requires Aligned(pa) && pa < MEMSIZE_PHYSICAL && !IsFree(pages, kernelEnd, pa)
    requires IsFree(pages, kernelEnd, q) && pa <= q
    ensures pa + PAGESIZE <= q
  {
    hide Allocatable;
    PastPage(pa, q);
  }

  lemma SearchEnds(pages: set<Word>, kernelEnd: Word)
    requires NoneBelow(pages, kernelEnd, MEMSIZE_PHYSICAL)
    ensures forall q :: !IsFree(pages, kernelEnd, q)
  {
    hide IsFree;
    forall q ensures !IsFree(pages, kernelEnd, q) {
      if IsFree(pages, kernelEnd, q) {
        FreeIsPage(pages, kernelEnd, q);
        assert false;
      }
    }
  }

  /** From `m` to `m'` tables were only added, and only on pages that were free. */
  ghost predicate Grows(m: Memory, m': Memory, roots: set<Word>, pages: set<Word>, kernelEnd: Word)
  {
    && KeepsTables(m, m', roots)
    && forall r, va, l: Level {:trigger TableAt(m', r, va, l)} ::
        r in roots && TableAt(m', r, va, l).Some? ==>
          TableAt(m', r, va, l) == TableAt(m, r, va, l) || IsFree(pages, kernelEnd, TableAt(m', r, va, l).value)
  }

  /** Pages were only taken. */
  ghost predicate Taken(pages: set<Word>, pages': set<Word>, kernelEnd: Word)
  {
    forall p {:trigger IsFree(pages', kernelEnd, p)} :: IsFree(pages', kernelEnd, p) ==> IsFree(pages, kernelEnd, p)
  }

  /** No free page is a table. */
  ghost predicate TablesUsed(m: Memory, roots: set<Word>, pages: set<Word>, kernelEnd: Word)
  {
    forall p {:trigger IsFree(pages, kernelEnd, p)} :: IsFree(pages, kernelEnd, p) ==> NotATable(m, roots, p)
  }

  lemma TakePage(pages: set<Word>, kernelEnd: Word, q: Word)
    requires IsFree(pages, kernelEnd, q)
    ensures Taken(pages, pages + {q}, kernelEnd) && !IsFree(pages + {q}, kernelEnd, q)
  {
    hide Allocatable, Aligned;
  }

  lemma GrowsByOne(m: Memory, m': Memory, roots: set<Word>, pages: set<Word>, kernelEnd: Word, q: Word)
    requires KeepsTables(m, m', roots) && OnlyNewTable(m, m', roots, q) && IsFree(pages, kernelEnd, q)
    requires TablesUsed(m, roots, pages, kernelEnd)
    ensures Grows(m, m', roots, pages, kernelEnd)
    ensures TablesUsed(m', roots, pages + {q}, kernelEnd)
  {
    hide TableAt, PermAt, IsFree;
    assert KeepsTables(m, m', roots) by { hide KeepsTables; }
    TakePage(pages, kernelEnd, q);
  }

  lemma GrowsOn(m: Memory, m1: Memory, m2: Memory, roots: set<Word>, pages: set<Word>, pages1: set<Word>, kernelEnd: Word)
    requires Grows(m, m1, roots, pages, kernelEnd) && Grows(m1, m2, roots, pages1, kernelEnd) && Taken(pages, pages1, kernelEnd)
    ensures Grows(m, m2, roots, pages, kernelEnd)
  {
    hide TableAt, PermAt, IsFree;
  }

  lemma GrowsNot(m: Memory, roots: set<Word>, pages: set<Word>, kernelEnd: Word)
    ensures Grows(m, m, roots, pages, kernelEnd) && Taken(pages, pages, kernelEnd)
  {
    hide TableAt, PermAt, IsFree;
  }
}
