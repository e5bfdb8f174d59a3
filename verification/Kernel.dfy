/** The kernel's page allocation and mapping: process setup and the page allocation system call. */
module Kernel {
  import opened PageTable
  import opened PhysicalPages
  import opened Vmiter
  import opened Translation
  import opened Isolation
  import opened ProcessSpace

  /** A loadable segment of a program image: its first page and the number of pages it touches. */
  datatype Segment = Segment(first: Word, count: nat)

  datatype Event =
    | Setup(pid: int, segments: seq<Segment>)
    | PageAlloc(pid: int, addr: Word)
    | Store(pid: int, va: Word, word: Word)

  predicate MayWrite(t: Mapping)
  {
    t.Mapped? && t.perm & PTE_U != 0 && t.perm & PTE_W != 0
  }

  /** The word of physical memory that holds the address. */
  function WordSlot(pa: Word): Slot
  {
    Entry(PageOf(pa), (pa & 0xFFF) >> 3)
  }

  lemma WordAddress(pa: Word)
    ensures ByteAddress(WordSlot(pa).table, WordSlot(pa).index) == pa & !7
  {
  }

  /** A process may store where the entries of all levels are writable and open to the user, and
      nowhere else. */
  lemma MayWriteIff(m: Memory, root: Word, va: Word)
    requires Canonical(va)
    ensures
      var t, l := Translate(m, root, va), Walk(m, root, va).level;
      MayWrite(t) <==> t.Mapped? && Allows(m, root, va, l, PTE_W) && Allows(m, root, va, l, PTE_U)
  {
    hide Translate, Walk, Allows, Canonical;
    if Translate(m, root, va).Mapped? {
      PermissionsOfAllLevels(m, root, va, PTE_W);
      PermissionsOfAllLevels(m, root, va, PTE_U);
    }
  }

  class Kernel {
    const mem: PhysicalMemory
    /** The page table of each process that was set up. */
    var ptable: map<int, Word>
    /** Which process each page was given to. */
    ghost var owned: set<Owned>

    ghost predicate Valid()
      reads this, mem
    {
      && Isolated(mem.memory, mem.roots, mem.pages, mem.kernelEnd, owned)
      && (forall r :: r in mem.roots ==> Aligned(r))
      && (forall pid :: pid in ptable ==> ptable[pid] in mem.roots)
    }

    /** Every process has the tables for all its addresses, as long as pages are left. */
    ghost predicate Ready()
      reads this, mem
    {
      AllReady(mem.memory, ptable, mem.Left())
    }

    constructor (memory: Memory, kernelEnd: Word)
      ensures Ready() && Valid() && fresh(mem) && mem.memory == memory && mem.kernelEnd == kernelEnd && ptable == map[] && owned == {}
    {
      mem := new PhysicalMemory(memory, kernelEnd);
      ptable, owned := map[], {};
    }

    /** Map one page. It fails exactly when fewer pages are free than tables are missing on the way
        to the page's entry. */
    method MemoryMap(pt: Word, va: Word, pa: Word, newPerm: Word) returns (r: int)
      requires Valid() && pt in mem.roots && Aligned(va) && Canonical(va)
      requires MayMap(pa, newPerm, 0xFFF) && !TooHigh(NewEntry(pa, newPerm))
      requires MapsConfined(NewEntry(pa, newPerm), pt, owned)
      modifies mem`memory, mem`pages
      ensures Valid()
      ensures Grows(old(mem.memory), mem.memory, mem.roots, old(mem.pages), mem.kernelEnd)
      ensures r == 0 || r == -1
      ensures r == -1 <==> newPerm != 0 && old(mem.Left()) < Walk(old(mem.memory), pt, va).level
      ensures r == -1 ==> mem.Left() == 0
      ensures mem.Left() <= old(mem.Left()) && old(mem.pages) <= mem.pages
      ensures r == -1 ==> SameTranslations(old(mem.memory), mem.memory, mem.roots) && Translate(old(mem.memory), pt, va) == Unmapped
      ensures r == 0 ==>
        || Remapped(old(mem.memory), mem.memory, mem.roots, pt, va, NewEntry(pa, newPerm), 0xFFF)
        || (newPerm == 0 && Translate(old(mem.memory), pt, va) == Unmapped && mem.memory == old(mem.memory))
    {
      hide Walk, Aligned, Canonical, MayMap, TooHigh, NewEntry, MapsConfined, Grows, SameTranslations, Remapped, Read,
        Forest, Plain, TablesUsed, OwnedPages, TablePages, AllConfined, OnPath, IsFree, FreeCount, Taken;
      ghost var m, pages := mem.memory, mem.pages;
      PlainWalk(m, mem.roots, pt, va);
      var it := new Iterator(mem, pt, va);
      if it.level > 0 {
        NoPresentNoMapping(m, va, it.Position());
      }
      r := it.TryMap(pa, newPerm);
      MapConfinedStep(m, mem.memory, mem.roots, owned, pt, va, NewEntry(pa, newPerm), r == 0 && it.level == 0);
      GrowIsolated(m, mem.memory, mem.roots, pages, mem.pages, mem.kernelEnd, owned);
    }

    /** One round of the loop: the loop's iterator keeps its position while another iterator
        installs tables under it. */
    method MapKernelPage(pt: Word, it: Iterator)
      requires Valid() && pt in mem.roots && it.mem == mem && it.pt == pt && it.Valid()
      requires Aligned(it.va) && it.va < PROC_START_ADDR
      modifies mem`memory, mem`pages, it`pep, it`level, it`perm, it`va, it`panicked
      ensures Valid() && it.Valid() && !it.panicked && it.va == NextVa(old(it.va))
      ensures it.Position() == Walk(mem.memory, pt, it.va)
      ensures KeepsTables(old(mem.memory), mem.memory, mem.roots) && mem.Left() <= old(mem.Left())
      ensures mem.Left() == 0
        || Remapped(old(mem.memory), mem.memory, mem.roots, pt, old(it.va), NewEntry(old(it.va), PTE_PW), 0xFFF)
    {
      hide Walk, Aligned, Canonical, MayMap, TooHigh, NewEntry, MapsConfined, Grows, Read, Remapped, Isolated, OnPath,
        LowPage, SameTranslations, NextVa, FreeCount, KeepsTables;
      ghost var m, pages := mem.memory, mem.pages;
      NextLowPage(it.va);
      LowAddress(it.va);
      LowAddress(NextVa(it.va));
      KernelEntry(it.va, pt, owned);
      var r := MemoryMap(pt, it.va, it.va, PTE_PW);
      CachedPosition(m, mem.memory, mem.roots, pages, mem.kernelEnd, pt, it.va, it.Position());
      GrowsKeepsTables(m, mem.memory, mem.roots, pages, mem.kernelEnd);
      ValidParts();
      PlainWalk(mem.memory, mem.roots, pt, NextVa(it.va));
      it.RealFind(NextVa(it.va));
    }

    /** Map the memory below the first process address to itself for the kernel alone, unless the
        pages run out. */
    method MapKernelSpace(pt: Word)
      requires Valid() && pt in mem.roots
      modifies mem`memory, mem`pages
      ensures Valid()
      ensures KeepsTables(old(mem.memory), mem.memory, mem.roots) && mem.Left() <= old(mem.Left())
      ensures mem.Left() == 0 || KernelMapped(mem.memory, pt, PROC_START_ADDR)
    {
      hide Walk, Aligned, Canonical, TooHigh, Read, Isolated, OnPath, LowPage, NextVa, FreeCount, KeepsTables, KernelMapped,
        Remapped, NewEntry;
      FirstAddress();
      NothingBelow(mem.memory, pt);
      KeepsTablesSelf(mem.memory, mem.roots);
      assert Plain(mem.memory, mem.roots) && mem.Valid() by { ValidParts(); }
      PlainWalk(mem.memory, mem.roots, pt, 0);
      var it := new Iterator(mem, pt, 0);
      while it.va < PROC_START_ADDR
        invariant it.mem == mem && it.pt == pt && fresh(it) && it.Valid() && Valid()
        invariant it.Position() == Walk(mem.memory, pt, it.va) && !it.panicked
        invariant Aligned(it.va) && it.va <= PROC_START_ADDR
        invariant KeepsTables(old(mem.memory), mem.memory, mem.roots) && mem.Left() <= old(mem.Left())
        invariant mem.Left() == 0 || KernelMapped(mem.memory, pt, it.va)
        decreases PROC_START_ADDR - it.va
      {
        NextLowPage(it.va);
        LowAddress(it.va);
        ghost var m, va := mem.memory, it.va;
        MapKernelPage(pt, it);
        KeepsTablesOn(old(mem.memory), m, mem.memory, mem.roots);
        if mem.Left() != 0 {
          KernelMappedOn(m, mem.memory, mem.roots, pt, va);
        }
      }
    }

    lemma ValidParts()
      requires Valid()
      ensures Plain(mem.memory, mem.roots) && mem.Valid()
    {
      hide Plain, Forest, TablesUsed, OwnedPages, TablePages, AllConfined;
    }

    /** Allocate a page and map it at `va` for the process with page table `pt`. */
    method GivePage(pt: Word, va: Word) returns (p: Word, r: int)
      requires Valid() && pt in mem.roots && Aligned(va) && Canonical(va)
      modifies this`owned, mem`memory, mem`pages
      ensures Valid()
      ensures p == 0 ==> mem.memory == old(mem.memory) && mem.pages == old(mem.pages) && owned == old(owned)
      ensures p == 0 <==> old(mem.Left()) == 0
      ensures p != 0 ==> IsFree(old(mem.pages), mem.kernelEnd, p) && owned == old(owned) + {Owned(p, pt)}
      ensures p != 0 ==> (r == -1 <==> old(mem.Left()) <= Walk(old(mem.memory), pt, va).level)
      ensures p != 0 && r == -1 ==> mem.Left() == 0
      ensures mem.Left() <= old(mem.Left()) && old(mem.pages) <= mem.pages
      ensures KeepsTables(old(mem.memory), mem.memory, mem.roots)
      ensures mem.Left() == 0 || (OnlyGiven(old(mem.memory), mem.memory, pt, owned) && Given(mem.memory, pt, va, owned))
      ensures p != 0 ==> r == 0 || r == -1
      ensures p != 0 && r == 0 ==>
        Remapped(old(mem.memory), mem.memory, mem.roots, pt, va, NewEntry(p, PTE_PWU), 0xFFF)
      ensures p != 0 && r == -1 ==> SameTranslations(old(mem.memory), mem.memory, mem.roots) && Translate(old(mem.memory), pt, va) == Unmapped
    {
      hide Aligned, Canonical, MayMap, TooHigh, NewEntry, MapsConfined, Grows, Remapped, Isolated, LowPage,
        SameTranslations, IsFree, FreeCount, SameOutside, NoneBelow, Walk, KeepsTables, OnlyGiven, Given;
      ghost var m, pages := mem.memory, mem.pages;
      KeepsTablesSelf(m, mem.roots);
      r := 0;
      p := mem.Kalloc(PAGESIZE);
      if p == 0 {
        return;
      }
      owned := owned + {Owned(p, pt)};
      KallocIsolated(m, mem.memory, mem.roots, pages, mem.kernelEnd, old(owned), p, pt);
      KallocWalk(m, mem.memory, mem.roots, pages, mem.kernelEnd, old(owned), p, pt, va);
      FreeLowPage(pages, mem.kernelEnd, p);
      UserEntry(p, pt, owned);
      ghost var m1, pages1 := mem.memory, mem.pages;
      r := MemoryMap(pt, va, p, PTE_PWU);
      GrowsKeepsTables(m1, mem.memory, mem.roots, pages1, mem.kernelEnd);
      KeepsTablesOn(m, m1, mem.memory, mem.roots);
      FirstSame(m, m1, mem.memory, mem.roots, pt, va, NewEntry(p, PTE_PWU));
      if r == 0 {
        MapGives(m, mem.memory, mem.roots, pt, va, p, owned);
      }
    }

    /** A new, empty page table, or 0. */
    method KallocPagetable() returns (q: Word)
      requires Valid()
      modifies mem`memory, mem`pages, mem`roots
      ensures Valid()
      ensures KeepsTables(old(mem.memory), mem.memory, old(mem.roots)) && mem.Left() <= old(mem.Left())
      ensures q == 0 <==> old(mem.Left()) == 0
      ensures q == 0 ==> mem.roots == old(mem.roots) && mem.Left() == 0
      ensures q != 0 ==> mem.roots == old(mem.roots) + {q} && q !in old(mem.roots)
      ensures q != 0 ==> mem.Left() == old(mem.Left()) - 1 && forall i :: Read(mem.memory, Entry(q, i)) == 0
      ensures q != 0 ==> forall va :: Translate(mem.memory, q, va) == Unmapped
    {
      hide Aligned, Isolated, IsFree, FreeCount, SameOutside, NoneBelow, Translate, ZeroPage, Read, KeepsTables;
      ghost var m, pages := mem.memory, mem.pages;
      KeepsTablesSelf(m, mem.roots);
      q := mem.Kalloc(PAGESIZE);
      if q != 0 {
        FreeAligned(pages, mem.kernelEnd, q);
        ZeroOutside(mem.memory, q);
        OutsideTwice(m, mem.memory, ZeroPage(mem.memory, q), q);
        mem.memory := ZeroPage(mem.memory, q);
        KallocKeeps(m, mem.memory, mem.roots, pages, mem.kernelEnd, owned, q);
        RootIsolated(m, mem.memory, mem.roots, pages, mem.kernelEnd, owned, q);
        mem.roots := mem.roots + {q};
        forall va ensures Translate(mem.memory, q, va) == Unmapped {
          EmptyTranslate(mem.memory, q, va);
        }
      }
    }

    /** Give the process pages for one segment. Stop when there are no more pages, or at an
        address that cannot be mapped, where TryMap's assertion on permissions fails. */
    method LoadSegment(pt: Word, seg: Segment) returns (ok: bool)
      requires Valid() && pt in mem.roots && Aligned(seg.first)
      modifies this`owned, mem`memory, mem`pages
      ensures Valid() && old(owned) <= owned
      ensures KeepsTables(old(mem.memory), mem.memory, mem.roots) && mem.Left() <= old(mem.Left())
      ensures mem.Left() == 0 || OnlyGiven(old(mem.memory), mem.memory, pt, owned)
      ensures ok ==> mem.Left() == 0 || SegmentGiven(mem.memory, pt, seg.first, seg.count, owned)
      ensures !ok ==> mem.Left() == 0 || exists i: nat :: i < seg.count && !Canonical(PageAt(seg.first, i))
    {
      hide Aligned, Canonical, Isolated, IsFree, FreeCount, Remapped, SameTranslations, Translate, NewEntry, NextVa, KeepsTables,
        OnlyGiven, Given, Walk;
      KeepsTablesSelf(mem.memory, mem.roots);
      SameTranslationsSelf(mem.memory, mem.roots);
      SameGiven(mem.memory, mem.memory, mem.roots, pt, owned);
      var a := seg.first;
      for i := 0 to seg.count
        invariant Valid() && Aligned(a) && a == PageAt(seg.first, i) && old(owned) <= owned
        invariant KeepsTables(old(mem.memory), mem.memory, mem.roots) && mem.Left() <= old(mem.Left())
        invariant mem.Left() == 0 || OnlyGiven(old(mem.memory), mem.memory, pt, owned)
        invariant mem.Left() == 0 || SegmentGiven(mem.memory, pt, seg.first, i, owned)
      {
        ghost var m, was := mem.memory, owned;
        if !Canonical(a) {
          return false;
        }
        var p, r := GivePage(pt, a);
        KeepsTablesOn(old(mem.memory), m, mem.memory, mem.roots);
        if p == 0 {
          return false;
        }
        if mem.Left() != 0 {
          OnlyGivenOn(old(mem.memory), m, mem.memory, pt, was, owned);
          SegmentKept(m, mem.memory, pt, seg.first, i, was, owned);
        }
        NextAligned(a);
        a := NextVa(a);
      }
      return true;
    }

    /** Unmap page 0 and open the console. */
    method MapShared(pt: Word)
      requires Valid() && pt in mem.roots
      modifies mem`memory, mem`pages
      ensures Valid()
      ensures KeepsTables(old(mem.memory), mem.memory, mem.roots) && mem.Left() <= old(mem.Left())
      ensures old(KernelMapped(mem.memory, pt, PROC_START_ADDR)) ==> mem.Left() == 0 || LowSpace(mem.memory, pt, owned)
    {
      hide Aligned, Canonical, Isolated, IsFree, FreeCount, Remapped, SameTranslations, Translate, MayMap, TooHigh, NewEntry,
        MapsConfined, Grows, LowPage, KeepsTables, LowSpace, Walk;
      ghost var m, pages := mem.memory, mem.pages;
      SetupAddresses();
      NobodyEntry(pt, owned);
      UserEntry(CONSOLE_ADDR, pt, owned);
      var r := MemoryMap(pt, 0, 0, 0);
      GrowsKeepsTables(m, mem.memory, mem.roots, pages, mem.kernelEnd);
      ghost var m1, pages1 := mem.memory, mem.pages;
      r := MemoryMap(pt, CONSOLE_ADDR, CONSOLE_ADDR, PTE_PWU);
      GrowsKeepsTables(m1, mem.memory, mem.roots, pages1, mem.kernelEnd);
      KeepsTablesOn(m, m1, mem.memory, mem.roots);
      if KernelMapped(m, pt, PROC_START_ADDR) && r == 0 {
        assert Translate(m, pt, 0) == Mapped(0, PTE_PW);
        LowSpaceBuilt(m, m1, mem.memory, mem.roots, pt, owned);
      }
    }

    /** Set up a process; stop when a page cannot be allocated. Unless the pages ran out, the process
        then has the kernel's mappings, its segments and its stack. */
    method ProcessSetup(pid: int, segments: seq<Segment>) returns (ok: bool)
      requires Valid() && forall s :: s in segments ==> Aligned(s.first)
      modifies this, mem
      ensures Valid() && (old(Ready()) ==> Ready())
      ensures !ok ==> ptable == old(ptable)
      ensures ok ==> pid in ptable && ptable[pid] in mem.roots && ptable[pid] !in old(mem.roots)
      ensures ok ==> ptable == old(ptable)[pid := ptable[pid]]
      ensures ok ==> mem.Left() == 0 || LaidOut(mem.memory, ptable[pid], segments, owned)
    {
      hide Aligned, Canonical, Isolated, IsFree, FreeCount, Remapped, SameTranslations, Translate, NewEntry,
        LowPage, KeepsTables, LowSpace, KernelMapped, OnlyGiven, Given, SegmentGiven, Walk, AllReady;
      ghost var m0, roots := mem.memory, mem.roots;
      var pt := KallocPagetable();
      StayReady(m0, mem.memory, roots, ptable, old(mem.Left()), mem.Left());
      if pt == 0 {
        return false;
      }
      ghost var m1, left1 := mem.memory, mem.Left();
      MapKernelSpace(pt);
      ghost var m2 := mem.memory;
      MapShared(pt);
      KeepsTablesOn(m1, m2, mem.memory, mem.roots);
      for i := 0 to |segments|
        invariant Valid() && mem.roots == roots + {pt} && ptable == old(ptable)
        invariant KeepsTables(m1, mem.memory, mem.roots) && mem.Left() <= left1
        invariant mem.Left() == 0 || LowSpace(mem.memory, pt, owned)
        invariant mem.Left() == 0 || SegmentsGiven(mem.memory, pt, segments[..i], owned)
      {
        ghost var m, was := mem.memory, owned;
        ok := LoadSegment(pt, segments[i]);
        KeepsTablesOn(m1, m, mem.memory, mem.roots);
        if !ok {
          StayReady(m1, mem.memory, mem.roots, ptable, left1, mem.Left());
          return false;
        }
        if mem.Left() != 0 {
          LowSpaceKept(m, mem.memory, pt, was, owned);
          MoreSegments(m, mem.memory, pt, segments, i, was, owned);
        }
      }
      assert segments[..|segments|] == segments;
      ok := GiveStack(pt, segments, m1);
      StayReady(m1, mem.memory, mem.roots, ptable, left1, mem.Left());
      if !ok {
        return false;
      }
      ptable := ptable[pid := pt];
      ValidParts();
      NewReady(mem.memory, mem.roots, old(ptable), pid, pt, segments, owned, mem.Left());
      return true;
    }

    /** The page at the top of the address space. */
    method GiveStack(pt: Word, ghost segments: seq<Segment>, ghost m1: Memory) returns (ok: bool)
      requires Valid() && pt in mem.roots && KeepsTables(m1, mem.memory, mem.roots)
      requires mem.Left() == 0 || (LowSpace(mem.memory, pt, owned) && SegmentsGiven(mem.memory, pt, segments, owned))
      modifies this`owned, mem`memory, mem`pages
      ensures Valid() && KeepsTables(m1, mem.memory, mem.roots) && mem.Left() <= old(mem.Left())
      ensures ok <==> old(mem.Left()) != 0
      ensures ok ==> mem.Left() == 0 || LaidOut(mem.memory, pt, segments, owned)
    {
      hide Aligned, Canonical, Isolated, IsFree, FreeCount, Remapped, SameTranslations, Translate, NewEntry,
        LowPage, KeepsTables, LowSpace, OnlyGiven, Given, SegmentGiven, Walk;
      SetupAddresses();
      LowPages();
      ghost var m, was := mem.memory, owned;
      var p, r := GivePage(pt, MEMSIZE_VIRTUAL - PAGESIZE);
      KeepsTablesOn(m1, m, mem.memory, mem.roots);
      if p != 0 && mem.Left() != 0 {
        LowSpaceKept(m, mem.memory, pt, was, owned);
        SegmentsKept(m, mem.memory, pt, segments, was, owned);
      }
      return p != 0;
    }

    /** Clear the page at an address through its physical address, which faults if there is none. */
    method ClearPage(pt: Word, addr: Word, ghost m: Memory, ghost p: Word) returns (fault: bool)
      requires Valid() && pt in mem.roots && Aligned(addr) && Canonical(addr) && LowPage(p)
      requires
        var t := Translate(mem.memory, pt, addr);
        t == Unmapped || (t == Mapped(p, PTE_PWU) && Owned(p, pt) in owned
                          && Remapped(m, mem.memory, mem.roots, pt, addr, NewEntry(p, PTE_PWU), 0xFFF))
      modifies mem`memory
      ensures Valid() && KeepsTables(old(mem.memory), mem.memory, mem.roots)
      ensures Translate(mem.memory, pt, addr) == Translate(old(mem.memory), pt, addr)
      ensures fault <==> Translate(old(mem.memory), pt, addr) == Unmapped
      ensures fault ==> mem.memory == old(mem.memory)
      ensures !fault ==>
        && (forall i :: Read(mem.memory, Entry(p, i)) == 0)
        && Remapped(m, mem.memory, mem.roots, pt, addr, NewEntry(p, PTE_PWU), 0xFFF)
    {
      hide Aligned, Canonical, Isolated, Remapped, Translate, NewEntry, ZeroPage, Read, Walk, OnPath, TooHigh, PaOf, PermOf, KeepsTables;
      ValidParts();
      KeepsTablesSelf(mem.memory, mem.roots);
      ghost var m1 := mem.memory;
      var it := new Iterator(mem, pt, addr);
      it.ReadersTranslate();
      PlainWalk(mem.memory, mem.roots, pt, addr);
      var pa := it.Pa();
      if pa == 0xFFFF_FFFF_FFFF_FFFF {
        return true;
      }
      mem.memory := ZeroPage(mem.memory, pa);
      ClearIsolated(m, m1, mem.memory, mem.roots, mem.pages, mem.kernelEnd, owned, p, pt, addr);
      return false;
    }

    /** Allocate a page, map it and clear it through its address. */
    method GiveZeroPage(pt: Word, addr: Word) returns (r: int, fault: bool)
      requires Valid() && pt in mem.roots && Aligned(addr) && Canonical(addr)
      modifies this`owned, mem`memory, mem`pages
      ensures Valid() && KeepsTables(old(mem.memory), mem.memory, mem.roots)
      ensures mem.Left() <= old(mem.Left()) && old(mem.pages) <= mem.pages && old(owned) <= owned
      ensures r == if old(mem.Left()) == 0 then -1 else 0
      ensures r == -1 ==> mem.memory == old(mem.memory)
      ensures fault <==> 1 <= old(mem.Left()) <= Walk(old(mem.memory), pt, addr).level
      ensures fault ==> SameTranslations(old(mem.memory), mem.memory, mem.roots) && Translate(mem.memory, pt, addr) == Unmapped
      ensures r == 0 && !fault ==> GaveZeroPage(old(mem.memory), mem.memory, mem.roots, old(mem.pages), mem.kernelEnd, pt, addr)
    {
      hide Aligned, Canonical, Isolated, IsFree, FreeCount, Remapped, SameTranslations, Translate, NewEntry, SameOutside, ZeroPage,
        Read, Walk, KeepsTables, OnlyGiven, Given, LowPage, GaveZeroPage;
      ghost var m, pages := mem.memory, mem.pages;
      var p, mapped := GivePage(pt, addr);
      if p == 0 {
        return -1, false;
      }
      FreeLowPage(pages, mem.kernelEnd, p);
      if mapped == 0 {
        MappedHere(m, mem.memory, mem.roots, pt, addr, p, pages, mem.kernelEnd);
      } else {
        UnmappedHere(m, mem.memory, mem.roots, pt, addr);
      }
      ghost var m1 := mem.memory;
      fault := ClearPage(pt, addr, m, p);
      KeepsTablesOn(m, m1, mem.memory, mem.roots);
      if !fault {
        GaveHere(m, mem.memory, mem.roots, pages, mem.kernelEnd, pt, addr, p);
      }
      return 0, fault;
    }

    /** The page allocation system call, on arguments that meet its documentation. When there is a
        page but too few for it and its missing tables, the page stays unmapped, and clearing it
        through its address faults. What was mapped at the address before is never freed. */
    method SyscallPageAlloc(pid: int, addr: Word) returns (r: int, fault: bool)
      requires Valid() && pid in ptable && Aligned(addr) && PROC_START_ADDR <= addr < MEMSIZE_VIRTUAL
      modifies this`owned, mem`memory, mem`pages
      ensures Valid()
      ensures r == -1 || r == 0
      ensures r == -1 <==> old(mem.Left()) == 0
      ensures r == -1 ==> !fault && mem.memory == old(mem.memory)
      ensures fault <==> 1 <= old(mem.Left()) <= Walk(old(mem.memory), ptable[pid], addr).level
      ensures old(Ready()) ==> !fault && Ready()
      ensures old(mem.pages) <= mem.pages && old(owned) <= owned
      ensures KeptInUse(Translate(old(mem.memory), ptable[pid], addr), ptable[pid], mem.pages, mem.kernelEnd, owned)
      ensures fault ==> SameTranslations(old(mem.memory), mem.memory, mem.roots) && Translate(mem.memory, ptable[pid], addr) == Unmapped
      ensures r == 0 && !fault ==> GaveZeroPage(old(mem.memory), mem.memory, mem.roots, old(mem.pages), mem.kernelEnd, ptable[pid], addr)
    {
      hide Aligned, Canonical, Isolated, FreeCount, SameTranslations, Translate, Walk, KeptInUse, AllReady, KeepsTables,
        GaveZeroPage, LowPage;
      ghost var m, pages, was, left := mem.memory, mem.pages, owned, mem.Left();
      LowAddress(addr);
      r, fault := GiveZeroPage(ptable[pid], addr);
      StaysInUse(m, mem.roots, pages, mem.kernelEnd, was, ptable[pid], addr);
      StaysKept(Translate(m, ptable[pid], addr), ptable[pid], pages, mem.pages, mem.kernelEnd, was, owned);
      StayReady(m, mem.memory, mem.roots, ptable, left, mem.Left());
      if old(Ready()) && left != 0 {
        ReadyNoTables(m, ptable, left, pid, addr);
      }
    }

    /** The process stores a word: the processor lets it if the address is mapped writable for
        users, and otherwise raises a page fault. */
    method UserWrite(pid: int, va: Word, e: Word) returns (fault: bool)
      requires Valid() && pid in ptable
      modifies mem`memory
      ensures Valid() && SameTranslations(old(mem.memory), mem.memory, mem.roots)
      ensures fault <==> !MayWrite(Translate(old(mem.memory), ptable[pid], va))
      ensures fault ==> mem.memory == old(mem.memory)
      ensures old(Ready()) ==> Ready()
    {
      hide Isolated, Translate, SameTranslations, AllReady, KeepsTables, FreeCount;
      SameTranslationsSelf(mem.memory, mem.roots);
      var t := Translate(mem.memory, ptable[pid], va);
      if !MayWrite(t) {
        return true;
      }
      ghost var m := mem.memory;
      mem.memory := mem.memory[WordSlot(t.pa) := e];
      UserWriteIsolated(m, mem.memory, mem.roots, mem.pages, mem.kernelEnd, owned, ptable[pid], va, e);
      StayReady(m, mem.memory, mem.roots, ptable, mem.Left(), mem.Left());
      return false;
    }

    /** Any run: processes are set up, allocate pages and store words, in any order. It stops only
        when a process cannot be set up; the page allocation call never faults. */
    method Run(events: seq<Event>) returns (done: nat)
      requires Valid() && Ready()
      modifies this, mem
      ensures Valid() && Ready() && done <= |events|
      ensures done < |events| ==> events[done].Setup?
    {
      hide Isolated, Translate, Aligned, SameTranslations, GaveZeroPage, MayWrite, IsFree, FreeCount, AllReady, KeptInUse, Walk, LaidOut;
      for i := 0 to |events|
        invariant Valid() && Ready()
      {
        var ok := true;
        match events[i] {
          case Setup(pid, segments) =>
            if forall s :: s in segments ==> Aligned(s.first) {
              ok := ProcessSetup(pid, segments);
            }
          case PageAlloc(pid, addr) =>
            if pid in ptable && Aligned(addr) && PROC_START_ADDR <= addr && addr < MEMSIZE_VIRTUAL {
              var r, fault := SyscallPageAlloc(pid, addr);
              ok := !fault;
            }
          case Store(pid, va, e) =>
            if pid in ptable {
              var fault := UserWrite(pid, va, e);
            }
        }
        if !ok {
          return i;
        }
      }
      return |events|;
    }
  }

  /** A state in which the call does fault: the process has an empty page table, and after pages were
      taken one at a time a single one is left, too few for a page and its tables. */
  method FaultingState(k: Kernel, pid: int) returns (r: int, fault: bool)
    requires k.Valid() && k.mem.Left() >= 2
    modifies k, k.mem
    ensures k.Valid() && r == 0 && fault
  {
    hide Isolated, IsFree, FreeCount, Translate, Walk, AllReady, KeepsTables, KeptInUse, Aligned, GaveZeroPage, SameTranslations,
      Read, NoneBelow, SameOutside, Canonical, LowPage;
    var pt := k.KallocPagetable();
    k.ptable := k.ptable[pid := pt];
    while k.mem.Left() > 1
      invariant k.Valid() && k.mem.Left() >= 1 && k.ptable == old(k.ptable)[pid := pt] && pt in k.mem.roots
      invariant forall i :: Read(k.mem.memory, Entry(pt, i)) == 0
      decreases k.mem.Left()
    {
      ghost var m, pages, was := k.mem.memory, k.mem.pages, k.owned;
      var p := k.mem.Kalloc(PAGESIZE);
      k.owned := k.owned + {Owned(p, pt)};
      KallocIsolated(m, k.mem.memory, k.mem.roots, pages, k.mem.kernelEnd, was, p, pt);
      StillEmpty(m, k.mem.memory, k.mem.roots, pages, k.mem.kernelEnd, was, p, pt);
    }
    FirstProcessPage();
    LowAddress(PROC_START_ADDR);
    EmptyWalk(k.mem.memory, pt, PROC_START_ADDR);
    r, fault := k.SyscallPageAlloc(pid, PROC_START_ADDR);
  }

  lemma FirstProcessPage()
    ensures Aligned(PROC_START_ADDR) && PROC_START_ADDR < MEMSIZE_VIRTUAL
  {
  }

  lemma StillEmpty(m: Memory, m': Memory, roots: set<Word>, pages: set<Word>, kernelEnd: Word, owned: set<Owned>, p: Word, pt: Word)
    requires Isolated(m, roots, pages, kernelEnd, owned) && IsFree(pages, kernelEnd, p) && SameOutside(m, m', p) && pt in roots
    requires forall i :: Read(m, Entry(pt, i)) == 0
    ensures forall i :: Read(m', Entry(pt, i)) == 0
  {
    assert NotATable(m, roots, p);
    hide Forest, Plain, TablesUsed, OwnedPages, TablePages, AllConfined, IsFree, Read;
    TopLevel(m, pt, 0);
    assert pt != p;
  }

  /** In an empty page table a walk ends at the top. */
  lemma EmptyWalk(m: Memory, pt: Word, va: Word)
    requires Canonical(va) && forall i :: Read(m, Entry(pt, i)) == 0
    ensures Walk(m, pt, va).level == 3
  {
    hide TableAt, PermAt, Read, PageIndex, Canonical, Walk, IsTable;
    WalkEnds(m, pt, va);
    EmptyRoot(m, pt, va, Walk(m, pt, va).level);
  }

  ghost predicate AllReady(m: Memory, ptable: map<int, Word>, left: nat)
  {
    forall pid :: pid in ptable ==> left == 0 || TablesReady(m, ptable[pid])
  }

  lemma StayReady(m: Memory, m': Memory, roots: set<Word>, ptable: map<int, Word>, left: nat, left': nat)
    requires KeepsTables(m, m', roots) && left' <= left && forall pid :: pid in ptable ==> ptable[pid] in roots
    ensures AllReady(m, ptable, left) ==> AllReady(m', ptable, left')
  {
    hide KeepsTables, TablesReady;
    if AllReady(m, ptable, left) && left' != 0 {
      forall pid | pid in ptable ensures TablesReady(m', ptable[pid]) {
        TablesReadyKept(m, m', roots, ptable[pid]);
      }
    }
  }

  lemma ReadyNoTables(m: Memory, ptable: map<int, Word>, left: nat, pid: int, addr: Word)
    requires AllReady(m, ptable, left) && left != 0 && pid in ptable && addr < MEMSIZE_VIRTUAL
    ensures Walk(m, ptable[pid], addr).level == 0
  {
    hide TablesReady, Walk;
    ReadyWalk(m, ptable[pid], addr);
  }

  lemma NewReady(m: Memory, roots: set<Word>, ptable: map<int, Word>, pid: int, pt: Word, segments: seq<Segment>, owned: set<Owned>, left: nat)
    requires left == 0 || LaidOut(m, pt, segments, owned)
    requires Plain(m, roots) && pt in roots
    ensures AllReady(m, ptable, left) ==> AllReady(m, ptable[pid := pt], left)
  {
    hide TablesReady, LowSpace, Given, SegmentsGiven, Plain;
    if left != 0 {
      SetupReady(m, roots, pt, owned);
    }
  }

  ghost predicate SegmentsGiven(m: Memory, pt: Word, segments: seq<Segment>, owned: set<Owned>)
  {
    forall s {:trigger s in segments} :: s in segments ==> SegmentGiven(m, pt, s.first, s.count, owned)
  }

  /** The kernel's part, every page of every segment and the stack. */
  ghost predicate LaidOut(m: Memory, pt: Word, segments: seq<Segment>, owned: set<Owned>)
  {
    LowSpace(m, pt, owned) && SegmentsGiven(m, pt, segments, owned) && Given(m, pt, STACK_PAGE, owned)
  }

  lemma SegmentsKept(m: Memory, m': Memory, pt: Word, segments: seq<Segment>, owned: set<Owned>, owned': set<Owned>)
    requires OnlyGiven(m, m', pt, owned') && SegmentsGiven(m, pt, segments, owned) && owned <= owned'
    ensures SegmentsGiven(m', pt, segments, owned')
  {
    hide OnlyGiven, SegmentGiven;
    forall s | s in segments ensures SegmentGiven(m', pt, s.first, s.count, owned') {
      SegmentKept(m, m', pt, s.first, s.count, owned, owned');
    }
  }

  lemma MoreSegments(m: Memory, m': Memory, pt: Word, segments: seq<Segment>, i: nat, owned: set<Owned>, owned': set<Owned>)
    requires i < |segments| && OnlyGiven(m, m', pt, owned') && SegmentsGiven(m, pt, segments[..i], owned) && owned <= owned'
    requires SegmentGiven(m', pt, segments[i].first, segments[i].count, owned')
    ensures SegmentsGiven(m', pt, segments[..i + 1], owned')
  {
    hide OnlyGiven, SegmentGiven;
    SegmentsKept(m, m', pt, segments[..i], owned, owned');
    assert segments[..i + 1] == segments[..i] + [segments[i]];
  }

  /** What the entry makes reachable belongs to the process. */
  ghost predicate MapsConfined(e: Word, pt: Word, owned: set<Owned>)
  {
    forall a {:trigger MappingOf(e, a, 0, 0xFFF)} :: Confined(MappingOf(e, a, 0, 0xFFF), pt, owned)
  }

  lemma MapConfinedStep(m: Memory, m': Memory, roots: set<Word>, owned: set<Owned>, pt: Word, va: Word, e: Word, mapped: bool)
    requires AllConfined(m, roots, owned) && MapsConfined(e, pt, owned)
    requires if mapped then Remapped(m, m', roots, pt, va, e, 0xFFF) else SameTranslations(m, m', roots)
    ensures AllConfined(m', roots, owned)
  {
    hide AllConfined, Remapped, SameTranslations, MappingOf, Confined;
    if mapped {
      MapConfined(m, m', roots, owned, pt, va, e, 0xFFF);
    } else {
      SameConfined(m, m', roots, owned);
    }
  }

  lemma LowAddress(va: Word)
    requires Aligned(va) && va < MEMSIZE_VIRTUAL
    ensures LowPage(va) && Canonical(va)
  {
  }

  lemma FirstAddress()
    ensures Aligned(0) && LowPage(0) && Canonical(0)
  {
  }

  lemma NextLowPage(va: Word)
    requires Aligned(va) && va < PROC_START_ADDR
    ensures Aligned(NextVa(va)) && va < NextVa(va) <= PROC_START_ADDR && NextVa(va) < MEMSIZE_VIRTUAL
    ensures va < MEMSIZE_VIRTUAL && PROC_START_ADDR - NextVa(va) < PROC_START_ADDR - va
  {
  }

  /** A mapping without the user permission makes nothing reachable. */
  lemma KernelEntry(p: Word, pt: Word, owned: set<Owned>)
    requires LowPage(p)
    ensures MayMap(p, PTE_PW, 0xFFF) && !TooHigh(NewEntry(p, PTE_PW)) && MapsConfined(NewEntry(p, PTE_PW), pt, owned)
  {
    hide MayMap, NewEntry, MappingOf, PageOf;
    LowEntry(p, PTE_PW);
    forall a ensures Confined(MappingOf(NewEntry(p, PTE_PW), a, 0, 0xFFF), pt, owned) {
      MappedAs(p, PTE_PW, 0xFFF, a);
    }
  }

  lemma CachedPosition(m: Memory, m': Memory, roots: set<Word>, pages: set<Word>, kernelEnd: Word, pt: Word, va: Word, p: Place)
    requires pt in roots && OnPath(m, pt, va, p) && Grows(m, m', roots, pages, kernelEnd)
    ensures OnPath(m', pt, va, p)
  {
    hide OnPath, KeepsTables, TableAt;
    OnPathKept(m, m', roots, pt, va, p);
  }

  lemma FreeLowPage(pages: set<Word>, kernelEnd: Word, p: Word)
    requires IsFree(pages, kernelEnd, p)
    ensures LowPage(p)
  {
    FreeIsPage(pages, kernelEnd, p);
  }

  /** A user mapping of a page reaches that page only. */
  lemma UserEntry(p: Word, pt: Word, owned: set<Owned>)
    requires LowPage(p) && (p == CONSOLE_ADDR || Owned(p, pt) in owned)
    ensures MayMap(p, PTE_PWU, 0xFFF) && !TooHigh(NewEntry(p, PTE_PWU)) && MapsConfined(NewEntry(p, PTE_PWU), pt, owned)
  {
    hide MayMap, NewEntry, MappingOf, PageOf;
    LowEntry(p, PTE_PWU);
    forall a ensures Confined(MappingOf(NewEntry(p, PTE_PWU), a, 0, 0xFFF), pt, owned) {
      MappedAs(p, PTE_PWU, 0xFFF, a);
      PageOfSum(p, a);
    }
  }

  /** A page fresh from the allocator can be given to a process. */
  lemma KallocIsolated(m: Memory, m': Memory, roots: set<Word>, pages: set<Word>, kernelEnd: Word, owned: set<Owned>, p: Word, pt: Word)
    requires Isolated(m, roots, pages, kernelEnd, owned) && IsFree(pages, kernelEnd, p) && SameOutside(m, m', p)
    ensures Isolated(m', roots, pages + {p}, kernelEnd, owned + {Owned(p, pt)}) && SameTranslations(m, m', roots)
  {
    assert NotATable(m, roots, p);
    hide Forest, Plain, TablesUsed, OwnedPages, TablePages, AllConfined, SameOutside, NotATable, IsFree, Translate;
    WriteIsolated(m, m', roots, pages, kernelEnd, owned, p);
    OwnIsolated(m', roots, pages, kernelEnd, owned, p, pt);
    forall r, va | r in roots ensures Translate(m', r, va) == Translate(m, r, va) {
      OutsideTranslate(m, m', roots, p, r, va);
    }
  }

  lemma GrowsKeepsTables(m: Memory, m': Memory, roots: set<Word>, pages: set<Word>, kernelEnd: Word)
    requires Grows(m, m', roots, pages, kernelEnd)
    ensures KeepsTables(m, m', roots)
  {
    hide KeepsTables, TableAt, IsFree;
  }

  lemma KallocKeeps(m: Memory, m': Memory, roots: set<Word>, pages: set<Word>, kernelEnd: Word, owned: set<Owned>, p: Word)
    requires Isolated(m, roots, pages, kernelEnd, owned) && IsFree(pages, kernelEnd, p) && SameOutside(m, m', p)
    ensures KeepsTables(m, m', roots)
  {
    assert NotATable(m, roots, p);
    hide Forest, Plain, TablesUsed, OwnedPages, TablePages, AllConfined, SameOutside, NotATable, IsFree, KeepsTables;
    OutsideKeeps(m, m', roots, p);
  }

  lemma KallocWalk(m: Memory, m': Memory, roots: set<Word>, pages: set<Word>, kernelEnd: Word, owned: set<Owned>, p: Word, r: Word, va: Word)
    requires Isolated(m, roots, pages, kernelEnd, owned) && IsFree(pages, kernelEnd, p) && SameOutside(m, m', p) && r in roots
    ensures Walk(m', r, va) == Walk(m, r, va) && KeepsTables(m, m', roots)
  {
    assert NotATable(m, roots, p);
    hide Forest, Plain, TablesUsed, OwnedPages, TablePages, AllConfined, SameOutside, NotATable, IsFree, Translate, Walk, KeepsTables;
    OutsideTranslate(m, m', roots, p, r, va);
    OutsideKeeps(m, m', roots, p);
  }

  /** What the process can reach at an address is the console, or a page in use that it owns. */
  ghost predicate KeptInUse(t: Mapping, pt: Word, pages: set<Word>, kernelEnd: Word, owned: set<Owned>)
  {
    UserAccessible(t) ==>
      PageOf(t.pa) == CONSOLE_ADDR || (Owned(PageOf(t.pa), pt) in owned && InUse(pages, kernelEnd, PageOf(t.pa)))
  }

  lemma StaysInUse(m: Memory, roots: set<Word>, pages: set<Word>, kernelEnd: Word, owned: set<Owned>, pt: Word, va: Word)
    requires Isolated(m, roots, pages, kernelEnd, owned) && pt in roots
    ensures KeptInUse(Translate(m, pt, va), pt, pages, kernelEnd, owned)
  {
    hide Forest, Plain, TablesUsed, TablePages, AllConfined, Translate, PageOf, InUse, NotATable;
    ConfinedAt(m, roots, owned, pt, va);
  }

  lemma StaysKept(t: Mapping, pt: Word, pages: set<Word>, pages': set<Word>, kernelEnd: Word, owned: set<Owned>, owned': set<Owned>)
    requires KeptInUse(t, pt, pages, kernelEnd, owned) && pages <= pages' && owned <= owned'
    ensures KeptInUse(t, pt, pages', kernelEnd, owned')
  {
    hide PageOf, Aligned, Allocatable;
  }

  lemma FirstSame(m: Memory, m1: Memory, m2: Memory, roots: set<Word>, pt: Word, va: Word, e: Word)
    requires SameTranslations(m, m1, roots) && pt in roots
    ensures Translate(m1, pt, va) == Translate(m, pt, va)
    ensures Remapped(m1, m2, roots, pt, va, e, 0xFFF) ==> Remapped(m, m2, roots, pt, va, e, 0xFFF)
    ensures SameTranslations(m1, m2, roots) ==> SameTranslations(m, m2, roots)
  {
    hide Translate, SamePage, MappingOf, Canonical;
  }

  lemma FreeAligned(pages: set<Word>, kernelEnd: Word, p: Word)
    requires IsFree(pages, kernelEnd, p)
    ensures Aligned(p)
  {
  }

  lemma NextAligned(a: Word)
    requires Aligned(a)
    ensures Aligned(NextVa(a))
  {
  }

  lemma SetupAddresses()
    ensures Aligned(0) && Canonical(0)
    ensures Aligned(CONSOLE_ADDR) && Canonical(CONSOLE_ADDR) && LowPage(CONSOLE_ADDR)
    ensures Aligned(MEMSIZE_VIRTUAL - PAGESIZE) && Canonical(MEMSIZE_VIRTUAL - PAGESIZE)
  {
  }

  /** An entry that is not present makes nothing reachable. */
  lemma NobodyEntry(pt: Word, owned: set<Owned>)
    ensures MayMap(0, 0, 0xFFF) && !TooHigh(NewEntry(0, 0)) && MapsConfined(NewEntry(0, 0), pt, owned)
  {
    FirstAddress();
    LowEntry(0, 0);
    hide MayMap, NewEntry, MappingOf, PageOf;
    forall a ensures Confined(MappingOf(NewEntry(0, 0), a, 0, 0xFFF), pt, owned) {
      MappedAs(0, 0, 0xFFF, a);
    }
  }

  /** A page that was free is now mapped at `addr`, readable and writable by the process and
      filled with zeros; no other translation changed. */
  ghost predicate GaveZeroPage(m: Memory, m': Memory, roots: set<Word>, pages: set<Word>, kernelEnd: Word, pt: Word, addr: Word)
  {
    exists p {:trigger IsFree(pages, kernelEnd, p)} ::
      && IsFree(pages, kernelEnd, p)
      && Translate(m', pt, addr) == Mapped(p, PTE_PWU)
      && (forall i :: Read(m', Entry(p, i)) == 0)
      && Remapped(m, m', roots, pt, addr, NewEntry(p, PTE_PWU), 0xFFF)
  }

  lemma GaveHere(m: Memory, m': Memory, roots: set<Word>, pages: set<Word>, kernelEnd: Word, pt: Word, addr: Word, p: Word)
    requires IsFree(pages, kernelEnd, p) && Translate(m', pt, addr) == Mapped(p, PTE_PWU)
    requires (forall i :: Read(m', Entry(p, i)) == 0) && Remapped(m, m', roots, pt, addr, NewEntry(p, PTE_PWU), 0xFFF)
    ensures GaveZeroPage(m, m', roots, pages, kernelEnd, pt, addr)
  {
    hide IsFree, Translate, Read, Remapped, NewEntry;
  }

  lemma OffsetZero(p: Word, va: Word)
    requires Aligned(va)
    ensures p + (va & 0xFFF) == p
  {
  }

  lemma MappedHere(m: Memory, m': Memory, roots: set<Word>, pt: Word, va: Word, p: Word, pages: set<Word>, kernelEnd: Word)
    requires Remapped(m, m', roots, pt, va, NewEntry(p, PTE_PWU), 0xFFF) && pt in roots
    requires IsFree(pages, kernelEnd, p) && Aligned(va) && Canonical(va)
    ensures Translate(m', pt, va) == Mapped(p, PTE_PWU)
  {
    hide Translate, Canonical, MappingOf, NewEntry, MayMap, Allocatable, SamePage;
    FreeLowPage(pages, kernelEnd, p);
    LowEntry(p, PTE_PWU);
    MappedAs(p, PTE_PWU, 0xFFF, va);
    OffsetZero(p, va);
    SamePageSelf(va);
  }

  lemma UnmappedHere(m: Memory, m': Memory, roots: set<Word>, pt: Word, va: Word)
    requires SameTranslations(m, m', roots) && pt in roots && Translate(m, pt, va) == Unmapped
    ensures Translate(m', pt, va) == Unmapped
  {
    hide Translate;
  }

  lemma ClearIsolated(m: Memory, m1: Memory, m2: Memory, roots: set<Word>, pages: set<Word>, kernelEnd: Word, owned: set<Owned>,
                      p: Word, pt: Word, va: Word)
    requires Isolated(m1, roots, pages, kernelEnd, owned) && Owned(p, pt) in owned && m2 == ZeroPage(m1, p) && pt in roots
    requires Remapped(m, m1, roots, pt, va, NewEntry(p, PTE_PWU), 0xFFF)
    ensures Isolated(m2, roots, pages, kernelEnd, owned)
    ensures (forall i :: Read(m2, Entry(p, i)) == 0) && Translate(m2, pt, va) == Translate(m1, pt, va)
    ensures Remapped(m, m2, roots, pt, va, NewEntry(p, PTE_PWU), 0xFFF)
    ensures KeepsTables(m1, m2, roots)
  {
    assert NotATable(m1, roots, p);
    hide Forest, Plain, TablesUsed, OwnedPages, TablePages, AllConfined, SameOutside, NotATable, Translate, MappingOf, SamePage,
      Canonical, NewEntry, Read, ZeroPage, KeepsTables;
    ZeroOutside(m1, p);
    OutsideKeeps(m1, m2, roots, p);
    WriteIsolated(m1, m2, roots, pages, kernelEnd, owned, p);
    forall r, a | r in roots ensures Translate(m2, r, a) == Translate(m1, r, a) {
      OutsideTranslate(m1, m2, roots, p, r, a);
    }
  }

  /** What a process stores cannot change a page table. */
  lemma UserWriteIsolated(m: Memory, m': Memory, roots: set<Word>, pages: set<Word>, kernelEnd: Word, owned: set<Owned>,
                          pt: Word, va: Word, e: Word)
    requires Isolated(m, roots, pages, kernelEnd, owned) && pt in roots && MayWrite(Translate(m, pt, va))
    requires m' == m[WordSlot(Translate(m, pt, va).pa) := e]
    ensures Isolated(m', roots, pages, kernelEnd, owned) && SameTranslations(m, m', roots) && KeepsTables(m, m', roots)
  {
    hide Forest, Plain, TablesUsed, OwnedPages, TablePages, AllConfined, SameOutside, NotATable, Translate, PageOf, Read, KeepsTables;
    KernelOutOfReach(m, roots, pages, kernelEnd, owned, pt, va);
    var w := WordSlot(Translate(m, pt, va).pa);
    StoreOutside(m, w, e);
    WriteIsolated(m, m', roots, pages, kernelEnd, owned, w.table);
    OutsideKeeps(m, m', roots, w.table);
    forall r, a | r in roots ensures Translate(m', r, a) == Translate(m, r, a) {
      OutsideTranslate(m, m', roots, w.table, r, a);
    }
  }

  lemma StoreOutside(m: Memory, w: Slot, e: Word)
    requires w.Entry?
    ensures SameOutside(m, m[w := e], w.table)
  {
    hide Read;
    forall s: Slot | s.Entry? && s.table != w.table ensures Read(m[w := e], s) == Read(m, s) {
      ReadOther(m, w, e, s);
    }
  }
}
