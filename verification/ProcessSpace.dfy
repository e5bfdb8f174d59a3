/** The address space of a process as process setup lays it out. */
module ProcessSpace {
  import opened PageTable
  import opened PhysicalPages
  import opened Vmiter
  import opened Isolation

  const PROC_START_ADDR: Word := 0x10_0000
  const MEMSIZE_VIRTUAL: Word := 0x30_0000
  const STACK_PAGE: Word := 0x2F_F000
  const PTE_PW: Word := 3
  const PTE_PWU: Word := 7

  predicate LowPage(p: Word)
  {
    p & 0xFFF == 0 && p < MEMSIZE_VIRTUAL
  }

  function NextVa(va: Word): Word
  {
    va + PAGESIZE
  }

  lemma LowBits(p: Word, k: Word)
    requires p & 0xFFF == 0 && p < 0x30_0000 && k & !7 == 0
    ensures p & PTE_PAMASK == p && (p | k) & PTE_PAMASK == p && p & PTE_P == 0
    ensures k & !0xFFF == 0 && k & !(0xFFF as Word) & 7 == 0
  {
  }

  lemma LowEntry(p: Word, k: Word)
    requires LowPage(p) && k & !7 == 0
    ensures MayMap(p, k, 0xFFF) && !TooHigh(NewEntry(p, k)) && k & !0xFFF == 0
  {
    LowBits(p, k);
  }

  lemma PageOfSum(p: Word, a: Word)
    requires p & 0xFFF == 0
    ensures PageOf(p + (a & 0xFFF)) == p
  {
  }

  // ----- Pages given to the process -----

  /** The process can read and write the address, on a page of its own. */
  ghost predicate Given(m: Memory, pt: Word, a: Word, owned: set<Owned>)
  {
    var t := Translate(m, pt, a);
    t.Mapped? && t.perm == PTE_PWU && Owned(PageOf(t.pa), pt) in owned
  }

  /** Every address keeps its translation or is on a page given to the process. */
  ghost predicate OnlyGiven(m: Memory, m': Memory, pt: Word, owned: set<Owned>)
  {
    forall a {:trigger Translate(m', pt, a)} :: Given(m', pt, a, owned) || Translate(m', pt, a) == Translate(m, pt, a)
  }

  /** The i-th page of a segment. */
  function PageAt(first: Word, i: nat): Word
  {
    if i == 0 then first else NextVa(PageAt(first, i - 1))
  }

  ghost predicate SegmentGiven(m: Memory, pt: Word, first: Word, count: nat, owned: set<Owned>)
  {
    forall i: nat {:trigger PageAt(first, i)} :: i < count ==> Given(m, pt, PageAt(first, i), owned)
  }

  lemma UserMapping(p: Word, pt: Word, a: Word)
    requires LowPage(p)
    ensures var t := MappingOf(NewEntry(p, PTE_PWU), a, 0, 0xFFF);
      t == Mapped(p + (a & 0xFFF), PTE_PWU) && PageOf(t.pa) == p
  {
    hide MayMap, NewEntry, MappingOf, PageOf;
    LowEntry(p, PTE_PWU);
    MappedAs(p, PTE_PWU, 0xFFF, a);
    PageOfSum(p, a);
  }

  /** Mapping a page for the process gives it the page and moves nothing else. */
  lemma MapGives(m: Memory, m': Memory, roots: set<Word>, pt: Word, va: Word, p: Word, owned: set<Owned>)
    requires Remapped(m, m', roots, pt, va, NewEntry(p, PTE_PWU), 0xFFF) && pt in roots
    requires LowPage(p) && Owned(p, pt) in owned && Canonical(va)
    ensures OnlyGiven(m, m', pt, owned) && Given(m', pt, va, owned)
  {
    hide Translate, SamePage, MappingOf, NewEntry, Canonical, LowPage, PageOf;
    forall a ensures Given(m', pt, a, owned) || Translate(m', pt, a) == Translate(m, pt, a) {
      UserMapping(p, pt, a);
    }
    SamePageSelf(va);
    UserMapping(p, pt, va);
  }

  lemma SameGiven(m: Memory, m': Memory, roots: set<Word>, pt: Word, owned: set<Owned>)
    requires SameTranslations(m, m', roots) && pt in roots
    ensures OnlyGiven(m, m', pt, owned)
  {
    hide Translate, Given;
  }

  lemma OnlyGivenOn(m: Memory, m1: Memory, m2: Memory, pt: Word, owned: set<Owned>, owned': set<Owned>)
    requires OnlyGiven(m, m1, pt, owned) && OnlyGiven(m1, m2, pt, owned') && owned <= owned'
    ensures OnlyGiven(m, m2, pt, owned')
  {
    hide Translate, PageOf;
    forall a ensures Given(m2, pt, a, owned') || Translate(m2, pt, a) == Translate(m, pt, a) {
      if Given(m1, pt, a, owned) {
        StillGiven(m1, m2, pt, a, owned, owned');
      }
    }
  }

  lemma StillGiven(m: Memory, m': Memory, pt: Word, a: Word, owned: set<Owned>, owned': set<Owned>)
    requires OnlyGiven(m, m', pt, owned') && Given(m, pt, a, owned) && owned <= owned'
    ensures Given(m', pt, a, owned')
  {
    hide Translate, PageOf;
  }

  lemma SegmentKept(m: Memory, m': Memory, pt: Word, first: Word, count: nat, owned: set<Owned>, owned': set<Owned>)
    requires OnlyGiven(m, m', pt, owned') && SegmentGiven(m, pt, first, count, owned) && owned <= owned'
    ensures SegmentGiven(m', pt, first, count, owned')
  {
    hide Given, OnlyGiven, PageAt;
    forall i: nat | i < count ensures Given(m', pt, PageAt(first, i), owned') {
      StillGiven(m, m', pt, PageAt(first, i), owned, owned');
    }
  }

  // ----- The kernel's part -----

  /** Addresses below `upto` are mapped to themselves, for the kernel alone. */
  ghost predicate KernelMapped(m: Memory, pt: Word, upto: Word)
  {
    forall a {:trigger Translate(m, pt, a)} :: a < upto ==> Translate(m, pt, a) == Mapped(a, PTE_PW)
  }

  /** Below the first process address: nothing at page 0, the console for everyone, the rest for
      the kernel. */
  function KernelView(a: Word): Mapping
  {
    if PageOf(a) == 0 then Unmapped
    else if PageOf(a) == CONSOLE_ADDR then Mapped(a, PTE_PWU)
    else Mapped(a, PTE_PW)
  }

  ghost predicate LowSpace(m: Memory, pt: Word, owned: set<Owned>)
  {
    forall a {:trigger Translate(m, pt, a)} ::
      a < PROC_START_ADDR ==> Translate(m, pt, a) == KernelView(a) || Given(m, pt, a, owned)
  }

  lemma LowSpaceKept(m: Memory, m': Memory, pt: Word, owned: set<Owned>, owned': set<Owned>)
    requires LowSpace(m, pt, owned) && OnlyGiven(m, m', pt, owned') && owned <= owned'
    ensures LowSpace(m', pt, owned')
  {
    hide Translate, PageOf, KernelView;
    forall a | a < PROC_START_ADDR ensures Translate(m', pt, a) == KernelView(a) || Given(m', pt, a, owned') {
      if Given(m, pt, a, owned) {
        StillGiven(m, m', pt, a, owned, owned');
      }
    }
  }

  lemma PageParts(a: Word, p: Word)
    requires a < 0x30_0000 && p & 0xFFF == 0 && p < 0x30_0000
    ensures SamePage(a, p) <==> PageOf(a) == p
  {
    hide Canonical;
  }

  lemma PageSum(a: Word, p: Word)
    requires a & !0xFFF == p
    ensures p + (a & 0xFFF) == a
  {
  }

  lemma LowCanonical(a: Word)
    requires a < 0x30_0000
    ensures Canonical(a)
  {
  }

  /** What a mapping of a low page to itself does to the addresses of the process. */
  lemma IdentityMapped(m: Memory, m': Memory, roots: set<Word>, pt: Word, p: Word, k: Word, a: Word)
    requires Remapped(m, m', roots, pt, p, NewEntry(p, k), 0xFFF) && pt in roots
    requires LowPage(p) && k & !7 == 0 && a < MEMSIZE_VIRTUAL
    ensures Translate(m', pt, a) ==
      if PageOf(a) != p then Translate(m, pt, a) else if k & PTE_P != 0 then Mapped(a, k) else Unmapped
  {
    hide Translate, SamePage, MappingOf, NewEntry, Canonical, MayMap;
    LowCanonical(a);
    PageParts(a, p);
    LowEntry(p, k);
    MappedAs(p, k, 0xFFF, a);
    if PageOf(a) == p {
      PageSum(a, p);
    }
  }

  lemma PageBefore(a: Word, va: Word)
    requires LowPage(va) && va < PROC_START_ADDR && a < NextVa(va)
    ensures a < MEMSIZE_VIRTUAL && (PageOf(a) == va || a < va)
  {
  }

  lemma KernelMappedAt(m: Memory, m': Memory, roots: set<Word>, pt: Word, va: Word, a: Word)
    requires Remapped(m, m', roots, pt, va, NewEntry(va, PTE_PW), 0xFFF) && pt in roots
    requires LowPage(va) && va < PROC_START_ADDR && KernelMapped(m, pt, va) && a < NextVa(va)
    ensures Translate(m', pt, a) == Mapped(a, PTE_PW)
  {
    hide Translate, Remapped, PageOf, LowPage, NextVa, NewEntry;
    PageBefore(a, va);
    KernelBits();
    IdentityMapped(m, m', roots, pt, va, PTE_PW, a);
  }

  lemma KernelBits()
    ensures PTE_PW & !7 == 0 && PTE_PW & PTE_P != 0
  {
  }

  lemma KernelMappedOn(m: Memory, m': Memory, roots: set<Word>, pt: Word, va: Word)
    requires Remapped(m, m', roots, pt, va, NewEntry(va, PTE_PW), 0xFFF) && pt in roots
    requires LowPage(va) && va < PROC_START_ADDR && KernelMapped(m, pt, va)
    ensures KernelMapped(m', pt, NextVa(va))
  {
    forall a | a < NextVa(va) ensures Translate(m', pt, a) == Mapped(a, PTE_PW) {
      hide *;
      KernelMappedAt(m, m', roots, pt, va, a);
    }
    hide Translate, Remapped, LowPage, NextVa, NewEntry;
  }

  lemma NothingBelow(m: Memory, pt: Word)
    ensures KernelMapped(m, pt, 0)
  {
    hide Translate;
  }

  lemma LowPages()
    ensures LowPage(0) && LowPage(CONSOLE_ADDR) && PageOf(CONSOLE_ADDR) == CONSOLE_ADDR && CONSOLE_ADDR < PROC_START_ADDR
    ensures STACK_PAGE == MEMSIZE_VIRTUAL - PAGESIZE
  {
  }

  /** The kernel's mappings, then page 0 taken away, then the console opened. */
  lemma LowSpaceBuilt(m: Memory, m1: Memory, m2: Memory, roots: set<Word>, pt: Word, owned: set<Owned>)
    requires KernelMapped(m, pt, PROC_START_ADDR) && pt in roots
    requires Remapped(m, m1, roots, pt, 0, NewEntry(0, 0), 0xFFF)
    requires Remapped(m1, m2, roots, pt, CONSOLE_ADDR, NewEntry(CONSOLE_ADDR, PTE_PWU), 0xFFF)
    ensures LowSpace(m2, pt, owned)
  {
    hide Translate, Remapped, NewEntry, Given;
    LowPages();
    forall a | a < PROC_START_ADDR ensures Translate(m2, pt, a) == KernelView(a) {
      IdentityMapped(m, m1, roots, pt, 0, 0, a);
      IdentityMapped(m1, m2, roots, pt, CONSOLE_ADDR, PTE_PWU, a);
    }
  }

  // ----- Tables -----

  lemma PlainWalk(m: Memory, roots: set<Word>, r: Word, va: Word)
    requires Plain(m, roots) && r in roots && Canonical(va)
    ensures var w := Walk(m, r, va);
      w.perm == 0xFFF && (w.level > 0 ==> Read(m, w.pep) & PTE_P == 0) && !TooHigh(Read(m, w.pep))
  {
    hide TableAt, PermAt, Walk, Canonical, PageIndex, Read, TooHigh, IsTable;
    WalkEnds(m, r, va);
    var w := Walk(m, r, va);
    PlainPerm(m, roots, r, va, w.level);
    PermBits(m, r, va, w.level);
    FullPerm(w.perm);
    assert PlainEntry(Read(m, w.pep), w.level);
  }

  /** The tables for every address that a process may use are there. */
  ghost predicate TablesReady(m: Memory, pt: Word)
  {
    forall a {:trigger TableAt(m, pt, a, 0)} :: a < MEMSIZE_VIRTUAL ==> TableAt(m, pt, a, 0).Some?
  }

  lemma TablesReadyKept(m: Memory, m': Memory, roots: set<Word>, pt: Word)
    requires TablesReady(m, pt) && KeepsTables(m, m', roots) && pt in roots
    ensures TablesReady(m', pt)
  {
    hide TableAt, PermAt;
  }

  /** With the tables there, mapping a page needs no new one. */
  lemma ReadyWalk(m: Memory, pt: Word, a: Word)
    requires TablesReady(m, pt) && a < MEMSIZE_VIRTUAL
    ensures Walk(m, pt, a).level == 0
  {
    hide TableAt, PermAt, Walk, Canonical;
    LowCanonical(a);
    WalkLevel(m, pt, a, 0);
  }

  lemma MappedHasTable(m: Memory, roots: set<Word>, pt: Word, a: Word)
    requires Plain(m, roots) && pt in roots && Canonical(a) && Translate(m, pt, a).Mapped?
    ensures TableAt(m, pt, a, 0).Some?
  {
    hide TableAt, PermAt, Walk, Canonical, Read, Plain, TooHigh, PageIndex;
    PlainWalk(m, roots, pt, a);
    WalkEnds(m, pt, a);
    if Walk(m, pt, a).level > 0 {
      NoPresentNoMapping(m, a, Walk(m, pt, a));
    }
  }

  lemma SharedTables(a: Word)
    requires a < 0x30_0000
    ensures a < 0x20_0000 ==> SameIndices(a, CONSOLE_ADDR, 0)
    ensures a >= 0x20_0000 ==> SameIndices(a, STACK_PAGE, 0)
  {
  }

  /** Setting up the kernel's part and the stack installs all tables. */
  lemma SetupReady(m: Memory, roots: set<Word>, pt: Word, owned: set<Owned>)
    requires Plain(m, roots) && pt in roots && LowSpace(m, pt, owned) && Given(m, pt, STACK_PAGE, owned)
    ensures TablesReady(m, pt)
  {
    hide Translate, TableAt, PermAt, SameIndices, Plain, Canonical;
    LowPages();
    LowCanonical(CONSOLE_ADDR);
    LowCanonical(STACK_PAGE);
    assert Translate(m, pt, CONSOLE_ADDR).Mapped?;
    MappedHasTable(m, roots, pt, CONSOLE_ADDR);
    MappedHasTable(m, roots, pt, STACK_PAGE);
    forall a | a < MEMSIZE_VIRTUAL ensures TableAt(m, pt, a, 0).Some? {
      SharedTables(a);
      SamePath(m, pt, a, if a < 0x20_0000 then CONSOLE_ADDR else STACK_PAGE, 0);
    }
  }

  lemma KeepsTablesOn(m: Memory, m1: Memory, m2: Memory, roots: set<Word>)
    requires KeepsTables(m, m1, roots) && KeepsTables(m1, m2, roots)
    ensures KeepsTables(m, m2, roots)
  {
    hide TableAt, PermAt;
  }

  lemma KeepsTablesSelf(m: Memory, roots: set<Word>)
    ensures KeepsTables(m, m, roots)
  {
    hide TableAt, PermAt;
  }

  lemma OutsideKeeps(m: Memory, m': Memory, roots: set<Word>, p: Word)
    requires NotATable(m, roots, p) && SameOutside(m, m', p)
    ensures KeepsTables(m, m', roots)
  {
    hide TableAt, PermAt, NotATable, SameOutside;
    OutsideSameTables(m, m', roots, p);
  }
}
