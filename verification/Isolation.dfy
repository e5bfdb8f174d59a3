/** Which physical pages a process can reach, and why every kernel step keeps processes apart. */
module Isolation {
  import opened Words
  import opened PageTable
  import opened PhysicalPages
  import opened Vmiter

  const CONSOLE_ADDR: Word := 0xB8000

  /** A page that the kernel gave to one process. */
  datatype Owned = Owned(page: Word, root: Word)

  predicate InUse(pages: set<Word>, kernelEnd: Word, p: Word)
  {
    Aligned(p) && Allocatable(p, kernelEnd) && p in pages
  }

  function PageOf(pa: Word): Word
  {
    pa & !0xFFF
  }

  predicate UserAccessible(t: Mapping)
  {
    t.Mapped? && t.perm & PTE_U != 0
  }

  /** If the process with page table `r` can reach the page, then it is the console or its own. */
  predicate Confined(t: Mapping, r: Word, owned: set<Owned>)
  {
    UserAccessible(t) ==> PageOf(t.pa) == CONSOLE_ADDR || Owned(PageOf(t.pa), r) in owned
  }

  ghost predicate OwnedPages(m: Memory, roots: set<Word>, pages: set<Word>, kernelEnd: Word, owned: set<Owned>)
  {
    && (forall o {:trigger o in owned} :: o in owned ==> InUse(pages, kernelEnd, o.page) && NotATable(m, roots, o.page))
    && (forall o, o' {:trigger o in owned, o' in owned} :: o in owned && o' in owned && o.page == o'.page ==> o == o')
  }

  ghost predicate TablePages(m: Memory, roots: set<Word>, pages: set<Word>, kernelEnd: Word)
  {
    forall r, va, l: Level {:trigger TableAt(m, r, va, l)} ::
      r in roots && TableAt(m, r, va, l).Some? ==> InUse(pages, kernelEnd, TableAt(m, r, va, l).value)
  }

  ghost predicate AllConfined(m: Memory, roots: set<Word>, owned: set<Owned>)
  {
    forall r, va {:trigger Translate(m, r, va)} :: r in roots ==> Confined(Translate(m, r, va), r, owned)
  }

  ghost predicate Isolated(m: Memory, roots: set<Word>, pages: set<Word>, kernelEnd: Word, owned: set<Owned>)
  {
    && Forest(m, roots) && Plain(m, roots) && TablesUsed(m, roots, pages, kernelEnd)
    && OwnedPages(m, roots, pages, kernelEnd, owned)
    && TablePages(m, roots, pages, kernelEnd)
    && AllConfined(m, roots, owned)
  }

  // ----- What isolation means -----

  /** No physical page but the console can be reached by two processes. */
  lemma NothingShared(m: Memory, roots: set<Word>, pages: set<Word>, kernelEnd: Word, owned: set<Owned>,
                      r: Word, va: Word, r': Word, va': Word)
    requires Isolated(m, roots, pages, kernelEnd, owned) && r in roots && r' in roots && r != r'
    requires UserAccessible(Translate(m, r, va)) && UserAccessible(Translate(m, r', va'))
    requires PageOf(Translate(m, r, va).pa) == PageOf(Translate(m, r', va').pa)
    ensures PageOf(Translate(m, r, va).pa) == CONSOLE_ADDR
  {
    hide Forest, Plain, TablesUsed, TablePages, Translate, PageOf, InUse, NotATable, AllConfined;
    ConfinedAt(m, roots, owned, r, va);
    ConfinedAt(m, roots, owned, r', va');
    var p := PageOf(Translate(m, r, va).pa);
    assert Owned(p, r) != Owned(p, r');
  }

  /** No process can reach the kernel's pages, reserved pages or any page of a page table. */
  lemma KernelOutOfReach(m: Memory, roots: set<Word>, pages: set<Word>, kernelEnd: Word, owned: set<Owned>, r: Word, va: Word)
    requires Isolated(m, roots, pages, kernelEnd, owned) && r in roots && UserAccessible(Translate(m, r, va))
    ensures var p := PageOf(Translate(m, r, va).pa);
      NotATable(m, roots, p) && (p == CONSOLE_ADDR || !KeptBack(p, kernelEnd))
  {
    hide Forest, Plain, TablesUsed, Translate, PageOf, Allocatable, KeptBack, NotATable, AllConfined;
    var p := PageOf(Translate(m, r, va).pa);
    AllocatableIff(p, kernelEnd);
    assert Confined(Translate(m, r, va), r, owned) by { ConfinedAt(m, roots, owned, r, va); }
    if Owned(p, r) !in owned {
      ConsoleNotATable(m, roots, pages, kernelEnd);
    }
  }

  lemma ConfinedAt(m: Memory, roots: set<Word>, owned: set<Owned>, r: Word, va: Word)
    requires AllConfined(m, roots, owned) && r in roots
    ensures Confined(Translate(m, r, va), r, owned)
  {
    hide Translate, Confined;
  }

  lemma ConsoleReserved(kernelEnd: Word)
    ensures !Allocatable(CONSOLE_ADDR, kernelEnd)
  {
  }

  lemma ConsoleNotATable(m: Memory, roots: set<Word>, pages: set<Word>, kernelEnd: Word)
    requires TablePages(m, roots, pages, kernelEnd)
    ensures NotATable(m, roots, CONSOLE_ADDR)
  {
    hide TableAt, Allocatable, Aligned;
    ConsoleReserved(kernelEnd);
    forall r, va, l: Level | r in roots ensures TableAt(m, r, va, l) != Some(CONSOLE_ADDR) {
      if TableAt(m, r, va, l) == Some(CONSOLE_ADDR) {
        assert false;
      }
    }
  }

  // ----- Steps -----

  lemma StillInUse(pages: set<Word>, pages': set<Word>, kernelEnd: Word, p: Word)
    requires Taken(pages, pages', kernelEnd) && Aligned(p) && Allocatable(p, kernelEnd)
    ensures p in pages ==> p in pages'
    ensures !IsFree(pages', kernelEnd, p) ==> InUse(pages', kernelEnd, p)
  {
    hide Allocatable, Aligned;
    assert IsFree(pages', kernelEnd, p) ==> IsFree(pages, kernelEnd, p);
  }

  /** Installing tables and mapping pages keeps isolation if what is mapped is confined. */
  lemma GrowIsolated(m: Memory, m': Memory, roots: set<Word>, pages: set<Word>, pages': set<Word>, kernelEnd: Word, owned: set<Owned>)
    requires Isolated(m, roots, pages, kernelEnd, owned)
    requires Forest(m', roots) && Plain(m', roots) && TablesUsed(m', roots, pages', kernelEnd)
    requires Grows(m, m', roots, pages, kernelEnd) && Taken(pages, pages', kernelEnd) && AllConfined(m', roots, owned)
    ensures Isolated(m', roots, pages', kernelEnd, owned)
  {
    GrowTablePages(m, m', roots, pages, pages', kernelEnd);
    GrowOwnedPages(m, m', roots, pages, pages', kernelEnd, owned);
    hide Forest, Plain, TablesUsed, OwnedPages, TablePages, AllConfined, Grows, Taken;
  }

  lemma GrowTablePages(m: Memory, m': Memory, roots: set<Word>, pages: set<Word>, pages': set<Word>, kernelEnd: Word)
    requires TablePages(m, roots, pages, kernelEnd) && TablesUsed(m', roots, pages', kernelEnd)
    requires Grows(m, m', roots, pages, kernelEnd) && Taken(pages, pages', kernelEnd)
    ensures TablePages(m', roots, pages', kernelEnd)
  {
    hide TableAt, PermAt, Allocatable, Aligned, KeepsTables, Taken;
    forall r, va, l: Level | r in roots && TableAt(m', r, va, l).Some?
      ensures InUse(pages', kernelEnd, TableAt(m', r, va, l).value)
    {
      var p := TableAt(m', r, va, l).value;
      assert TableAt(m', r, va, l) == TableAt(m, r, va, l) || IsFree(pages, kernelEnd, p);
      if IsFree(pages', kernelEnd, p) {
        assert false;
      }
      StillInUse(pages, pages', kernelEnd, p);
    }
  }

  lemma GrowOwnedPages(m: Memory, m': Memory, roots: set<Word>, pages: set<Word>, pages': set<Word>, kernelEnd: Word, owned: set<Owned>)
    requires OwnedPages(m, roots, pages, kernelEnd, owned)
    requires Grows(m, m', roots, pages, kernelEnd) && Taken(pages, pages', kernelEnd)
    ensures OwnedPages(m', roots, pages', kernelEnd, owned)
  {
    hide TableAt, PermAt, Allocatable, Aligned, KeepsTables, Taken;
    forall o | o in owned ensures InUse(pages', kernelEnd, o.page) && NotATable(m', roots, o.page) {
      assert InUse(pages, kernelEnd, o.page) && NotATable(m, roots, o.page);
      StillInUse(pages, pages', kernelEnd, o.page);
    }
  }

  /** A page that is no table can be written. */
  lemma WriteIsolated(m: Memory, m': Memory, roots: set<Word>, pages: set<Word>, kernelEnd: Word, owned: set<Owned>, p: Word)
    requires Isolated(m, roots, pages, kernelEnd, owned) && SameOutside(m, m', p) && NotATable(m, roots, p)
    ensures Isolated(m', roots, pages, kernelEnd, owned)
  {
    hide Forest, Plain, TablesUsed, OwnedPages, TablePages, AllConfined, SameOutside, NotATable, SameTables;
    OutsideSameTables(m, m', roots, p);
    SameTablesForest(m, m', roots);
    OutsidePlain(m, m', roots, p);
    SameTablesPages(m, m', roots, pages, kernelEnd, owned);
    OutsideConfined(m, m', roots, owned, p);
  }

  lemma OutsidePlain(m: Memory, m': Memory, roots: set<Word>, p: Word)
    requires Plain(m, roots) && SameOutside(m, m', p) && NotATable(m, roots, p)
    ensures Plain(m', roots)
  {
    hide TableAt, PermAt, SameOutside, NotATable, PlainEntry, PageIndex, Read;
    forall r, va, l: Level | r in roots && TableAt(m', r, va, l).Some?
      ensures PlainEntry(Read(m', EntryOn(m', r, va, l)), l)
    {
      OutsideKeepsTables(m, m', roots, p, r, va, l);
    }
  }

  lemma SameTablesPages(m: Memory, m': Memory, roots: set<Word>, pages: set<Word>, kernelEnd: Word, owned: set<Owned>)
    requires SameTables(m, m', roots)
    requires TablesUsed(m, roots, pages, kernelEnd) && OwnedPages(m, roots, pages, kernelEnd, owned) && TablePages(m, roots, pages, kernelEnd)
    ensures TablesUsed(m', roots, pages, kernelEnd) && OwnedPages(m', roots, pages, kernelEnd, owned) && TablePages(m', roots, pages, kernelEnd)
  {
    hide TableAt, PermAt, IsFree, InUse;
  }

  lemma OutsideConfined(m: Memory, m': Memory, roots: set<Word>, owned: set<Owned>, p: Word)
    requires AllConfined(m, roots, owned) && SameOutside(m, m', p) && NotATable(m, roots, p)
    ensures AllConfined(m', roots, owned)
  {
    hide Translate, SameOutside, NotATable, Confined;
    forall r, va | r in roots ensures Confined(Translate(m', r, va), r, owned) {
      OutsideTranslate(m, m', roots, p, r, va);
    }
  }

  /** A free page can be given to a process. */
  lemma OwnIsolated(m: Memory, roots: set<Word>, pages: set<Word>, kernelEnd: Word, owned: set<Owned>, p: Word, r: Word)
    requires Isolated(m, roots, pages, kernelEnd, owned) && IsFree(pages, kernelEnd, p)
    ensures Isolated(m, roots, pages + {p}, kernelEnd, owned + {Owned(p, r)})
  {
    hide Forest, Plain, Translate, NotATable, TableAt, Allocatable, Aligned, PageOf, UserAccessible;
    TakePage(pages, kernelEnd, p);
    assert NotATable(m, roots, p);
  }

  /** The new mapping is confined, so all are. */
  lemma MapConfined(m: Memory, m': Memory, roots: set<Word>, owned: set<Owned>, pt: Word, va: Word, e: Word, perm: Word)
    requires AllConfined(m, roots, owned) && Remapped(m, m', roots, pt, va, e, perm)
    requires forall a {:trigger MappingOf(e, a, 0, perm)} :: Confined(MappingOf(e, a, 0, perm), pt, owned)
    ensures AllConfined(m', roots, owned)
  {
    hide Translate, Confined, MappingOf, SamePage, Canonical;
  }

  lemma SameConfined(m: Memory, m': Memory, roots: set<Word>, owned: set<Owned>)
    requires AllConfined(m, roots, owned) && SameTranslations(m, m', roots)
    ensures AllConfined(m', roots, owned)
  {
    hide Translate, Confined;
  }

  // ----- New page tables -----

  /** An empty page table: one table, no translation. */
  lemma {:induction false} EmptyRoot(m: Memory, q: Word, va: Word, l: Level)
    requires forall i :: Read(m, Entry(q, i)) == 0
    ensures TableAt(m, q, va, l) == if l == 3 then Some(q) else None
    decreases 3 - l
  {
    hide TableAt, PermAt, Read, PageIndex, IsTable, Narrow;
    if l == 3 {
      TopLevel(m, q, va);
    } else {
      EmptyRoot(m, q, va, l + 1);
      LevelBelow(m, q, va, l);
      ZeroNotTable();
    }
  }

  lemma EmptyTranslate(m: Memory, q: Word, va: Word)
    requires forall i :: Read(m, Entry(q, i)) == 0
    ensures Translate(m, q, va) == Unmapped
  {
    hide TableAt, PermAt, Read, PageIndex, Canonical, Walk, IsTable;
    WalkEnds(m, q, va);
    ReadZero(m);
    ZeroEntryAbsent();
    if Canonical(va) {
      EmptyRoot(m, q, va, Walk(m, q, va).level);
    }
    NoPresentNoMapping(m, va, Walk(m, q, va));
  }

  lemma RootForest(m: Memory, roots: set<Word>, q: Word)
    requires Forest(m, roots) && NotATable(m, roots, q) && forall i :: Read(m, Entry(q, i)) == 0
    ensures Forest(m, roots + {q})
  {
    hide TableAt, Read;
    forall va, l: Level ensures TableAt(m, q, va, l) == if l == 3 then Some(q) else None {
      EmptyRoot(m, q, va, l);
    }
  }

  lemma RootPlain(m: Memory, roots: set<Word>, q: Word)
    requires Plain(m, roots) && forall i :: Read(m, Entry(q, i)) == 0
    ensures Plain(m, roots + {q})
  {
    hide TableAt, Read, PlainEntry, PageIndex;
    forall r, va, l: Level | r in roots + {q} && TableAt(m, r, va, l).Some?
      ensures PlainEntry(Read(m, EntryOn(m, r, va, l)), l)
    {
      if r == q {
        EmptyRoot(m, q, va, l);
        PlainZero(l);
      }
    }
  }

  lemma RootPages(m: Memory, roots: set<Word>, pages: set<Word>, kernelEnd: Word, owned: set<Owned>, q: Word)
    requires TablesUsed(m, roots, pages, kernelEnd) && OwnedPages(m, roots, pages, kernelEnd, owned) && TablePages(m, roots, pages, kernelEnd)
    requires IsFree(pages, kernelEnd, q) && forall i :: Read(m, Entry(q, i)) == 0
    ensures TablesUsed(m, roots + {q}, pages + {q}, kernelEnd)
    ensures OwnedPages(m, roots + {q}, pages + {q}, kernelEnd, owned)
    ensures TablePages(m, roots + {q}, pages + {q}, kernelEnd)
  {
    hide TableAt, Read, Allocatable, Aligned;
    forall va, l: Level ensures TableAt(m, q, va, l) == if l == 3 then Some(q) else None {
      EmptyRoot(m, q, va, l);
    }
    TakePage(pages, kernelEnd, q);
  }

  lemma RootConfined(m: Memory, roots: set<Word>, owned: set<Owned>, q: Word)
    requires AllConfined(m, roots, owned) && forall i :: Read(m, Entry(q, i)) == 0
    ensures AllConfined(m, roots + {q}, owned)
  {
    hide Translate, Read, PageOf;
    forall va ensures Translate(m, q, va) == Unmapped {
      EmptyTranslate(m, q, va);
    }
  }

  /** A zeroed free page can become the page table of a new process. */
  lemma RootIsolated(m: Memory, m': Memory, roots: set<Word>, pages: set<Word>, kernelEnd: Word, owned: set<Owned>, q: Word)
    requires Isolated(m, roots, pages, kernelEnd, owned) && IsFree(pages, kernelEnd, q)
    requires SameOutside(m, m', q) && forall i :: Read(m', Entry(q, i)) == 0
    ensures q !in roots && Isolated(m', roots + {q}, pages + {q}, kernelEnd, owned)
  {
    assert q !in roots by {
      assert NotATable(m, roots, q);
      TopLevel(m, q, 0);
    }
    assert NotATable(m, roots, q) && NotATable(m', roots, q) by {
      hide NotATable, Forest, Plain, OwnedPages, TablePages, AllConfined, SameOutside, IsFree, Read;
      OutsideSameTables(m, m', roots, q);
      SameTablesNotATable(m, m', roots, q);
    }
    hide Forest, Plain, TablesUsed, OwnedPages, TablePages, AllConfined, SameOutside, NotATable, IsFree, Read;
    WriteIsolated(m, m', roots, pages, kernelEnd, owned, q);
    RootForest(m', roots, q);
    RootPlain(m', roots, q);
    RootPages(m', roots, pages, kernelEnd, owned, q);
    RootConfined(m', roots, owned, q);
  }
}
