/** The iterator over virtual address mappings. */
module Vmiter {
  import opened PageTable
  import opened PhysicalPages

  /** The two addresses differ in a bit that is translated above level `l`. */
  predicate PartAbove(va: Word, va': Word, l: Level)
    requires l < 3
  {
    (va ^ va') & !OffMask(l + 1) != 0
  }

  /** The entry pointer moved to entry `j` of its table: the current index is read off the
      pointer's byte address. */
  function Moved(s: Slot, j: Word): Slot
    requires s.Entry?
  {
    var current := (ByteAddress(s.table, s.index) & 0xFFF) >> 3;
    Entry(s.table, s.index + (j - current))
  }

  function MaskAbsent(ph: Word): Word
  {
    ph & (0 - (ph & PTE_P))
  }

  /** The permissions of an entry, or 0 when the present bit is missing. */
  function PermOf(e: Word, perm: Word): Word
  {
    MaskAbsent(e & perm)
  }

  /** The physical address that a level-`l` entry gives `va`, or -1. */
  function PaOf(e: Word, va: Word, l: Level): Word
  {
    if e & PTE_P != 0 then PhysicalAt(e, va, l) else 0xFFFF_FFFF_FFFF_FFFF
  }

  /** One past the last address that a level-`l` entry for `va` translates. */
  function LastVa(va: Word, l: Level): Word
  {
    (va | OffMask(l)) + 1
  }

  /** What TryMap asserts about its arguments: a page-aligned address when the mapping is to be
      present, and no permission that the levels above take away. */
  predicate MayMap(pa: Word, newPerm: Word, perm: Word)
  {
    && (newPerm & PTE_P != 0 ==> pa & PTE_PAMASK == pa)
    && (newPerm & PTE_P == 0 ==> (pa == 0xFFFF_FFFF_FFFF_FFFF && newPerm == 0) || pa & PTE_P == 0)
    && newPerm & !perm & (PTE_P | PTE_W | PTE_U) == 0
  }

  function NewEntry(pa: Word, newPerm: Word): Word
  {
    if pa == 0xFFFF_FFFF_FFFF_FFFF && newPerm == 0 then 0 else pa | newPerm
  }

  /** From `m` to `m'` the page of `va` got the entry `e`, and nothing else changed. */
  ghost predicate Remapped(m: Memory, m': Memory, roots: set<Word>, pt: Word, va: Word, e: Word, perm: Word)
  {
    forall r, a {:trigger Translate(m', r, a)} :: r in roots ==>
      Translate(m', r, a) ==
        if r == pt && Canonical(a) && SamePage(a, va) then MappingOf(e, a, 0, perm) else Translate(m, r, a)
  }

  class Iterator {
    const mem: PhysicalMemory
    const pt: Word
    var pep: Slot
    var level: Level
    var perm: Word
    var va: Word
    /** The kernel has stopped: it met an entry that points beyond 4 GiB. */
    var panicked: bool

    function Position(): Place
      reads this
    {
      Place(level, pep, perm)
    }

    ghost predicate Valid()
      reads this, mem
    {
      pt in mem.roots && Aligned(pt) && OnPath(mem.memory, pt, va, Position())
    }

    constructor (mem: PhysicalMemory, pt: Word, va: Word)
      requires mem.Valid() && pt in mem.roots
      ensures this.mem == mem && this.pt == pt && this.va == va && Valid()
      ensures Position() == Walk(mem.memory, pt, va)
      ensures panicked <==> TooHigh(Read(mem.memory, pep))
    {
      this.mem, this.pt := mem, pt;
      this.pep, this.level, this.perm, this.va := Entry(pt, 0), 3, INITIAL_PERM, 0;
      new;
      hide OnPath, Walk, TooHigh, Forest, Aligned, Read;
      InitialPosition(mem.memory, pt);
      RealFind(va);
    }

    /** Follow the tables down. */
    method Down()
      modifies this`pep, this`level, this`perm, this`panicked
      ensures Position() == Descend(mem.memory, va, old(Position()))
      ensures panicked <==> TooHigh(Read(mem.memory, pep))
    {
      hide PageIndex, IsTable, Target, Narrow, Read, TooHigh;
      while level > 0 && IsTable(Read(mem.memory, pep))
        invariant Descend(mem.memory, va, Position()) == Descend(mem.memory, va, old(Position()))
        decreases level
      {
        perm := Narrow(perm, Read(mem.memory, pep));
        level := level - 1;
        pep := Entry(Target(Read(mem.memory, pep)), PageIndex(va, level));
      }
      panicked := TooHigh(Read(mem.memory, pep));
    }

    /** Move to another address, keeping the part of the path that the two addresses share. The
        result is that of a walk from the root. */
    method RealFind(newVa: Word)
      requires Valid()
      modifies this`pep, this`level, this`perm, this`va, this`panicked
      ensures Valid() && va == newVa && Position() == Walk(mem.memory, pt, newVa)
      ensures panicked <==> TooHigh(Read(mem.memory, pep))
    {
      hide PageIndex, Canonical, OnPath, Walk, Descend, PartAbove, Moved, TooHigh, Aligned, Read;
      if level == 3 || PartAbove(va, newVa, level) {
        level := 3;
        if Canonical(newVa) {
          perm, pep := INITIAL_PERM, Entry(pt, PageIndex(newVa, 3));
        } else {
          perm, pep := 0, ZeroEntry;
        }
        TopOnPath(mem.memory, pt, newVa);
      } else {
        assert OnPath(mem.memory, pt, va, Position());
        Shortcut(mem.memory, pt, va, newVa, Position());
        pep := Moved(pep, PageIndex(newVa, level));
      }
      va := newVa;
      FromPath(mem.memory, pt, va, Position());
      Down();
    }

    // ----- Readers -----

    function Pa(): Word
      reads this, mem
    {
      PaOf(Read(mem.memory, pep), va, level)
    }

    function Perm(): Word
      reads this, mem
    {
      PermOf(Read(mem.memory, pep), perm)
    }

    /** What the readers say is the translation of the current address. */
    lemma ReadersTranslate()
      requires Valid() && Position() == Walk(mem.memory, pt, va)
      ensures Translate(mem.memory, pt, va) ==
        if Perm() == 0 then Unmapped else Mapped(Pa(), Perm())
      ensures Perm() == 0 ==> Pa() == 0xFFFF_FFFF_FFFF_FFFF
    {
      hide Walk, Read, OnPath, PaOf, PermOf, MappingOf, Aligned;
      PresentOnPath(mem.memory, pt, va, Position());
      ReadEntry(Read(mem.memory, pep), va, level, perm);
    }

    // ----- Moving on -----

    /** Move to the next page, or past a region that is not present. */
    method Next()
      requires Valid()
      modifies this`pep, this`level, this`perm, this`va, this`panicked
      ensures Valid() && Position() == Walk(mem.memory, pt, va)
      ensures va == LastVa(old(va), if old(Perm()) == 0 then old(level) else 0)
      ensures old(Perm()) == 0 ==>
        forall a :: UpperDiff(old(va), a, old(level)) == 0 ==> Translate(mem.memory, pt, a) == Unmapped
      ensures panicked <==> TooHigh(Read(mem.memory, pep))
    {
      hide OnPath, Walk, TooHigh, Aligned, Read, LastVa, UpperDiff, Translate, PermOf;
      var l: Level := 0;
      if level > 0 && Perm() == 0 {
        l := level;
      }
      if Perm() == 0 {
        forall a | UpperDiff(va, a, level) == 0 ensures Translate(mem.memory, pt, a) == Unmapped {
          SkippedUnmapped(mem.memory, pt, va, Position(), a);
        }
      }
      RealFind(LastVa(va, l));
    }

    /** Move past everything that the current entry translates. */
    method NextRange()
      requires Valid()
      modifies this`pep, this`level, this`perm, this`va, this`panicked
      ensures Valid() && Position() == Walk(mem.memory, pt, va) && va == LastVa(old(va), old(level))
      ensures panicked <==> TooHigh(Read(mem.memory, pep))
    {
      hide OnPath, Walk, TooHigh, Aligned, Read, LastVa;
      RealFind(LastVa(va, level));
    }

    // ----- Mapping -----

    /** One round of the loop in TryMap: allocate a table, install it and step into it. */
    method InstallTable() returns (ok: bool)
      requires Valid() && mem.Valid() && level > 0 && Canonical(va) && Read(mem.memory, pep) & PTE_P == 0
      modifies this`pep, this`level, this`perm, this`panicked, mem`memory, mem`pages
      ensures Valid() && mem.Valid()
      ensures Grows(old(mem.memory), mem.memory, mem.roots, old(mem.pages), mem.kernelEnd)
      ensures Taken(old(mem.pages), mem.pages, mem.kernelEnd)
      ensures SameTranslations(old(mem.memory), mem.memory, mem.roots)
      ensures Plain(old(mem.memory), mem.roots) ==> Plain(mem.memory, mem.roots)
      ensures !ok ==> mem.memory == old(mem.memory) && Position() == old(Position()) && panicked == old(panicked)
      ensures old(mem.pages) <= mem.pages && (!ok ==> mem.pages == old(mem.pages) && mem.Left() == 0)
      ensures ok ==> mem.Left() == old(mem.Left()) - 1
      ensures ok ==> level == old(level) - 1 && perm == old(perm) && Read(mem.memory, pep) == 0 && !panicked
    {
      hide OnPath, Walk, TooHigh, Aligned, Read, Canonical, SameOutside, ZeroPage, TableEntry, IsFree, FreeCount, PageAddress, Descend,
        Forest, Grows, Taken, SameTranslations, TablesUsed, NotATable, KeepsTables, OnlyNewTable, Plain;
      ghost var m, pages := mem.memory, mem.pages;
      GrowsNot(m, mem.roots, pages, mem.kernelEnd);
      SameTranslationsSelf(m, mem.roots);
      var q := mem.Kalloc(PAGESIZE);
      if q == 0 {
        return false;
      }
      FreeIsPage(pages, mem.kernelEnd, q);
      ZeroOutside(mem.memory, q);
      OutsideTwice(m, mem.memory, ZeroPage(mem.memory, q), q);
      mem.memory := ZeroPage(mem.memory, q);
      ghost var m2 := mem.memory;
      mem.memory := mem.memory[pep := TableEntry(q)];
      InstallStep(m, m2, mem.memory, mem.roots, pages, mem.kernelEnd, pt, va, Position(), q);
      FromPath(mem.memory, pt, va, Position());
      Down();
      ZeroNotHigh();
      return true;
    }

    /** Map the current page; it fails exactly when there are fewer free pages than missing tables.
        The preconditions are the assertions of the code, and that there is an entry to write for
        the address. */
    method TryMap(pa: Word, newPerm: Word) returns (r: int)
      requires Valid() && mem.Valid() && Aligned(va) && MayMap(pa, newPerm, perm)
      requires newPerm != 0 ==> Canonical(va) && (level > 0 ==> Read(mem.memory, pep) & PTE_P == 0)
      modifies this`pep, this`level, this`perm, this`panicked, mem`memory, mem`pages
      ensures Valid() && mem.Valid() && perm == old(perm)
      ensures Grows(old(mem.memory), mem.memory, mem.roots, old(mem.pages), mem.kernelEnd)
      ensures Taken(old(mem.pages), mem.pages, mem.kernelEnd)
      ensures Plain(old(mem.memory), mem.roots) && !TooHigh(NewEntry(pa, newPerm)) ==> Plain(mem.memory, mem.roots)
      ensures r == 0 || r == -1
      ensures r == -1 <==> newPerm != 0 && old(mem.Left()) < old(level)
      ensures r == -1 ==> mem.Left() == 0
      ensures r == 0 ==> mem.Left() == old(mem.Left()) - (if newPerm != 0 then old(level) else 0)
      ensures old(mem.pages) <= mem.pages
      ensures r == -1 || level > 0 ==> SameTranslations(old(mem.memory), mem.memory, mem.roots)
      ensures r == 0 && level > 0 ==> newPerm == 0 && mem.memory == old(mem.memory) && level == old(level)
      ensures newPerm == 0 ==>
        && mem.pages == old(mem.pages)
        && mem.memory == if old(level) == 0 then old(mem.memory)[old(pep) := NewEntry(pa, newPerm)] else old(mem.memory)
      ensures r == 0 && level == 0 ==>
        Remapped(old(mem.memory), mem.memory, mem.roots, pt, va, NewEntry(pa, newPerm), perm)
      ensures old(level) == 0 ==> panicked == old(panicked) && mem.pages == old(mem.pages)
      ensures old(level) > 0 && r == 0 && newPerm != 0 ==> !panicked
    {
      hide OnPath, Walk, TooHigh, Aligned, Read, Canonical, IsFree, FreeCount, MayMap, NewEntry, Remapped,
        Forest, Grows, Taken, SameTranslations, TablesUsed, NotATable, Translate, Plain;
      ghost var m, pages := mem.memory, mem.pages;
      GrowsNot(m, mem.roots, pages, mem.kernelEnd);
      SameTranslationsSelf(m, mem.roots);
      while level > 0 && newPerm != 0
        invariant Valid() && mem.Valid() && perm == old(perm)
        invariant Grows(m, mem.memory, mem.roots, pages, mem.kernelEnd) && Taken(pages, mem.pages, mem.kernelEnd)
        invariant SameTranslations(m, mem.memory, mem.roots) && (Plain(m, mem.roots) ==> Plain(mem.memory, mem.roots))
        invariant newPerm != 0 && level > 0 ==> Read(mem.memory, pep) & PTE_P == 0
        invariant newPerm == 0 || level == old(level) ==>
          mem.memory == m && mem.pages == pages && Position() == old(Position()) && panicked == old(panicked)
        invariant level <= old(level) && (level < old(level) ==> !panicked)
        invariant mem.Left() == old(mem.Left()) - (old(level) - level) && old(mem.pages) <= mem.pages
        decreases level
      {
        ghost var m1, pages1 := mem.memory, mem.pages;
        var ok := InstallTable();
        GrowsOn(m, m1, mem.memory, mem.roots, pages, pages1, mem.kernelEnd);
        TakenOn(pages, pages1, mem.pages, mem.kernelEnd);
        SameTranslationsOn(m, m1, mem.memory, mem.roots);
        if !ok {
          return -1;
        }
        ZeroEntryAbsent();
      }
      if level == 0 {
        ghost var m1 := mem.memory;
        LeafEntry(m1, pt, va, Position());
        assert newPerm == 0 ==> Canonical(va);
        mem.memory := mem.memory[pep := NewEntry(pa, newPerm)];
        LeafStep(m, m1, mem.memory, mem.roots, pages, mem.pages, mem.kernelEnd, pt, va, Position(), NewEntry(pa, newPerm));
      }
      return 0;
    }
  }

  lemma InitialPosition(m: Memory, pt: Word)
    ensures OnPath(m, pt, 0, Place(3, Entry(pt, 0), INITIAL_PERM))
  {
    TopLevel(m, pt, 0);
  }

  lemma TopOnPath(m: Memory, pt: Word, va: Word)
    ensures OnPath(m, pt, va, Top(pt, va))
  {
    hide PageIndex, Canonical;
    TopLevel(m, pt, va);
  }

  lemma FromPath(m: Memory, pt: Word, va: Word, p: Place)
    requires OnPath(m, pt, va, p)
    ensures Descend(m, va, p) == Walk(m, pt, va) && OnPath(m, pt, va, Walk(m, pt, va))
  {
    DescendFromPath(m, pt, va, p);
    DescendStaysOnPath(m, pt, va, p);
  }

  /** The shortcut: below the level where two addresses part, only the index in the table
      changes, and pointer arithmetic finds it. */
  lemma Shortcut(m: Memory, pt: Word, va: Word, newVa: Word, p: Place)
    requires Aligned(pt) && p.level < 3 && OnPath(m, pt, va, p) && !PartAbove(va, newVa, p.level)
    ensures p.pep.Entry? && Canonical(newVa)
    ensures OnPath(m, pt, newVa, p.(pep := Moved(p.pep, PageIndex(newVa, p.level))))
  {
    hide PageIndex, Canonical, TableAt, PermAt, SameIndices, Moved, OffMask;
    ShortcutBits(va, newVa, p.level);
    SamePath(m, pt, va, newVa, p.level);
    TableAligned(m, pt, va, p.level);
    IndexSmall(va, p.level);
    MovedTo(p.pep, PageIndex(newVa, p.level));
  }

  lemma MovedTo(s: Slot, j: Word)
    requires s.Entry? && s.table & 0xFFF == 0 && s.index <= 0x1FF
    ensures Moved(s, j) == Entry(s.table, j)
  {
    IndexFromAddress(s.table, s.index);
  }

  lemma MaskedOff(ph: Word)
    requires ph & PTE_P == 0
    ensures MaskAbsent(ph) == 0
  {
  }

  lemma MaskedOn(ph: Word)
    requires ph & PTE_P != 0
    ensures MaskAbsent(ph) == ph && ph != 0
  {
    OnlyBit(ph);
  }

  lemma OnlyBit(ph: Word)
    requires ph & PTE_P != 0
    ensures ph & PTE_P == 1 && 0 - (ph & PTE_P) == 0xFFFF_FFFF_FFFF_FFFF
  {
  }

  lemma PresentBit(e: Word, perm: Word)
    requires perm & 0xFF9 == 0xFF9
    ensures e & perm & PTE_P == e & PTE_P
  {
  }

  /** No address in the range of an entry that is not present is mapped. */
  lemma SkippedUnmapped(m: Memory, pt: Word, va: Word, p: Place, a: Word)
    requires OnPath(m, pt, va, p) && PermOf(Read(m, p.pep), p.perm) == 0
    requires UpperDiff(va, a, p.level) == 0
    ensures Translate(m, pt, a) == Unmapped
  {
    hide Walk, Read, OffMask, Canonical, UpperDiff, IsTable, TableAt, PermAt, PageIndex, Target, MaskAbsent;
    var e := Read(m, p.pep);
    PresentOnPath(m, pt, va, p);
    if e & PTE_P != 0 {
      MaskedOn(e & p.perm);
    }
    NotPresentNotTable(e);
    if Canonical(va) {
      if p.level > 0 {
        NextOnPath(m, pt, va, p);
      }
      WalkLevel(m, pt, va, p.level);
    } else {
      WalkEnds(m, pt, va);
    }
    BlockSameWalk(m, pt, va, a);
    NoPresentNoMapping(m, a, p);
  }

  /** On a path the present bit of an entry is never masked. */
  lemma PresentOnPath(m: Memory, pt: Word, va: Word, p: Place)
    requires OnPath(m, pt, va, p)
    ensures Read(m, p.pep) & p.perm & PTE_P == Read(m, p.pep) & PTE_P
  {
    hide Read, Canonical, TableAt, PermAt, PageIndex;
    if Canonical(va) {
      PermBits(m, pt, va, p.level);
      PresentBit(Read(m, p.pep), p.perm);
    } else {
      ReadZero(m);
    }
  }

  lemma ReadEntry(e: Word, va: Word, l: Level, perm: Word)
    requires e & perm & PTE_P == e & PTE_P
    ensures MappingOf(e, va, l, perm) == if PermOf(e, perm) == 0 then Unmapped else Mapped(PaOf(e, va, l), PermOf(e, perm))
    ensures PermOf(e, perm) == 0 ==> PaOf(e, va, l) == 0xFFFF_FFFF_FFFF_FFFF
  {
    hide MaskAbsent, Target, OffMask;
    if e & PTE_P == 0 {
      MaskedOff(e & perm);
    } else {
      MaskedOn(e & perm);
    }
  }

  lemma SameTranslationsSelf(m: Memory, roots: set<Word>)
    ensures SameTranslations(m, m, roots)
  {
  }

  lemma ZeroNotHigh()
    ensures !TooHigh(0)
  {
  }

  lemma OutsideTwice(m: Memory, m1: Memory, m2: Memory, q: Word)
    requires SameOutside(m, m1, q) && SameOutside(m1, m2, q)
    ensures SameOutside(m, m2, q)
  {
    hide Read;
  }

  lemma InstallStep(m: Memory, m2: Memory, m3: Memory, roots: set<Word>, pages: set<Word>, kernelEnd: Word,
                    pt: Word, va: Word, p: Place, q: Word)
    requires Forest(m, roots) && TablesUsed(m, roots, pages, kernelEnd) && pt in roots
    requires IsFree(pages, kernelEnd, q) && PageAddress(q)
    requires SameOutside(m, m2, q) && forall i :: Read(m2, Entry(q, i)) == 0
    requires Canonical(va) && p.level > 0 && OnPath(m, pt, va, p) && Read(m, p.pep) & PTE_P == 0
    requires m3 == m2[p.pep := TableEntry(q)] && q < MEMSIZE_PHYSICAL
    ensures Forest(m3, roots) && SameTranslations(m, m3, roots)
    ensures Grows(m, m3, roots, pages, kernelEnd) && TablesUsed(m3, roots, pages + {q}, kernelEnd)
    ensures Taken(pages, pages + {q}, kernelEnd)
    ensures OnPath(m3, pt, va, p) && (Plain(m, roots) ==> Plain(m3, roots))
    ensures Walk(m3, pt, va).level == p.level - 1 && Walk(m3, pt, va).perm == p.perm && Read(m3, Walk(m3, pt, va).pep) == 0
  {
    hide TableAt, PermAt, Walk, Read, Canonical, PageIndex, TableEntry, PageAddress, IsFree, Forest, SameTranslations,
      SameOutside, NotATable, KeepsTables, OnlyNewTable, Grows, Taken, Plain;
    InstallFacts(m, m2, m3, roots, pt, va, p.level, q);
    GrowsByOne(m, m3, roots, pages, kernelEnd, q);
    TakePage(pages, kernelEnd, q);
    OnPathKept(m, m3, roots, pt, va, p);
  }

  lemma TakenOn(pages: set<Word>, pages1: set<Word>, pages2: set<Word>, kernelEnd: Word)
    requires Taken(pages, pages1, kernelEnd) && Taken(pages1, pages2, kernelEnd)
    ensures Taken(pages, pages2, kernelEnd)
  {
    hide IsFree;
  }

  lemma SameTranslationsOn(m: Memory, m1: Memory, m2: Memory, roots: set<Word>)
    requires SameTranslations(m, m1, roots) && SameTranslations(m1, m2, roots)
    ensures SameTranslations(m, m2, roots)
  {
    hide Translate;
  }

  lemma LeafEntry(m: Memory, pt: Word, va: Word, p: Place)
    requires p.level == 0 && OnPath(m, pt, va, p)
    ensures Canonical(va) && p.pep.Entry? && TableAt(m, pt, va, 0).Some? && p.pep == EntryOn(m, pt, va, 0)
  {
    hide TableAt, PermAt, Canonical, PageIndex;
  }

  lemma LeafStep(m: Memory, m1: Memory, m2: Memory, roots: set<Word>, pages: set<Word>, pages1: set<Word>, kernelEnd: Word,
                 pt: Word, va: Word, p: Place, e: Word)
    requires Forest(m1, roots) && pt in roots && p.level == 0 && OnPath(m1, pt, va, p) && m2 == m1[p.pep := e]
    requires Grows(m, m1, roots, pages, kernelEnd) && SameTranslations(m, m1, roots)
    requires TablesUsed(m1, roots, pages1, kernelEnd)
    ensures Forest(m2, roots) && Grows(m, m2, roots, pages, kernelEnd) && TablesUsed(m2, roots, pages1, kernelEnd)
    ensures OnPath(m2, pt, va, p) && Remapped(m, m2, roots, pt, va, e, p.perm)
    ensures Plain(m1, roots) && !TooHigh(e) ==> Plain(m2, roots)
  {
    hide TableAt, PermAt, Canonical, PageIndex, Forest, Translate, IsFree, MappingOf, SamePage, Grows, NotATable, KeepsTables, SameTables, Plain, TooHigh;
    LeafEntry(m1, pt, va, p);
    LeafSameTables(m1, m2, roots, pt, va, e);
    SameTablesForest(m1, m2, roots);
    GrowsSame(m, m1, m2, roots, pages, kernelEnd);
    OnPathKept(m1, m2, roots, pt, va, p);
    if Plain(m1, roots) && !TooHigh(e) {
      LeafPlain(m1, m2, roots, pt, va, e);
    }
    forall q | IsFree(pages1, kernelEnd, q) ensures NotATable(m2, roots, q) {
      SameTablesNotATable(m1, m2, roots, q);
    }
    forall r, a | r in roots
      ensures Translate(m2, r, a) ==
        if r == pt && Canonical(a) && SamePage(a, va) then MappingOf(e, a, 0, p.perm) else Translate(m, r, a)
    {
      LeafRemapped(m1, m2, roots, pt, va, p, e, r, a);
      assert Translate(m1, r, a) == Translate(m, r, a);
    }
  }

  lemma LeafSameTables(m: Memory, m': Memory, roots: set<Word>, pt: Word, va: Word, e: Word)
    requires Forest(m, roots) && pt in roots && TableAt(m, pt, va, 0).Some? && m' == m[EntryOn(m, pt, va, 0) := e]
    ensures SameTables(m, m', roots) && KeepsTables(m, m', roots)
  {
    hide TableAt, PermAt, Forest, PageIndex;
    forall r, a, l: Level | r in roots
      ensures TableAt(m', r, a, l) == TableAt(m, r, a, l)
      ensures TableAt(m, r, a, l).Some? ==> PermAt(m', r, a, l) == PermAt(m, r, a, l)
    {
      LeafWriteKeepsTables(m, roots, pt, va, e, r, a, l);
    }
  }

  lemma GrowsSame(m: Memory, m1: Memory, m2: Memory, roots: set<Word>, pages: set<Word>, kernelEnd: Word)
    requires Grows(m, m1, roots, pages, kernelEnd) && SameTables(m1, m2, roots)
    ensures Grows(m, m2, roots, pages, kernelEnd)
  {
    hide TableAt, PermAt, IsFree;
  }

  lemma LeafRemapped(m: Memory, m': Memory, roots: set<Word>, pt: Word, va: Word, p: Place, e: Word, r: Word, a: Word)
    requires Forest(m, roots) && pt in roots && p.level == 0 && OnPath(m, pt, va, p) && m' == m[p.pep := e] && r in roots
    ensures Translate(m', r, a) ==
      if r == pt && Canonical(a) && SamePage(a, va) then MappingOf(e, a, 0, p.perm) else Translate(m, r, a)
  {
    hide TableAt, PermAt, Forest, PageIndex, Canonical, Walk, Read, SameIndices, MappingOf;
    LeafEntry(m, pt, va, p);
    LeafWriteFrame(m, roots, pt, va, e, r, a);
    if r == pt && Canonical(a) && SamePage(a, va) {
      SamePath(m, pt, a, va, 0);
      WalkLevel(m, pt, a, 0);
      ReadWritten(m, p.pep, e);
    }
  }

  lemma EntryBits(pa: Word, newPerm: Word)
    requires pa & PTE_PAMASK == pa && newPerm & !0xFFF == 0
    ensures (pa | newPerm) & 0xFFF == newPerm && (pa | newPerm) & PTE_PAMASK == pa
  {
  }

  lemma FullPerm(perm: Word)
    requires perm & 0xFF9 == 0xFF9 && perm & 0xFFF == perm && perm & 7 == 7
    ensures perm == 0xFFF
  {
  }

  lemma AllowedBits(newPerm: Word, perm: Word, e: Word)
    requires newPerm & !0xFFF == 0 && newPerm & !perm & 7 == 0
    requires perm & 0xFF9 == 0xFF9 && perm & 0xFFF == perm && e & 0xFFF == newPerm
    ensures e & perm == newPerm
  {
  }

  /** A page that TryMap mapped has exactly the given address and permissions, or none if the
      present bit was not given. */
  lemma MappedAs(pa: Word, newPerm: Word, perm: Word, a: Word)
    requires MayMap(pa, newPerm, perm) && newPerm & !0xFFF == 0
    requires perm & 0xFF9 == 0xFF9 && perm & 0xFFF == perm
    ensures MappingOf(NewEntry(pa, newPerm), a, 0, perm) ==
      if newPerm & PTE_P != 0 then Mapped(pa + (a & 0xFFF), newPerm) else Unmapped
  {
    hide MappingOf;
    if newPerm & PTE_P != 0 {
      PresentEntry(pa, newPerm);
      EntryBits(pa, newPerm);
      AllowedBits(newPerm, perm, pa | newPerm);
      MappingIs(pa | newPerm, a, perm, newPerm, pa);
    } else {
      AbsentEntry(pa, newPerm);
      NoPresentBit(NewEntry(pa, newPerm), perm);
      UnmappedIs(NewEntry(pa, newPerm), a, perm);
    }
  }

  lemma PresentEntry(pa: Word, newPerm: Word)
    requires newPerm & PTE_P != 0
    ensures NewEntry(pa, newPerm) == pa | newPerm
  {
  }

  lemma AbsentEntry(pa: Word, newPerm: Word)
    requires newPerm & PTE_P == 0 && ((pa == 0xFFFF_FFFF_FFFF_FFFF && newPerm == 0) || pa & PTE_P == 0)
    ensures NewEntry(pa, newPerm) & PTE_P == 0
  {
  }

  lemma MappingIs(e: Word, a: Word, perm: Word, newPerm: Word, pa: Word)
    requires e & perm == newPerm && newPerm & PTE_P != 0 && e & PTE_PAMASK == pa
    ensures MappingOf(e, a, 0, perm) == Mapped(pa + (a & 0xFFF), newPerm)
  {
  }

  lemma UnmappedIs(e: Word, a: Word, perm: Word)
    requires e & perm & PTE_P == 0
    ensures MappingOf(e, a, 0, perm) == Unmapped
  {
  }

  // ----- Unmapping -----

  /** Memory after TryMap with no permissions on a fresh iterator: nothing is written above level 0. */
  function Unmap(m: Memory, pt: Word, va: Word, e: Word): Memory
  {
    var w := Walk(m, pt, va);
    if w.level == 0 then m[w.pep := e] else m
  }

  /** It always reports success, and it does to memory what Unmap says. */
  method TryUnmap(mem: PhysicalMemory, pt: Word, va: Word, pa: Word) returns (r: int)
    requires mem.Valid() && pt in mem.roots && Aligned(va)
    requires pa == 0xFFFF_FFFF_FFFF_FFFF || pa & PTE_P == 0
    modifies mem`memory, mem`pages
    ensures mem.Valid() && r == 0 && mem.pages == old(mem.pages)
    ensures NewEntry(pa, 0) & PTE_P == 0 && mem.memory == Unmap(old(mem.memory), pt, va, NewEntry(pa, 0))
  {
    hide OnPath, Walk, TooHigh, Aligned, Read, Forest, TablesUsed, Remapped, Grows, Taken, SameTranslations, Plain, FreeCount;
    AbsentEntry(pa, 0);
    var it := new Iterator(mem, pt, va);
    MayUnmap(pa, it.perm);
    r := it.TryMap(pa, 0);
  }

  lemma MayUnmap(pa: Word, perm: Word)
    requires pa == 0xFFFF_FFFF_FFFF_FFFF || pa & PTE_P == 0
    ensures MayMap(pa, 0, perm)
  {
  }

  /** Unmapping works if and only if the page does not lie under a large page. */
  lemma UnmapIff(m: Memory, roots: set<Word>, pt: Word, va: Word, e: Word)
    requires Forest(m, roots) && pt in roots && Canonical(va) && e & PTE_P == 0
    ensures var w := Walk(m, pt, va);
      Translate(Unmap(m, pt, va, e), pt, va) == Unmapped <==> w.level == 0 || Read(m, w.pep) & PTE_P == 0
  {
    hide Walk, Forest, TableAt, PermAt, Read, IsTable, PageIndex, Canonical, SamePage, MappingOf, OnPath;
    var w := Walk(m, pt, va);
    WalkEnds(m, pt, va);
    PresentOnPath(m, pt, va, w);
    if w.level == 0 {
      LeafRemapped(m, Unmap(m, pt, va, e), roots, pt, va, w, e, pt, va);
      SamePageSelf(va);
      NoPresentBit(e, w.perm);
      UnmappedIs(e, va, w.perm);
    } else if Read(m, w.pep) & PTE_P == 0 {
      NoPresentNoMapping(m, va, w);
    } else {
      PresentIsMapped(Read(m, w.pep), va, w.level, w.perm);
    }
  }

  lemma SamePageSelf(va: Word)
    ensures SamePage(va, va)
  {
    hide PageIndex;
  }

  lemma PresentIsMapped(e: Word, va: Word, l: Level, perm: Word)
    requires e & perm & PTE_P == e & PTE_P && e & PTE_P != 0
    ensures MappingOf(e, va, l, perm) != Unmapped
  {
    hide Target, OffMask;
  }

  /** Under a large page the page stays mapped. */
  lemma LargePageStaysMapped()
    ensures var m := map[Entry(0x1000, 0) := 0x2007, Entry(0x2000, 0) := 0x4000_0087];
      (forall e :: Unmap(m, 0x1000, 0, e) == m) && Translate(m, 0x1000, 0) == Mapped(0x4000_0000, 0x87)
  {
    var m: Memory := map[Entry(0x1000, 0) := 0x2007, Entry(0x2000, 0) := 0x4000_0087];
    assert Read(m, Entry(0x1000, 0)) == 0x2007 && Read(m, Entry(0x2000, 0)) == 0x4000_0087;
    assert Walk(m, 0x1000, 0) == Place(2, Entry(0x2000, 0), 0xFFF);
  }
}
