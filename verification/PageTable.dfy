/** 4-level x86-64 page tables: 64-bit entries in the format of section 4.5 of the Intel 64 and
    IA-32 Architectures Software Developer's Manual, Volume 3A. Level 3 is the root table,
    level 0 holds the entries of 4 KiB pages. */
module PageTable {
  import opened Words

  type Word = bv64

  const PTE_P: Word := 0x1
  const PTE_W: Word := 0x2
  const PTE_U: Word := 0x4
  const PTE_PS: Word := 0x80
  const PTE_PAMASK: Word := 0x000F_FFFF_FFFF_F000
  const INITIAL_PERM: Word := 0xFFF
  const VA_LOWMAX: Word := 0x0000_7FFF_FFFF_FFFF
  const VA_HIGHMIN: Word := 0xFFFF_8000_0000_0000

  type Level = l: int | 0 <= l <= 3

  /** Where an entry lies: the physical address of its table and the index in the table. The
      constant zero entry stands for non-canonical addresses. */
  datatype Slot = Entry(table: Word, index: Word) | ZeroEntry

  /** Entries that were never written, or were zeroed, read as 0. */
  type Memory = map<Slot, Word>

  function Read(m: Memory, s: Slot): Word
  {
    if s.Entry? && s in m then m[s] else 0
  }

  function PageIndex(va: Word, l: Level): Word
  {
    match l
    case 0 => (va >> 12) & 0x1FF
    case 1 => (va >> 21) & 0x1FF
    case 2 => (va >> 30) & 0x1FF
    case 3 => (va >> 39) & 0x1FF
  }

  /** The bits of an address below the part that level `l` translates. */
  function OffMask(l: int): Word
  {
    match l
    case 0 => 0xFFF
    case 1 => 0x1F_FFFF
    case 2 => 0x3FFF_FFFF
    case 3 => 0x7F_FFFF_FFFF
    case _ => 0xFFFF_FFFF_FFFF
  }

  predicate Canonical(va: Word)
  {
    va <= VA_LOWMAX || va >= VA_HIGHMIN
  }

  /** The entry leads to a lower table: present, and not a large page. */
  predicate IsTable(e: Word)
  {
    e & (PTE_P | PTE_PS) == PTE_P
  }

  function Target(e: Word): Word
  {
    e & PTE_PAMASK
  }

  function Narrow(perm: Word, e: Word): Word
  {
    perm & (e | !(PTE_P | PTE_W | PTE_U))
  }

  // ----- Entry addresses -----

  /** The byte address of an entry in its page-aligned table. */
  function ByteAddress(table: Word, index: Word): Word
  {
    table + 8 * index
  }

  /** An entry's index can be read off its byte address. */
  lemma IndexFromAddress(table: Word, index: Word)
    requires table & 0xFFF == 0 && index <= 0x1FF
    ensures (ByteAddress(table, index) & 0xFFF) >> 3 == index
    ensures ByteAddress(table, index) & !0xFFF == table
  {
  }

  // ----- Walking -----

  /** A place in a page table: the level, the entry and the permissions that the levels above
      allow. */
  datatype Place = Place(level: Level, pep: Slot, perm: Word)

  /** Follow table entries as far down as they go. */
  function Descend(m: Memory, va: Word, p: Place): Place
    decreases p.level
  {
    var e := Read(m, p.pep);
    if p.level > 0 && IsTable(e)
    then Descend(m, va, Place(p.level - 1, Entry(Target(e), PageIndex(va, p.level - 1)), Narrow(p.perm, e)))
    else p
  }

  function Top(root: Word, va: Word): Place
  {
    if Canonical(va) then Place(3, Entry(root, PageIndex(va, 3)), INITIAL_PERM) else Place(3, ZeroEntry, 0)
  }

  /** The walk from the root that the processor would make. */
  function Walk(m: Memory, root: Word, va: Word): Place
  {
    Descend(m, va, Top(root, va))
  }

  /** The physical address and permissions of an address, if it is mapped. */
  datatype Mapping = Unmapped | Mapped(pa: Word, perm: Word)

  /** Where the page of an entry starts. */
  function PageStart(e: Word, l: Level): Word
  {
    if l > 0 then Target(e) & !0x1000 else Target(e)
  }

  /** The address that an entry of the given level gives to `va`. */
  function PhysicalAt(e: Word, va: Word, l: Level): Word
  {
    PageStart(e, l) + (va & OffMask(l))
  }

  /** What an entry of the given level says about `va`, under the permissions from above. */
  function MappingOf(e: Word, va: Word, l: Level, perm: Word): Mapping
  {
    if e & perm & PTE_P != 0 then Mapped(PhysicalAt(e, va, l), e & perm) else Unmapped
  }

  function MappingAt(m: Memory, va: Word, p: Place): Mapping
  {
    MappingOf(Read(m, p.pep), va, p.level, p.perm)
  }

  function Translate(m: Memory, root: Word, va: Word): Mapping
  {
    MappingAt(m, va, Walk(m, root, va))
  }

  // ----- Positions on the way down -----

  /** The table in which level `l` of the walk for `va` looks, if the walk gets there. */
  function TableAt(m: Memory, root: Word, va: Word, l: Level): Option<Word>
    decreases 3 - l
  {
    if l == 3 then Some(root) else
    match TableAt(m, root, va, l + 1)
    case None => None
    case Some(pt) =>
      var e := Read(m, Entry(pt, PageIndex(va, l + 1)));
      if IsTable(e) then Some(Target(e)) else None
  }

  /** The entry that level `l` of the walk reads. */
  function EntryOn(m: Memory, root: Word, va: Word, l: Level): Slot
    requires TableAt(m, root, va, l).Some?
  {
    Entry(TableAt(m, root, va, l).value, PageIndex(va, l))
  }

  function PermAt(m: Memory, root: Word, va: Word, l: Level): Word
    requires TableAt(m, root, va, l).Some?
    decreases 3 - l
  {
    if l == 3 then INITIAL_PERM
    else Narrow(PermAt(m, root, va, l + 1), Read(m, EntryOn(m, root, va, l + 1)))
  }

  function PlaceAt(m: Memory, root: Word, va: Word, l: Level): Place
    requires TableAt(m, root, va, l).Some?
  {
    Place(l, EntryOn(m, root, va, l), PermAt(m, root, va, l))
  }

  /** `p` lies on the walk for `va` (perhaps not at its end). */
  predicate OnPath(m: Memory, root: Word, va: Word, p: Place)
  {
    if Canonical(va) then TableAt(m, root, va, p.level).Some? && p == PlaceAt(m, root, va, p.level)
    else p == Place(3, ZeroEntry, 0)
  }

  lemma ZeroNotTable()
    ensures !IsTable(0)
  {
  }

  /** From any place on the path, going down ends where the full walk ends. */
  lemma {:induction false} DescendFromPath(m: Memory, root: Word, va: Word, p: Place)
    requires OnPath(m, root, va, p)
    ensures Descend(m, va, p) == Walk(m, root, va)
    decreases 3 - p.level
  {
    hide PageIndex, IsTable, Target, Narrow, Canonical;
    if p.level < 3 {
      DescendFromPath(m, root, va, PlaceAt(m, root, va, p.level + 1));
    }
  }

  /** One level of the walk, spelled out. */
  lemma LevelBelow(m: Memory, root: Word, va: Word, l: Level)
    requires l < 3
    ensures TableAt(m, root, va, l + 1).None? ==> TableAt(m, root, va, l).None?
    ensures TableAt(m, root, va, l + 1).Some? ==>
      var e := Read(m, EntryOn(m, root, va, l + 1));
      TableAt(m, root, va, l) == if IsTable(e) then Some(Target(e)) else None
    ensures TableAt(m, root, va, l).Some? ==>
      && TableAt(m, root, va, l + 1).Some?
      && PermAt(m, root, va, l) == Narrow(PermAt(m, root, va, l + 1), Read(m, EntryOn(m, root, va, l + 1)))
  {
    hide PageIndex, IsTable, Target, Narrow;
  }

  lemma TopLevel(m: Memory, root: Word, va: Word)
    ensures TableAt(m, root, va, 3) == Some(root) && PermAt(m, root, va, 3) == INITIAL_PERM
  {
  }

  lemma NextOnPath(m: Memory, root: Word, va: Word, p: Place)
    requires Canonical(va) && OnPath(m, root, va, p) && p.level > 0
    ensures TableAt(m, root, va, p.level - 1).Some? <==> IsTable(Read(m, p.pep))
    ensures
      var e := Read(m, p.pep);
      IsTable(e) ==>
        PlaceAt(m, root, va, p.level - 1)
          == Place(p.level - 1, Entry(Target(e), PageIndex(va, p.level - 1)), Narrow(p.perm, e))
  {
    hide PageIndex, IsTable, Target, Narrow, Canonical;
  }

  /** Going down from a place on the path stays on the path and ends at the lowest table. */
  lemma {:induction false} DescendStaysOnPath(m: Memory, root: Word, va: Word, p: Place)
    requires OnPath(m, root, va, p)
    ensures var q := Descend(m, va, p);
      && OnPath(m, root, va, q) && q.level <= p.level
      && (q.level > 0 ==> !IsTable(Read(m, q.pep)))
      && (q.level > 0 && Canonical(va) ==> TableAt(m, root, va, q.level - 1).None?)
    decreases p.level
  {
    ZeroNotTable();
    hide PageIndex, IsTable, Target, Narrow, Canonical, TableAt, PermAt, PlaceAt;
    if Canonical(va) && p.level > 0 {
      NextOnPath(m, root, va, p);
      if IsTable(Read(m, p.pep)) {
        DescendStaysOnPath(m, root, va, PlaceAt(m, root, va, p.level - 1));
      }
    }
  }

  lemma WalkEnds(m: Memory, root: Word, va: Word)
    ensures var p := Walk(m, root, va);
      && OnPath(m, root, va, p)
      && (p.level > 0 ==> !IsTable(Read(m, p.pep)))
      && (p.level > 0 && Canonical(va) ==> TableAt(m, root, va, p.level - 1).None?)
  {
    hide PageIndex, IsTable, Target, Narrow, Canonical;
    DescendStaysOnPath(m, root, va, Top(root, va));
  }

  lemma {:induction false} LowerNone(m: Memory, root: Word, va: Word, l: Level, k: Level)
    requires TableAt(m, root, va, l).None? && k <= l
    ensures TableAt(m, root, va, k).None?
    decreases l - k
  {
    if k < l {
      LowerNone(m, root, va, l, k + 1);
    }
  }

  // ----- Addresses that share a path -----

  /** The two addresses use the same entries at all levels above `l`. */
  predicate SameIndices(va: Word, va': Word, l: Level)
  {
    && (l < 3 ==> PageIndex(va, 3) == PageIndex(va', 3))
    && (l < 2 ==> PageIndex(va, 2) == PageIndex(va', 2))
    && (l < 1 ==> PageIndex(va, 1) == PageIndex(va', 1))
  }

  predicate SamePage(va: Word, va': Word)
  {
    SameIndices(va, va', 0) && PageIndex(va, 0) == PageIndex(va', 0)
  }

  lemma Bits3(va: Word, va': Word)
    requires (va ^ va') & !0x7F_FFFF_FFFF == 0
    ensures (va >> 39) & 0x1FF == (va' >> 39) & 0x1FF
    ensures Canonical(va) == Canonical(va')
  {
  }

  lemma Bits2(va: Word, va': Word)
    requires (va ^ va') & !0x3FFF_FFFF == 0
    ensures (va >> 30) & 0x1FF == (va' >> 30) & 0x1FF && (va ^ va') & !0x7F_FFFF_FFFF == 0
  {
  }

  lemma Bits1(va: Word, va': Word)
    requires (va ^ va') & !0x1F_FFFF == 0
    ensures (va >> 21) & 0x1FF == (va' >> 21) & 0x1FF && (va ^ va') & !0x3FFF_FFFF == 0
  {
  }

  /** Agreement on all bits above level l + 1 means the same path down to level l. */
  lemma ShortcutBits(va: Word, va': Word, l: Level)
    requires l < 3 && (va ^ va') & !OffMask(l + 1) == 0
    ensures SameIndices(va, va', l) && Canonical(va) == Canonical(va')
  {
    hide Canonical;
    if l == 0 {
      Bits1(va, va');
    }
    if l <= 1 {
      Bits2(va, va');
    }
    Bits3(va, va');
  }

  lemma {:induction false} SamePath(m: Memory, root: Word, va: Word, va': Word, l: Level)
    requires SameIndices(va, va', l)
    ensures TableAt(m, root, va, l) == TableAt(m, root, va', l)
    ensures TableAt(m, root, va, l).Some? ==> PermAt(m, root, va, l) == PermAt(m, root, va', l)
    decreases 3 - l
  {
    hide PageIndex, IsTable, Target, Narrow;
    if l < 3 {
      SamePath(m, root, va, va', l + 1);
    }
  }

  /** Two memories whose tables agree along the path have the same walk. */
  lemma SameTablesSameWalk(m: Memory, m': Memory, root: Word, va: Word)
    requires forall l: Level :: TableAt(m', root, va, l) == TableAt(m, root, va, l)
    requires forall l: Level :: TableAt(m, root, va, l).Some? ==> PermAt(m', root, va, l) == PermAt(m, root, va, l)
    ensures Walk(m', root, va) == Walk(m, root, va)
  {
    hide PageIndex, IsTable, Target, Narrow, Canonical, Walk, TableAt, PermAt;
    WalkEnds(m, root, va);
    WalkEnds(m', root, va);
    if Canonical(va) {
      var p, q := Walk(m, root, va), Walk(m', root, va);
      if p.level < q.level {
        LowerNone(m', root, va, q.level - 1, p.level);
        assert false;
      } else if q.level < p.level {
        LowerNone(m, root, va, p.level - 1, q.level);
        assert false;
      }
    }
  }

  // ----- Forests of page tables -----

  /** Every table is used in one place of one page table only. */
  ghost predicate Forest(m: Memory, roots: set<Word>)
  {
    forall r, va, l: Level, r', va', l': Level {:trigger TableAt(m, r, va, l), TableAt(m, r', va', l')} ::
      r in roots && r' in roots && TableAt(m, r, va, l).Some? && TableAt(m, r', va', l') == TableAt(m, r, va, l)
      ==> r == r' && l == l' && SameIndices(va, va', l)
  }

  /** The page is no table of any of the page tables. */
  ghost predicate NotATable(m: Memory, roots: set<Word>, p: Word)
  {
    forall r, va, l: Level {:trigger TableAt(m, r, va, l)} :: r in roots ==> TableAt(m, r, va, l) != Some(p)
  }

  // ----- Writing an entry -----

  /** The walk does not read entry `w` at any level above `l`. */
  predicate Avoids(m: Memory, root: Word, va: Word, l: Level, w: Slot)
    decreases 3 - l
  {
    l == 3 ||
    (Avoids(m, root, va, l + 1, w) && (TableAt(m, root, va, l + 1).Some? ==> EntryOn(m, root, va, l + 1) != w))
  }

  lemma ReadOther(m: Memory, w: Slot, e: Word, s: Slot)
    requires s != w
    ensures Read(m[w := e], s) == Read(m, s)
  {
  }

  /** A write to an entry that the upper levels of a walk do not read. */
  lemma {:induction false} WriteElsewhere(m: Memory, w: Slot, e: Word, root: Word, va: Word, l: Level)
    requires Avoids(m, root, va, l, w)
    ensures TableAt(m[w := e], root, va, l) == TableAt(m, root, va, l)
    ensures TableAt(m, root, va, l).Some? ==> PermAt(m[w := e], root, va, l) == PermAt(m, root, va, l)
    decreases 3 - l
  {
    hide PageIndex, IsTable, Target, Narrow, TableAt, PermAt, Read;
    var m' := m[w := e];
    if l == 3 {
      TopLevel(m, root, va);
      TopLevel(m', root, va);
    } else {
      WriteElsewhere(m, w, e, root, va, l + 1);
      LevelBelow(m, root, va, l);
      LevelBelow(m', root, va, l);
      if TableAt(m, root, va, l + 1).Some? {
        ReadOther(m, w, e, EntryOn(m, root, va, l + 1));
      }
    }
  }

  /** A write to a level-0 entry changes no table of any page table. */
  lemma LeafWriteKeepsTables(m: Memory, roots: set<Word>, r0: Word, va0: Word, e: Word, root: Word, va: Word, l: Level)
    requires Forest(m, roots) && r0 in roots && root in roots && TableAt(m, r0, va0, 0).Some?
    ensures var m' := m[EntryOn(m, r0, va0, 0) := e];
      && TableAt(m', root, va, l) == TableAt(m, root, va, l)
      && (TableAt(m, root, va, l).Some? ==> PermAt(m', root, va, l) == PermAt(m, root, va, l))
  {
    hide PageIndex, IsTable, Target, Narrow, TableAt, PermAt, SameIndices;
    var w := EntryOn(m, r0, va0, 0);
    LeafAvoided(m, roots, r0, va0, root, va, l);
    WriteElsewhere(m, w, e, root, va, l);
  }

  lemma {:induction false} LeafAvoided(m: Memory, roots: set<Word>, r0: Word, va0: Word, root: Word, va: Word, l: Level)
    requires Forest(m, roots) && r0 in roots && root in roots && TableAt(m, r0, va0, 0).Some?
    ensures Avoids(m, root, va, l, EntryOn(m, r0, va0, 0))
    decreases 3 - l
  {
    hide PageIndex, IsTable, Target, Narrow, TableAt, SameIndices;
    if l < 3 {
      LeafAvoided(m, roots, r0, va0, root, va, l + 1);
      if TableAt(m, root, va, l + 1).Some? {
        assert TableAt(m, r0, va0, 0) != TableAt(m, root, va, l + 1);
      }
    }
  }

  /** A level-0 write changes the translation of its own page in its own page table only. */
  lemma LeafWriteFrame(m: Memory, roots: set<Word>, r0: Word, va0: Word, e: Word, root: Word, va: Word)
    requires Forest(m, roots) && r0 in roots && root in roots && TableAt(m, r0, va0, 0).Some?
    requires Canonical(va0)
    ensures var m' := m[EntryOn(m, r0, va0, 0) := e];
      && Walk(m', root, va) == Walk(m, root, va)
      && (root != r0 || !SamePage(va, va0) || !Canonical(va) ==> Translate(m', root, va) == Translate(m, root, va))
  {
    hide PageIndex, IsTable, Target, Narrow, TableAt, PermAt, SameIndices, Walk, Canonical, MappingAt;
    var w := EntryOn(m, r0, va0, 0);
    var m' := m[w := e];
    forall l: Level
      ensures TableAt(m', root, va, l) == TableAt(m, root, va, l)
      ensures TableAt(m, root, va, l).Some? ==> PermAt(m', root, va, l) == PermAt(m, root, va, l)
    {
      LeafWriteKeepsTables(m, roots, r0, va0, e, root, va, l);
    }
    SameTablesSameWalk(m, m', root, va);
    WalkEnds(m, root, va);
    var p := Walk(m, root, va);
    if p.pep != w {
      SameReadSameMapping(m, m', va, p);
    } else {
      assert Canonical(va);
      assert TableAt(m, root, va, p.level) == TableAt(m, r0, va0, 0);
      assert root == r0 && p.level == 0 && SameIndices(va, va0, 0);
    }
  }

  lemma SameReadSameMapping(m: Memory, m': Memory, va: Word, p: Place)
    requires Read(m', p.pep) == Read(m, p.pep)
    ensures MappingAt(m', va, p) == MappingAt(m, va, p)
  {
    hide MappingOf;
  }

  // ----- Installing a table -----

  /** An entry for a new table: its address, present, writable, user-accessible. */
  function TableEntry(p: Word): Word
  {
    p | PTE_P | PTE_W | PTE_U
  }

  predicate PageAddress(p: Word)
  {
    p & PTE_PAMASK == p
  }

  lemma TableEntryBits(p: Word, perm: Word)
    requires PageAddress(p)
    ensures IsTable(TableEntry(p)) && Target(TableEntry(p)) == p && Narrow(perm, TableEntry(p)) == perm
  {
  }

  /** The two memories differ in page `p` only. */
  ghost predicate SameOutside(m: Memory, m': Memory, p: Word)
  {
    forall s: Slot {:trigger Read(m', s)} :: s.Entry? && s.table != p ==> Read(m', s) == Read(m, s)
  }

  /** Writing a page that is no table changes no table. */
  lemma {:induction false} OutsideKeepsTables(m: Memory, m': Memory, roots: set<Word>, p: Word, root: Word, va: Word, l: Level)
    requires NotATable(m, roots, p) && root in roots && SameOutside(m, m', p)
    ensures TableAt(m', root, va, l) == TableAt(m, root, va, l)
    ensures TableAt(m, root, va, l).Some? ==> PermAt(m', root, va, l) == PermAt(m, root, va, l)
    ensures TableAt(m, root, va, l).Some? ==> Read(m', EntryOn(m, root, va, l)) == Read(m, EntryOn(m, root, va, l))
    decreases 3 - l
  {
    hide PageIndex, IsTable, Target, Narrow, TableAt, PermAt, Read;
    assert TableAt(m, root, va, l) != Some(p);
    if l < 3 {
      OutsideKeepsTables(m, m', roots, p, root, va, l + 1);
      LevelBelow(m, root, va, l);
      LevelBelow(m', root, va, l);
    } else {
      TopLevel(m, root, va);
      TopLevel(m', root, va);
    }
  }

  /** The two memories hold the same tables. */
  ghost predicate SameTables(m: Memory, m': Memory, roots: set<Word>)
  {
    forall r, va, l: Level {:trigger TableAt(m', r, va, l)} :: r in roots ==>
      && TableAt(m', r, va, l) == TableAt(m, r, va, l)
      && (TableAt(m, r, va, l).Some? ==> PermAt(m', r, va, l) == PermAt(m, r, va, l))
  }

  lemma OutsideSameTables(m: Memory, m': Memory, roots: set<Word>, p: Word)
    requires NotATable(m, roots, p) && SameOutside(m, m', p)
    ensures SameTables(m, m', roots)
  {
    hide TableAt, PermAt, SameOutside, NotATable;
    forall r, va, l: Level | r in roots
      ensures TableAt(m', r, va, l) == TableAt(m, r, va, l)
      ensures TableAt(m, r, va, l).Some? ==> PermAt(m', r, va, l) == PermAt(m, r, va, l)
    {
      OutsideKeepsTables(m, m', roots, p, r, va, l);
    }
  }

  lemma SameTablesForest(m: Memory, m': Memory, roots: set<Word>)
    requires Forest(m, roots) && SameTables(m, m', roots)
    ensures Forest(m', roots)
  {
    hide TableAt, PermAt, SameIndices;
  }

  lemma SameTablesSameEnd(m: Memory, m': Memory, roots: set<Word>, root: Word, va: Word)
    requires SameTables(m, m', roots) && root in roots
    ensures Walk(m', root, va) == Walk(m, root, va)
  {
    hide TableAt, PermAt, Walk;
    SameTablesSameWalk(m, m', root, va);
  }

  lemma OutsideTranslate(m: Memory, m': Memory, roots: set<Word>, p: Word, root: Word, va: Word)
    requires NotATable(m, roots, p) && root in roots && SameOutside(m, m', p)
    ensures Walk(m', root, va) == Walk(m, root, va)
    ensures Translate(m', root, va) == Translate(m, root, va)
  {
    hide PageIndex, TableAt, PermAt, Walk, Canonical, MappingAt, IsTable, NotATable, SameOutside, SameTables, Read;
    OutsideSameTables(m, m', roots, p);
    SameTablesSameEnd(m, m', roots, root, va);
    WalkEnds(m, root, va);
    var w := Walk(m, root, va);
    ReadZero(m);
    ReadZero(m');
    if Canonical(va) {
      OutsideKeepsTables(m, m', roots, p, root, va, w.level);
    }
    SameReadSameMapping(m, m', va, w);
  }

  lemma ReadZero(m: Memory)
    ensures Read(m, ZeroEntry) == 0
  {
  }

  /** Which tables exist after an empty table `q` was installed at level `l0` of the path of
      va0: the old ones, and `q` on that path. */
  lemma {:induction false} TablesAfterInstall(m: Memory, roots: set<Word>, r0: Word, va0: Word, l0: Level, q: Word, root: Word, va: Word, l: Level)
    requires Forest(m, roots) && r0 in roots && root in roots && l0 > 0
    requires TableAt(m, r0, va0, l0).Some? && !IsTable(Read(m, EntryOn(m, r0, va0, l0)))
    requires PageAddress(q) && NotATable(m, roots, q) && forall i :: Read(m, Entry(q, i)) == 0
    ensures var m' := m[EntryOn(m, r0, va0, l0) := TableEntry(q)];
      && TableAt(m', root, va, l) == (if root == r0 && l == l0 - 1 && SameIndices(va, va0, l) then Some(q) else TableAt(m, root, va, l))
      && (TableAt(m, root, va, l).Some? ==> PermAt(m', root, va, l) == PermAt(m, root, va, l))
      && (root == r0 && l == l0 - 1 && SameIndices(va, va0, l) ==> PermAt(m', root, va, l) == PermAt(m, r0, va0, l0))
    decreases 3 - l
  {
    hide PageIndex, IsTable, Target, Narrow, TableAt, PermAt, TableEntry, PageAddress, SameIndices, Read, Forest, NotATable;
    var w := EntryOn(m, r0, va0, l0);
    var m' := m[w := TableEntry(q)];
    if l == 3 {
      TopLevel(m, root, va);
      TopLevel(m', root, va);
    } else {
      TablesAfterInstall(m, roots, r0, va0, l0, q, root, va, l + 1);
      LevelBelow(m, root, va, l);
      LevelBelow(m', root, va, l);
      SameIndicesStep(va, va0, l);
      if root == r0 && l + 1 == l0 && SameIndices(va, va0, l) {
        SamePath(m, root, va, va0, l0);
        TableEntryBits(q, PermAt(m, r0, va0, l0));
        ReadWritten(m, w, TableEntry(q));
      } else if root == r0 && l + 2 == l0 && SameIndices(va, va0, l + 1) {
        BelowInstalled(m, roots, r0, va0, l0, q, root, va);
      } else if TableAt(m, root, va, l + 1).Some? {
        OtherEntry(m, roots, r0, va0, l0, root, va, l + 1);
        ReadOther(m, w, TableEntry(q), EntryOn(m, root, va, l + 1));
      }
    }
  }

  lemma BelowInstalled(m: Memory, roots: set<Word>, r0: Word, va0: Word, l0: Level, q: Word, root: Word, va: Word)
    requires r0 in roots && l0 > 0 && root == r0 && SameIndices(va, va0, l0 - 1)
    requires TableAt(m, r0, va0, l0).Some? && !IsTable(Read(m, EntryOn(m, r0, va0, l0)))
    requires NotATable(m, roots, q) && forall i :: Read(m, Entry(q, i)) == 0
    ensures TableAt(m, root, va, l0 - 1).None?
    ensures !IsTable(Read(m[EntryOn(m, r0, va0, l0) := TableEntry(q)], Entry(q, PageIndex(va, l0 - 1))))
  {
    hide PageIndex, IsTable, Target, Narrow, TableAt, PermAt, TableEntry, SameIndices, Read;
    SamePath(m, root, va, va0, l0 - 1);
    LevelBelow(m, r0, va0, l0 - 1);
    ZeroNotTable();
    ReadOther(m, EntryOn(m, r0, va0, l0), TableEntry(q), Entry(q, PageIndex(va, l0 - 1)));
  }

  lemma ReadWritten(m: Memory, w: Slot, e: Word)
    requires w.Entry?
    ensures Read(m[w := e], w) == e
  {
  }

  /** Entries of one page table that are reached by different paths are different. */
  lemma OtherEntry(m: Memory, roots: set<Word>, r0: Word, va0: Word, l0: Level, root: Word, va: Word, l: Level)
    requires Forest(m, roots) && r0 in roots && root in roots
    requires TableAt(m, r0, va0, l0).Some? && TableAt(m, root, va, l).Some?
    ensures EntryOn(m, root, va, l) == EntryOn(m, r0, va0, l0)
      ==> root == r0 && l == l0 && SameIndices(va, va0, l) && PageIndex(va, l) == PageIndex(va0, l)
  {
    hide PageIndex, TableAt, SameIndices;
    assert TableAt(m, root, va, l) == TableAt(m, r0, va0, l0) || EntryOn(m, root, va, l) != EntryOn(m, r0, va0, l0);
  }

  lemma SameIndicesStep(va: Word, va': Word, l: Level)
    requires l < 3
    ensures SameIndices(va, va', l) <==> SameIndices(va, va', l + 1) && PageIndex(va, l + 1) == PageIndex(va', l + 1)
  {
  }

  /** `m'` is `m` with the empty table `q` installed at level `l0` of the path of va0. */
  ghost predicate Installs(m: Memory, m': Memory, roots: set<Word>, r0: Word, va0: Word, l0: Level, q: Word)
  {
    && r0 in roots && l0 > 0 && Canonical(va0)
    && TableAt(m, r0, va0, l0).Some? && !IsTable(Read(m, EntryOn(m, r0, va0, l0)))
    && PageAddress(q) && NotATable(m, roots, q) && (forall i :: Read(m, Entry(q, i)) == 0)
    && m' == m[EntryOn(m, r0, va0, l0) := TableEntry(q)]
  }

  ghost predicate NewTable(r0: Word, va0: Word, l0: Level, root: Word, va: Word, l: Level)
  {
    root == r0 && l == l0 - 1 && SameIndices(va, va0, l)
  }

  lemma InstalledTables(m: Memory, m': Memory, roots: set<Word>, r0: Word, va0: Word, l0: Level, q: Word, root: Word, va: Word, l: Level)
    requires Forest(m, roots) && Installs(m, m', roots, r0, va0, l0, q) && root in roots
    ensures TableAt(m', root, va, l) == if NewTable(r0, va0, l0, root, va, l) then Some(q) else TableAt(m, root, va, l)
    ensures TableAt(m, root, va, l).Some? ==> PermAt(m', root, va, l) == PermAt(m, root, va, l)
    ensures NewTable(r0, va0, l0, root, va, l) ==> PermAt(m', root, va, l) == PermAt(m, r0, va0, l0)
  {
    hide TableAt, PermAt, SameIndices, Forest, NotATable, Read, IsTable, TableEntry, PageAddress, PageIndex;
    TablesAfterInstall(m, roots, r0, va0, l0, q, root, va, l);
  }

  /** A table can be installed without breaking the forest. */
  lemma InstallForest(m: Memory, m': Memory, roots: set<Word>, r0: Word, va0: Word, l0: Level, q: Word)
    requires Forest(m, roots) && Installs(m, m', roots, r0, va0, l0, q)
    ensures Forest(m', roots)
  {
    hide TableAt, PermAt, Installs, SameIndices;
    assert Forest(m, roots) by { hide Forest; }
    forall r, va, l: Level, r', va', l': Level
      | r in roots && r' in roots && TableAt(m', r, va, l).Some? && TableAt(m', r', va', l') == TableAt(m', r, va, l)
      ensures r == r' && l == l' && SameIndices(va, va', l)
    {
      InstallKeepsApart(m, m', roots, r0, va0, l0, q, r, va, l, r', va', l');
    }
  }

  lemma InstallKeepsApart(m: Memory, m': Memory, roots: set<Word>, r0: Word, va0: Word, l0: Level, q: Word,
                          r: Word, va: Word, l: Level, r': Word, va': Word, l': Level)
    requires Forest(m, roots) && Installs(m, m', roots, r0, va0, l0, q) && r in roots && r' in roots
    requires TableAt(m', r, va, l).Some? && TableAt(m', r', va', l') == TableAt(m', r, va, l)
    ensures r == r' && l == l' && SameIndices(va, va', l)
  {
    hide TableAt, PermAt, Installs, SameIndices, Forest;
    InstalledTables(m, m', roots, r0, va0, l0, q, r, va, l);
    InstalledTables(m, m', roots, r0, va0, l0, q, r', va', l');
    NotQ(m, m', roots, r0, va0, l0, q, r, va, l);
    NotQ(m, m', roots, r0, va0, l0, q, r', va', l');
    if NewTable(r0, va0, l0, r, va, l) {
      SameIndicesTransitive(va, va0, va', l);
    } else {
      ForestTables(m, roots, r, va, l, r', va', l');
    }
  }

  lemma NotQ(m: Memory, m': Memory, roots: set<Word>, r0: Word, va0: Word, l0: Level, q: Word, r: Word, va: Word, l: Level)
    requires Installs(m, m', roots, r0, va0, l0, q) && r in roots
    ensures TableAt(m, r, va, l) != Some(q)
  {
    hide TableAt, PermAt, IsTable, TableEntry, PageIndex, Read, Canonical;
  }

  lemma ForestTables(m: Memory, roots: set<Word>, r: Word, va: Word, l: Level, r': Word, va': Word, l': Level)
    requires Forest(m, roots) && r in roots && r' in roots
    requires TableAt(m, r, va, l).Some? && TableAt(m, r', va', l') == TableAt(m, r, va, l)
    ensures r == r' && l == l' && SameIndices(va, va', l)
  {
    hide TableAt, SameIndices;
  }

  lemma SameIndicesTransitive(va: Word, va0: Word, va': Word, l: Level)
    ensures SameIndices(va, va0, l) && SameIndices(va', va0, l) ==> SameIndices(va, va', l)
  {
  }

  /** Installing a table where nothing was mapped changes no translation. */
  lemma InstallTranslate(m: Memory, m': Memory, roots: set<Word>, r0: Word, va0: Word, l0: Level, q: Word, root: Word, va: Word)
    requires Forest(m, roots) && Installs(m, m', roots, r0, va0, l0, q) && root in roots
    requires Read(m, EntryOn(m, r0, va0, l0)) & PTE_P == 0
    ensures Translate(m', root, va) == Translate(m, root, va)
  {
    hide TableAt, PermAt, NotATable, SameIndices, Forest, Walk, MappingAt, Canonical, Read, IsTable, PageIndex, TableEntry;
    if !Canonical(va) {
      WalkEnds(m, root, va);
      WalkEnds(m', root, va);
      ReadZero(m);
      ReadZero(m');
      SameReadSameMapping(m, m', va, Walk(m, root, va));
    } else if root == r0 && SameIndices(va, va0, l0 - 1) {
      InstalledWalk(m, m', roots, r0, va0, l0, q, va);
    } else {
      ElsewhereWalk(m, m', roots, r0, va0, l0, q, root, va);
    }
  }

  /** The walk ends at the lowest table on the path. */
  lemma WalkLevel(m: Memory, root: Word, va: Word, l: Level)
    requires Canonical(va) && TableAt(m, root, va, l).Some?
    requires l > 0 ==> TableAt(m, root, va, l - 1).None?
    ensures Walk(m, root, va) == PlaceAt(m, root, va, l)
  {
    hide TableAt, PermAt, Walk, Canonical, Read, IsTable, PageIndex;
    WalkEnds(m, root, va);
    var p := Walk(m, root, va);
    if l < p.level {
      LowerNone(m, root, va, p.level - 1, l);
      assert false;
    } else if p.level < l {
      LowerNone(m, root, va, l - 1, p.level);
      assert false;
    }
  }

  lemma NoPresentNoMapping(m: Memory, va: Word, p: Place)
    requires Read(m, p.pep) & PTE_P == 0
    ensures MappingAt(m, va, p) == Unmapped
  {
    NoPresentBit(Read(m, p.pep), p.perm);
  }

  lemma NoPresentBit(e: Word, perm: Word)
    requires e & PTE_P == 0
    ensures e & perm & PTE_P == 0
  {
  }

  /** Under the new table nothing is mapped, as before. */
  lemma InstalledWalk(m: Memory, m': Memory, roots: set<Word>, r0: Word, va0: Word, l0: Level, q: Word, va: Word)
    requires Forest(m, roots) && Installs(m, m', roots, r0, va0, l0, q) && Canonical(va)
    requires Read(m, EntryOn(m, r0, va0, l0)) & PTE_P == 0 && SameIndices(va, va0, l0 - 1)
    ensures Translate(m, r0, va) == Unmapped && Translate(m', r0, va) == Unmapped
    ensures Walk(m', r0, va) == Place(l0 - 1, Entry(q, PageIndex(va, l0 - 1)), PermAt(m, r0, va0, l0))
    ensures Read(m', Walk(m', r0, va).pep) == 0
  {
    hide TableAt, PermAt, SameIndices, Forest, Walk, MappingAt, Canonical, Read, IsTable, PageIndex, TableEntry, PageAddress, NotATable;
    WalkBefore(m, m', roots, r0, va0, l0, q, va);
    NoPresentNoMapping(m, va, Walk(m, r0, va));
    WalkAfter(m, m', roots, r0, va0, l0, q, va);
    ZeroEntryAbsent();
    NoPresentNoMapping(m', va, Walk(m', r0, va));
  }

  lemma ZeroEntryAbsent()
    ensures 0 as Word & PTE_P == 0
  {
  }

  lemma WalkBefore(m: Memory, m': Memory, roots: set<Word>, r0: Word, va0: Word, l0: Level, q: Word, va: Word)
    requires Installs(m, m', roots, r0, va0, l0, q) && Canonical(va) && SameIndices(va, va0, l0 - 1)
    ensures TableAt(m, r0, va, l0 - 1).None?
    ensures Walk(m, r0, va).pep == EntryOn(m, r0, va0, l0)
  {
    hide TableAt, PermAt, SameIndices, Walk, Canonical, Read, IsTable, PageIndex, TableEntry, PageAddress;
    SameIndicesUp(va, va0, l0);
    SamePath(m, r0, va, va0, l0);
    BelowInstalled(m, roots, r0, va0, l0, q, r0, va);
    WalkLevel(m, r0, va, l0);
  }

  lemma WalkAfter(m: Memory, m': Memory, roots: set<Word>, r0: Word, va0: Word, l0: Level, q: Word, va: Word)
    requires Forest(m, roots) && Installs(m, m', roots, r0, va0, l0, q) && Canonical(va) && SameIndices(va, va0, l0 - 1)
    requires TableAt(m, r0, va, l0 - 1).None?
    ensures Walk(m', r0, va) == Place(l0 - 1, Entry(q, PageIndex(va, l0 - 1)), PermAt(m, r0, va0, l0))
    ensures Read(m', Walk(m', r0, va).pep) == 0
  {
    hide TableAt, PermAt, SameIndices, Forest, Walk, Canonical, Read, IsTable, PageIndex, TableEntry, PageAddress, NotATable;
    var w := EntryOn(m, r0, va0, l0);
    InstalledTables(m, m', roots, r0, va0, l0, q, r0, va, l0 - 1);
    if l0 > 1 {
      LowerNone(m, r0, va, l0 - 1, l0 - 2);
      InstalledTables(m, m', roots, r0, va0, l0, q, r0, va, l0 - 2);
    }
    WalkLevel(m', r0, va, l0 - 1);
    NotQ(m, m', roots, r0, va0, l0, q, r0, va0, l0);
    ReadOther(m, w, TableEntry(q), Entry(q, PageIndex(va, l0 - 1)));
  }

  lemma SameIndicesUp(va: Word, va0: Word, l: Level)
    requires l > 0 && SameIndices(va, va0, l - 1)
    ensures SameIndices(va, va0, l) && PageIndex(va, l) == PageIndex(va0, l)
  {
    hide PageIndex;
  }

  /** Addresses that do not lie under the new table keep their walk. */
  lemma ElsewhereWalk(m: Memory, m': Memory, roots: set<Word>, r0: Word, va0: Word, l0: Level, q: Word, root: Word, va: Word)
    requires Forest(m, roots) && Installs(m, m', roots, r0, va0, l0, q) && root in roots && Canonical(va)
    requires root != r0 || !SameIndices(va, va0, l0 - 1)
    ensures Walk(m', root, va) == Walk(m, root, va)
    ensures Translate(m', root, va) == Translate(m, root, va)
  {
    hide TableAt, PermAt, SameIndices, Forest, Walk, MappingAt, Canonical, Read, IsTable, PageIndex, TableEntry, PageAddress, NotATable;
    var w := EntryOn(m, r0, va0, l0);
    forall l: Level
      ensures TableAt(m', root, va, l) == TableAt(m, root, va, l)
      ensures TableAt(m, root, va, l).Some? ==> PermAt(m', root, va, l) == PermAt(m, root, va, l)
    {
      InstalledTables(m, m', roots, r0, va0, l0, q, root, va, l);
    }
    SameTablesSameWalk(m, m', root, va);
    WalkEnds(m, root, va);
    var p := Walk(m, root, va);
    OtherEntry(m, roots, r0, va0, l0, root, va, p.level);
    SameIndicesStep(va, va0, l0 - 1);
    ReadOther(m, w, TableEntry(q), p.pep);
    SameReadSameMapping(m, m', va, p);
  }

  // ----- What table changes keep -----

  /** All tables of `m` are tables of `m'`, in the same places. */
  ghost predicate KeepsTables(m: Memory, m': Memory, roots: set<Word>)
  {
    forall r, va, l: Level {:trigger TableAt(m, r, va, l)} {:trigger TableAt(m', r, va, l)} ::
      r in roots && TableAt(m, r, va, l).Some? ==>
        TableAt(m', r, va, l) == TableAt(m, r, va, l) && PermAt(m', r, va, l) == PermAt(m, r, va, l)
  }

  ghost predicate SameTranslations(m: Memory, m': Memory, roots: set<Word>)
  {
    forall r, va {:trigger Translate(m', r, va)} :: r in roots ==> Translate(m', r, va) == Translate(m, r, va)
  }

  /** A cached position stays a position on its path while others install tables. */
  lemma OnPathKept(m: Memory, m': Memory, roots: set<Word>, root: Word, va: Word, p: Place)
    requires root in roots && KeepsTables(m, m', roots) && OnPath(m, root, va, p)
    ensures OnPath(m', root, va, p)
  {
    hide TableAt, PermAt, Canonical, PageIndex;
  }

  lemma TableAligned(m: Memory, root: Word, va: Word, l: Level)
    requires root & 0xFFF == 0 && TableAt(m, root, va, l).Some?
    ensures TableAt(m, root, va, l).value & 0xFFF == 0
  {
    hide TableAt, PermAt, PageIndex, Read, IsTable, Narrow;
    if l == 3 {
      TopLevel(m, root, va);
    } else {
      LevelBelow(m, root, va, l);
      TargetAligned(Read(m, EntryOn(m, root, va, l + 1)));
    }
  }

  lemma TargetAligned(e: Word)
    ensures Target(e) & 0xFFF == 0
  {
  }

  lemma IndexSmall(va: Word, l: Level)
    ensures PageIndex(va, l) <= 0x1FF
  {
  }

  /** All tables of `m'` are tables of `m`, in the same places, or the page `q`. */
  ghost predicate OnlyNewTable(m: Memory, m': Memory, roots: set<Word>, q: Word)
  {
    forall r, va, l: Level {:trigger TableAt(m', r, va, l)} ::
      r in roots ==> TableAt(m', r, va, l) == TableAt(m, r, va, l) || TableAt(m', r, va, l) == Some(q)
  }

  /** A page is allocated, zeroed and installed as a table: no translation changes, no table
      moves, and the walk goes on into the new, empty table. */
  lemma InstallFacts(m: Memory, m2: Memory, m3: Memory, roots: set<Word>, r0: Word, va0: Word, l0: Level, q: Word)
    requires Forest(m, roots) && NotATable(m, roots, q) && PageAddress(q) && r0 in roots
    requires SameOutside(m, m2, q) && forall i :: Read(m2, Entry(q, i)) == 0
    requires Canonical(va0) && l0 > 0 && TableAt(m, r0, va0, l0).Some?
    requires Read(m, EntryOn(m, r0, va0, l0)) & PTE_P == 0
    requires m3 == m2[EntryOn(m, r0, va0, l0) := TableEntry(q)]
    ensures Forest(m3, roots) && SameTranslations(m, m3, roots)
    ensures KeepsTables(m, m3, roots) && OnlyNewTable(m, m3, roots, q)
    ensures Walk(m3, r0, va0) == Place(l0 - 1, Entry(q, PageIndex(va0, l0 - 1)), PermAt(m, r0, va0, l0))
    ensures Read(m3, Walk(m3, r0, va0).pep) == 0
    ensures Plain(m, roots) && q < 0x1_0000_0000 ==> Plain(m3, roots)
  {
    hide TableAt, PermAt, Walk, SameIndices, Forest, NotATable, Read, Canonical, PageIndex, TableEntry, PageAddress, IsTable, Translate, Plain;
    OutsideKeepsTables(m, m2, roots, q, r0, va0, l0);
    OutsideSameTables(m, m2, roots, q);
    SameTablesForest(m, m2, roots);
    SameTablesNotATable(m, m2, roots, q);
    NotPresentNotTable(Read(m, EntryOn(m, r0, va0, l0)));
    InstallForest(m2, m3, roots, r0, va0, l0, q);
    SameIndicesSelf(va0, l0 - 1);
    InstalledWalk(m2, m3, roots, r0, va0, l0, q, va0);
    forall r, va | r in roots ensures Translate(m3, r, va) == Translate(m, r, va) {
      OutsideTranslate(m, m2, roots, q, r, va);
      InstallTranslate(m2, m3, roots, r0, va0, l0, q, r, va);
    }
    InstallKeeps(m, m2, m3, roots, r0, va0, l0, q);
    if Plain(m, roots) && q < 0x1_0000_0000 {
      InstallPlain(m, m2, m3, roots, r0, va0, l0, q);
    }
  }

  lemma InstallKeeps(m: Memory, m2: Memory, m3: Memory, roots: set<Word>, r0: Word, va0: Word, l0: Level, q: Word)
    requires SameTables(m, m2, roots) && Forest(m2, roots) && Installs(m2, m3, roots, r0, va0, l0, q)
    ensures KeepsTables(m, m3, roots) && OnlyNewTable(m, m3, roots, q)
  {
    hide TableAt, PermAt, SameIndices, Forest, Installs;
    forall r, va, l: Level | r in roots
      ensures TableAt(m, r, va, l).Some? ==>
        TableAt(m3, r, va, l) == TableAt(m, r, va, l) && PermAt(m3, r, va, l) == PermAt(m, r, va, l)
      ensures TableAt(m3, r, va, l) == TableAt(m, r, va, l) || TableAt(m3, r, va, l) == Some(q)
    {
      InstalledTables(m2, m3, roots, r0, va0, l0, q, r, va, l);
      if NewTable(r0, va0, l0, r, va, l) {
        NoOldTable(m2, m3, roots, r0, va0, l0, q, r, va, l);
      }
    }
  }

  lemma NoOldTable(m: Memory, m': Memory, roots: set<Word>, r0: Word, va0: Word, l0: Level, q: Word, r: Word, va: Word, l: Level)
    requires Installs(m, m', roots, r0, va0, l0, q) && NewTable(r0, va0, l0, r, va, l)
    ensures TableAt(m, r, va, l).None?
  {
    hide TableAt, PermAt, SameIndices, Canonical, PageIndex, TableEntry, PageAddress, IsTable, Read;
    BelowInstalled(m, roots, r0, va0, l0, q, r, va);
  }

  lemma SameTablesNotATable(m: Memory, m': Memory, roots: set<Word>, p: Word)
    requires SameTables(m, m', roots) && NotATable(m, roots, p)
    ensures NotATable(m', roots, p)
  {
    hide TableAt, PermAt;
  }

  lemma SameIndicesSelf(va: Word, l: Level)
    ensures SameIndices(va, va, l)
  {
    hide PageIndex;
  }

  lemma NotPresentNotTable(e: Word)
    requires e & PTE_P == 0
    ensures !IsTable(e)
  {
  }

  // ----- Plain page tables -----

  /** The entry points beyond 4 GiB, which the iterator takes for uninitialized memory. */
  predicate TooHigh(e: Word)
  {
    Target(e) >= 0x1_0000_0000
  }

  /** An entry that the kernel itself writes: no large page, and no permission withheld by an
      upper level. */
  predicate PlainEntry(e: Word, l: Level)
  {
    !TooHigh(e) && (l > 0 ==> e & PTE_P == 0 || (IsTable(e) && e & 7 == 7))
  }

  ghost predicate Plain(m: Memory, roots: set<Word>)
  {
    forall r, va, l: Level {:trigger TableAt(m, r, va, l)} ::
      r in roots && TableAt(m, r, va, l).Some? ==> PlainEntry(Read(m, EntryOn(m, r, va, l)), l)
  }

  lemma PlainZero(l: Level)
    ensures PlainEntry(0, l)
  {
  }

  lemma PlainTable(q: Word, l: Level)
    requires PageAddress(q) && q < 0x1_0000_0000
    ensures PlainEntry(TableEntry(q), l)
  {
    TableEntryBits(q, 0);
    TableEntryAll(q);
  }

  lemma TableEntryAll(q: Word)
    ensures TableEntry(q) & 7 == 7
  {
  }

  lemma PlainNarrow(perm: Word, e: Word)
    requires perm & 7 == 7 && e & 7 == 7
    ensures Narrow(perm, e) & 7 == 7
  {
  }

  /** In plain page tables the levels above allow everything. */
  lemma {:induction false} PlainPerm(m: Memory, roots: set<Word>, r: Word, va: Word, l: Level)
    requires Plain(m, roots) && r in roots && TableAt(m, r, va, l).Some?
    ensures PermAt(m, r, va, l) & 7 == 7
    decreases 3 - l
  {
    hide TableAt, PermAt, PageIndex, Narrow, IsTable, Read, TooHigh;
    if l == 3 {
      TopLevel(m, r, va);
    } else {
      LevelBelow(m, r, va, l);
      PlainPerm(m, roots, r, va, l + 1);
      var e := Read(m, EntryOn(m, r, va, l + 1));
      assert PlainEntry(e, l + 1);
      if e & PTE_P == 0 {
        NotPresentNotTable(e);
      }
      PlainNarrow(PermAt(m, r, va, l + 1), e);
    }
  }

  lemma InstallPlain(m: Memory, m2: Memory, m3: Memory, roots: set<Word>, r0: Word, va0: Word, l0: Level, q: Word)
    requires Plain(m, roots) && NotATable(m, roots, q) && SameOutside(m, m2, q) && Forest(m2, roots)
    requires Installs(m2, m3, roots, r0, va0, l0, q) && q < 0x1_0000_0000
    ensures Plain(m3, roots)
  {
    hide TableAt, PermAt, SameOutside, Forest, Installs, NotATable, PlainEntry, PageIndex, Read;
    forall r, va, l: Level | r in roots && TableAt(m3, r, va, l).Some?
      ensures PlainEntry(Read(m3, EntryOn(m3, r, va, l)), l)
    {
      InstallPlainEntry(m, m2, m3, roots, r0, va0, l0, q, r, va, l);
    }
  }

  lemma InstallPlainEntry(m: Memory, m2: Memory, m3: Memory, roots: set<Word>, r0: Word, va0: Word, l0: Level, q: Word,
                          r: Word, va: Word, l: Level)
    requires Plain(m, roots) && NotATable(m, roots, q) && SameOutside(m, m2, q) && Forest(m2, roots)
    requires Installs(m2, m3, roots, r0, va0, l0, q) && q < 0x1_0000_0000
    requires r in roots && TableAt(m3, r, va, l).Some?
    ensures PlainEntry(Read(m3, EntryOn(m3, r, va, l)), l)
  {
    hide TableAt, PermAt, SameOutside, Forest, NotATable, PlainEntry, PageIndex, Read, SameIndices, Canonical, IsTable, PageAddress, TableEntry;
    var w := EntryOn(m2, r0, va0, l0);
    InstalledTables(m2, m3, roots, r0, va0, l0, q, r, va, l);
    NotQ(m2, m3, roots, r0, va0, l0, q, r0, va0, l0);
    PlainZero(l);
    if NewTable(r0, va0, l0, r, va, l) {
      ReadOther(m2, w, TableEntry(q), Entry(q, PageIndex(va, l)));
    } else {
      OutsideKeepsTables(m, m2, roots, q, r, va, l);
      var s := EntryOn(m2, r, va, l);
      if s == w {
        PlainTable(q, l);
        ReadWritten(m2, w, TableEntry(q));
      } else {
        ReadOther(m2, w, TableEntry(q), s);
      }
    }
  }

  lemma LeafPlain(m: Memory, m': Memory, roots: set<Word>, r0: Word, va0: Word, e: Word)
    requires Plain(m, roots) && r0 in roots && TableAt(m, r0, va0, 0).Some? && m' == m[EntryOn(m, r0, va0, 0) := e]
    requires SameTables(m, m', roots) && Forest(m, roots) && !TooHigh(e)
    ensures Plain(m', roots)
  {
    hide TableAt, PermAt, Forest, PageIndex, Read, SameIndices;
    var w := EntryOn(m, r0, va0, 0);
    forall r, va, l: Level | r in roots && TableAt(m', r, va, l).Some?
      ensures PlainEntry(Read(m', EntryOn(m', r, va, l)), l)
    {
      assert TableAt(m', r, va, l) == TableAt(m, r, va, l);
      var s := EntryOn(m, r, va, l);
      if s == w {
        OtherEntry(m, roots, r0, va0, 0, r, va, l);
        ReadWritten(m, w, e);
      } else {
        ReadOther(m, w, e, s);
      }
    }
  }

  // ----- Ranges that one entry translates -----

  /** The part above level `l` in which two addresses differ. */
  function UpperDiff(va: Word, a: Word, l: Level): Word
  {
    (a ^ va) & !OffMask(l)
  }

  lemma PageBits(va: Word, a: Word)
    requires UpperDiff(va, a, 0) == 0
    ensures PageIndex(a, 0) == PageIndex(va, 0) && UpperDiff(va, a, 1) == 0
  {
  }

  lemma DiffIndices(va: Word, a: Word, l: Level)
    requires UpperDiff(va, a, l) == 0
    ensures SameIndices(a, va, l) && PageIndex(a, l) == PageIndex(va, l) && Canonical(a) == Canonical(va)
  {
    hide Canonical, PageIndex, OffMask;
    if l == 0 {
      PageBits(va, a);
      ShortcutBits(a, va, 0);
    } else {
      ShortcutBits(a, va, l - 1);
    }
  }

  /** All addresses in the range of an entry end their walk there. */
  lemma BlockSameWalk(m: Memory, root: Word, va: Word, a: Word)
    requires UpperDiff(va, a, Walk(m, root, va).level) == 0
    ensures Walk(m, root, a) == Walk(m, root, va)
  {
    hide Canonical, Walk, TableAt, PermAt, PageIndex, SameIndices, UpperDiff, IsTable, Read;
    var p := Walk(m, root, va);
    DiffIndices(va, a, p.level);
    WalkEnds(m, root, va);
    WalkEnds(m, root, a);
    if Canonical(va) {
      SamePath(m, root, a, va, p.level);
      if p.level > 0 {
        SameIndicesStep(a, va, p.level - 1);
        SamePath(m, root, a, va, p.level - 1);
      }
      WalkLevel(m, root, a, p.level);
    }
  }

  /** The levels above never take away the present bit or the bits that are not permissions. */
  lemma {:induction false} PermBits(m: Memory, root: Word, va: Word, l: Level)
    requires TableAt(m, root, va, l).Some?
    ensures PermAt(m, root, va, l) & 0xFF9 == 0xFF9
    ensures PermAt(m, root, va, l) & 0xFFF == PermAt(m, root, va, l)
    decreases 3 - l
  {
    hide PageIndex, TableAt, PermAt, Narrow, IsTable, Read;
    if l == 3 {
      TopLevel(m, root, va);
    } else {
      LevelBelow(m, root, va, l);
      PermBits(m, root, va, l + 1);
      NarrowBits(PermAt(m, root, va, l + 1), Read(m, EntryOn(m, root, va, l + 1)));
    }
  }

  lemma NarrowBits(perm: Word, e: Word)
    requires IsTable(e) && perm & 0xFF9 == 0xFF9 && perm & 0xFFF == perm
    ensures Narrow(perm, e) & 0xFF9 == 0xFF9 && Narrow(perm, e) & 0xFFF == Narrow(perm, e)
  {
  }
}
