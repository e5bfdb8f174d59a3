/** What a translation is made of: the parts of the address, the permissions of all levels, and the
    place inside the page. */
module Translation {
  import opened PageTable
  import opened Vmiter

  // ----- Addresses -----

  /** The four indices and the offset make up the 48 bits of the address that are translated. */
  lemma AddressParts(va: Word)
    ensures va & 0xFFFF_FFFF_FFFF ==
      (PageIndex(va, 3) << 39) | (PageIndex(va, 2) << 30) | (PageIndex(va, 1) << 21) | (PageIndex(va, 0) << 12) | (va & OffMask(0))
  {
  }

  predicate LowMask(k: Word)
  {
    k == 0xFFF || k == 0x1F_FFFF || k == 0x3FFF_FFFF || k == 0x7F_FFFF_FFFF
  }

  lemma OffMaskLow(l: Level)
    ensures LowMask(OffMask(l))
  {
  }

  lemma Below(va: Word, a: Word, k: Word)
    requires LowMask(k) && va <= a <= va | k
    ensures (a ^ va) & !k == 0
  {
  }

  lemma After(va: Word, k: Word)
    requires LowMask(k)
    ensures (((va | k) + 1) ^ va) & !k != 0
  {
  }

  /** The last address before the place where moving on stops. */
  function LastIn(va: Word, l: Level): Word
  {
    LastVa(va, l) - 1
  }

  lemma Before(va: Word, l: Level)
    ensures LastIn(va, l) == va | OffMask(l)
  {
    hide OffMask;
  }

  lemma InRange(va: Word, l: Level, a: Word)
    requires va <= a <= va | OffMask(l)
    ensures UpperDiff(va, a, l) == 0
  {
    hide OffMask, LowMask;
    OffMaskLow(l);
    Below(va, a, OffMask(l));
  }

  lemma OutOfRange(va: Word, l: Level)
    ensures UpperDiff(va, LastVa(va, l), l) != 0
  {
    hide OffMask, LowMask;
    OffMaskLow(l);
    After(va, OffMask(l));
  }

  /** Moving on stops right behind the addresses that the entry translates. */
  lemma RangeEnd(va: Word, l: Level, a: Word)
    ensures va <= a <= LastIn(va, l) ==> UpperDiff(va, a, l) == 0
    ensures UpperDiff(va, LastVa(va, l), l) != 0
  {
    hide OffMask, LastVa, LastIn, UpperDiff;
    Before(va, l);
    if va <= a <= va | OffMask(l) {
      InRange(va, l, a);
    }
    OutOfRange(va, l);
  }

  /** How far a physical address lies from the address that it is given to. */
  function Distance(pa: Word, va: Word): Word
  {
    pa - va
  }

  lemma Halves12(a: Word)
    ensures a == (a & !0xFFF) + (a & 0xFFF)
  {
  }

  lemma Halves21(a: Word)
    ensures a == (a & !0x1F_FFFF) + (a & 0x1F_FFFF)
  {
  }

  lemma Halves30(a: Word)
    ensures a == (a & !0x3FFF_FFFF) + (a & 0x3FFF_FFFF)
  {
  }

  lemma Halves39(a: Word)
    ensures a == (a & !0x7F_FFFF_FFFF) + (a & 0x7F_FFFF_FFFF)
  {
  }

  lemma Halves(a: Word, k: Word)
    requires LowMask(k)
    ensures a == (a & !k) + (a & k)
  {
    if k == 0xFFF {
      Halves12(a);
    } else if k == 0x1F_FFFF {
      Halves21(a);
    } else if k == 0x3FFF_FFFF {
      Halves30(a);
    } else {
      Halves39(a);
    }
  }

  lemma AddressHalves(a: Word, l: Level)
    ensures a == (a & !OffMask(l)) + (a & OffMask(l))
  {
    hide OffMask, LowMask;
    OffMaskLow(l);
    Halves(a, OffMask(l));
  }

  lemma Regroup(base: Word, low: Word, upper: Word)
    ensures Distance(base + low, upper + low) == Distance(base, upper)
  {
  }

  lemma Regrouped(base: Word, a: Word, l: Level)
    ensures Distance(base + (a & OffMask(l)), a) == Distance(base, a & !OffMask(l))
  {
    hide OffMask, Distance;
    AddressHalves(a, l);
    Regroup(base, a & OffMask(l), a & !OffMask(l));
  }

  lemma SameUpper(va: Word, a: Word, k: Word)
    requires (a ^ va) & !k == 0
    ensures a & !k == va & !k
  {
  }

  lemma Parts(e: Word, a: Word, l: Level)
    ensures PhysicalAt(e, a, l) == PageStart(e, l) + (a & OffMask(l))
  {
    hide OffMask, PageStart;
  }

  lemma DistanceOf(e: Word, a: Word, l: Level)
    ensures Distance(PhysicalAt(e, a, l), a) == Distance(PageStart(e, l), a & !OffMask(l))
  {
    hide OffMask, Distance, PhysicalAt, PageStart;
    Parts(e, a, l);
    Regrouped(PageStart(e, l), a, l);
  }

  lemma DistanceKept(e: Word, va: Word, a: Word, l: Level)
    requires UpperDiff(va, a, l) == 0
    ensures Distance(PhysicalAt(e, a, l), a) == Distance(PhysicalAt(e, va, l), va)
  {
    hide OffMask, Distance, PhysicalAt, PageStart;
    SameUpper(va, a, OffMask(l));
    DistanceOf(e, va, l);
    DistanceOf(e, a, l);
  }

  /** Inside the range of one entry, a large page included, the physical address keeps its distance
      from the address, and the permissions are the same. */
  lemma MovesAlong(m: Memory, root: Word, va: Word, a: Word)
    requires UpperDiff(va, a, Walk(m, root, va).level) == 0 && Translate(m, root, va).Mapped?
    ensures Translate(m, root, a).Mapped? && Translate(m, root, a).perm == Translate(m, root, va).perm
    ensures Distance(Translate(m, root, a).pa, a) == Distance(Translate(m, root, va).pa, va)
  {
    hide Walk, PhysicalAt, Read, UpperDiff, Distance;
    BlockSameWalk(m, root, va, a);
    var w := Walk(m, root, va);
    DistanceKept(Read(m, w.pep), va, a, w.level);
  }

  /** An entry made of a page address and flags leads to that page. In a large page bit 12 is one of
      the flags. */
  lemma EntryLeadsToPage(page: Word, flags: Word, l: Level)
    requires page & PTE_PAMASK == page && flags & PTE_PAMASK & !0x1000 == 0
    requires if l == 0 then flags & 0x1000 == 0 else page & 0x1000 == 0
    ensures PageStart(page | flags, l) == page
  {
    if l == 0 {
      SmallPage(page, flags);
    } else {
      LargePage(page, flags);
    }
    hide Target;
  }

  lemma SmallPage(page: Word, flags: Word)
    requires page & PTE_PAMASK == page && flags & PTE_PAMASK & !0x1000 == 0 && flags & 0x1000 == 0
    ensures Target(page | flags) == page
  {
  }

  lemma LargePage(page: Word, flags: Word)
    requires page & PTE_PAMASK == page && flags & PTE_PAMASK & !0x1000 == 0 && page & 0x1000 == 0
    ensures Target(page | flags) & !0x1000 == page
  {
  }

  // ----- Permissions -----

  /** The entry at level `l` and all above it have the bit. */
  predicate Allows(m: Memory, root: Word, va: Word, l: Level, bit: Word)
    decreases 3 - l
  {
    && TableAt(m, root, va, l).Some? && Read(m, EntryOn(m, root, va, l)) & bit != 0
    && (l < 3 ==> Allows(m, root, va, l + 1, bit))
  }

  lemma NarrowBit(perm: Word, e: Word, bit: Word)
    requires bit == PTE_W || bit == PTE_U
    ensures Narrow(perm, e) & bit != 0 <==> perm & bit != 0 && e & bit != 0
  {
  }

  lemma FullBit(bit: Word)
    requires bit == PTE_W || bit == PTE_U
    ensures INITIAL_PERM & bit != 0
  {
  }

  lemma BothBit(perm: Word, e: Word, bit: Word)
    requires bit == PTE_W || bit == PTE_U
    ensures e & perm & bit != 0 <==> e & bit != 0 && perm & bit != 0
  {
  }

  lemma {:induction false} PermAllows(m: Memory, root: Word, va: Word, l: Level, bit: Word)
    requires TableAt(m, root, va, l).Some? && (bit == PTE_W || bit == PTE_U)
    ensures PermAt(m, root, va, l) & bit != 0 <==> l == 3 || Allows(m, root, va, l + 1, bit)
    decreases 3 - l
  {
    hide PageIndex, TableAt, PermAt, Narrow, IsTable, Read;
    if l == 3 {
      TopLevel(m, root, va);
      FullBit(bit);
    } else {
      LevelBelow(m, root, va, l);
      PermAllows(m, root, va, l + 1, bit);
      NarrowBit(PermAt(m, root, va, l + 1), Read(m, EntryOn(m, root, va, l + 1)), bit);
    }
  }

  /** An address is writable, or open to the user, exactly when the entries of all levels say so. */
  lemma PermissionsOfAllLevels(m: Memory, root: Word, va: Word, bit: Word)
    requires Canonical(va) && Translate(m, root, va).Mapped? && (bit == PTE_W || bit == PTE_U)
    ensures Translate(m, root, va).perm & bit != 0 <==> Allows(m, root, va, Walk(m, root, va).level, bit)
  {
    hide PageIndex, TableAt, PermAt, Narrow, IsTable, Read, Walk, Canonical;
    var w := Walk(m, root, va);
    WalkEnds(m, root, va);
    PermAllows(m, root, va, w.level, bit);
    BothBit(w.perm, Read(m, w.pep), bit);
  }
}
