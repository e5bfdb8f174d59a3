/** The iterator over the table pages of a page table. It keeps no stack: to go up it walks down
    again from the root. */
module Ptiter {
  import opened Words
  import opened PageTable

  const VA_NONCANONMAX: nat := 0xFFFF_FFFF_FFFF

  datatype Cell = Cell(table: Word, index: nat)
  type Tables = map<Cell, Word>

  function ReadCell(m: Tables, c: Cell): Word
  {
    if c in m then m[c] else 0
  }

  /** The indices on the way from the root to a table. */
  type Path = seq<nat>

  predicate IsPath(p: Path)
  {
    |p| <= 3 && forall k :: 0 <= k < |p| ==> p[k] < 512
  }

  /** The table at the end of a path. */
  function Follow(m: Tables, root: Word, p: Path): Option<Word>
    decreases |p|
  {
    if p == [] then Some(root) else
    match Follow(m, root, p[..|p| - 1])
    case None => None
    case Some(t) =>
      var e := ReadCell(m, Cell(t, p[|p| - 1]));
      if IsTable(e) then Some(Target(e)) else None
  }

  /** Every table is reached by one path only. */
  ghost predicate Tree(m: Tables, root: Word)
  {
    forall p, q {:trigger Follow(m, root, p), Follow(m, root, q)} ::
      IsPath(p) && IsPath(q) && Follow(m, root, p).Some? && Follow(m, root, q) == Follow(m, root, p) ==> p == q
  }

  // ----- The order of the tables -----

  /** The tables below entries i, i + 1, ... of the table at `p`. */
  function Below(m: Tables, root: Word, p: Path, i: nat): seq<Path>
    requires |p| <= 2 && i <= 512
    decreases 3 - |p|, 512 - i
  {
    if i == 512 then [] else Under(m, root, p + [i]) + Below(m, root, p, i + 1)
  }

  /** The table at `p`, after the tables below it. */
  function Under(m: Tables, root: Word, p: Path): seq<Path>
    requires 1 <= |p| <= 3
    decreases 3 - |p|, 513
  {
    if Follow(m, root, p).None? then []
    else (if |p| < 3 then Below(m, root, p, 0) else []) + [p]
  }

  /** What is left to visit from entry `i` of the table at `p`. */
  function Todo(m: Tables, root: Word, p: Path, i: nat): seq<Path>
    requires |p| <= 2 && i <= 512 && IsPath(p)
    decreases |p|
  {
    Below(m, root, p, i)
    + if p == [] then [] else [p] + Todo(m, root, p[..|p| - 1], p[|p| - 1] + 1)
  }

  function AllTables(m: Tables, root: Word): seq<Path>
  {
    Below(m, root, [], 0)
  }

  lemma {:induction false} BelowShape(m: Tables, root: Word, p: Path, i: nat, x: Path)
    requires |p| <= 2 && i <= 512 && IsPath(p) && x in Below(m, root, p, i)
    ensures p < x && IsPath(x) && x[|p|] >= i && Follow(m, root, x).Some?
    decreases 3 - |p|, 512 - i
  {
    if x in Under(m, root, p + [i]) {
      UnderShape(m, root, p + [i], x);
    } else {
      BelowShape(m, root, p, i + 1, x);
    }
  }

  lemma {:induction false} UnderShape(m: Tables, root: Word, p: Path, x: Path)
    requires 1 <= |p| <= 3 && IsPath(p) && x in Under(m, root, p)
    ensures p <= x && IsPath(x) && Follow(m, root, x).Some?
    decreases 3 - |p|, 513
  {
    if x != p {
      BelowShape(m, root, p, 0, x);
    }
  }

  /** All tables but the root are visited. */
  lemma {:induction false} AllVisited(m: Tables, root: Word, p: Path, i: nat, x: Path)
    requires |p| <= 2 && i <= 512 && IsPath(x) && p < x && x[|p|] >= i && Follow(m, root, x).Some?
    ensures x in Below(m, root, p, i)
    decreases 3 - |p|, 512 - i
  {
    if x[|p|] == i {
      PrefixFollows(m, root, x, |p| + 1);
      assert x[..|p| + 1] == p + [i];
      if x != p + [i] {
        AllVisited(m, root, p + [i], 0, x);
      }
      assert x in Under(m, root, p + [i]);
    } else {
      AllVisited(m, root, p, i + 1, x);
    }
  }

  lemma {:induction false} PrefixFollows(m: Tables, root: Word, x: Path, k: nat)
    requires k <= |x| && Follow(m, root, x).Some?
    ensures Follow(m, root, x[..k]).Some?
    decreases |x| - k
  {
    if k < |x| {
      PrefixFollows(m, root, x, k + 1);
      assert x[..k + 1][..k] == x[..k];
    } else {
      assert x[..k] == x;
    }
  }

  ghost predicate NoRepeats(s: seq<Path>)
  {
    forall a, b :: 0 <= a < b < |s| ==> s[a] != s[b]
  }

  /** No table comes before a table that lies below it. */
  ghost predicate ChildrenFirst(s: seq<Path>)
  {
    forall a, b :: 0 <= a < b < |s| ==> !(s[a] < s[b])
  }

  lemma {:induction false} BelowOrder(m: Tables, root: Word, p: Path, i: nat)
    requires |p| <= 2 && i <= 512 && IsPath(p)
    ensures NoRepeats(Below(m, root, p, i)) && ChildrenFirst(Below(m, root, p, i))
    decreases 3 - |p|, 512 - i
  {
    if i < 512 {
      UnderOrder(m, root, p + [i]);
      BelowOrder(m, root, p, i + 1);
      var s, t := Under(m, root, p + [i]), Below(m, root, p, i + 1);
      forall a, b | 0 <= a < |s| && 0 <= b < |t| ensures s[a] != t[b] && !(s[a] < t[b]) {
        UnderShape(m, root, p + [i], s[a]);
        BelowShape(m, root, p, i + 1, t[b]);
        assert s[a][|p|] == i;
      }
      AppendOrder(s, t);
    }
  }

  lemma {:induction false} UnderOrder(m: Tables, root: Word, p: Path)
    requires 1 <= |p| <= 3 && IsPath(p)
    ensures NoRepeats(Under(m, root, p)) && ChildrenFirst(Under(m, root, p))
    decreases 3 - |p|, 513
  {
    if |p| < 3 {
      BelowOrder(m, root, p, 0);
      var s := Below(m, root, p, 0);
      forall a | 0 <= a < |s| ensures s[a] != p && !(s[a] < p) {
        BelowShape(m, root, p, 0, s[a]);
      }
      AppendOrder(s, [p]);
    }
  }

  lemma AppendOrder(s: seq<Path>, t: seq<Path>)
    requires NoRepeats(s) && ChildrenFirst(s) && NoRepeats(t) && ChildrenFirst(t)
    requires forall a, b :: 0 <= a < |s| && 0 <= b < |t| ==> s[a] != t[b] && !(s[a] < t[b])
    ensures NoRepeats(s + t) && ChildrenFirst(s + t)
  {
  }

  /** The visits: every table but the root, once, and after the tables below it. */
  lemma VisitsAll(m: Tables, root: Word)
    ensures forall x :: x in AllTables(m, root) <==> IsPath(x) && x != [] && Follow(m, root, x).Some?
    ensures NoRepeats(AllTables(m, root)) && ChildrenFirst(AllTables(m, root))
  {
    BelowOrder(m, root, [], 0);
    forall x ensures x in AllTables(m, root) <==> IsPath(x) && x != [] && Follow(m, root, x).Some? {
      if x in AllTables(m, root) {
        BelowShape(m, root, [], 0, x);
      } else if IsPath(x) && x != [] && Follow(m, root, x).Some? {
        AllVisited(m, root, [], 0, x);
      }
    }
  }

  // ----- Addresses as paths -----

  /** How many bytes one entry of level `l` translates. */
  function Span(l: nat): nat
    requires 1 <= l <= 4
    ensures Span(l) > 0
  {
    match l
    case 1 => 0x20_0000
    case 2 => 0x4000_0000
    case 3 => 0x80_0000_0000
    case 4 => 0x1_0000_0000_0000
  }

  function Index(va: nat, l: nat): nat
    requires 1 <= l <= 3
  {
    va / Span(l) % 512
  }

  function Indices(va: nat): Path
  {
    [Index(va, 3), Index(va, 2), Index(va, 1)]
  }

  /** The first address of the next entry: setting the low bits and adding 1 rounds up. */
  function NextEntry(va: nat, l: nat): nat
    requires 1 <= l <= 3
  {
    (va / Span(l) + 1) * Span(l)
  }

  /** The two addresses differ above level `l`. */
  predicate Leaves(va: nat, va': nat, l: nat)
    requires 1 <= l <= 3
  {
    va / Span(l + 1) != va' / Span(l + 1)
  }

  /** The indices below level `l` are zero. */
  predicate AtStart(va: nat, l: nat)
  {
    (l > 2 ==> Index(va, 2) == 0) && (l > 1 ==> Index(va, 1) == 0)
  }

  lemma LastEntry(va: nat, l: nat)
    requires va <= VA_NONCANONMAX && 1 <= l <= 3
    ensures Leaves(va, NextEntry(va, l), l) <==> Index(va, l) == 511
  {
    var q := va / Span(l);
    match l {
      case 1 =>
        assert NextEntry(va, 1) / Span(2) == (q + 1) / 512 && va / Span(2) == q / 512;
      case 2 =>
        assert NextEntry(va, 2) / Span(3) == (q + 1) / 512 && va / Span(3) == q / 512;
      case 3 =>
        assert NextEntry(va, 3) / Span(4) == (q + 1) / 512 && va / Span(4) == q / 512;
    }
  }

  lemma Nested1(v: nat)
    ensures v / 0x4000_0000 == v / 0x20_0000 / 512
  {
  }

  lemma Nested2(v: nat)
    ensures v / 0x80_0000_0000 == v / 0x4000_0000 / 512
  {
  }

  lemma Multiple1(k: nat)
    ensures k * 0x20_0000 / 0x20_0000 == k
  {
  }

  lemma Multiple2(k: nat)
    ensures k * 0x4000_0000 / 0x4000_0000 == k && k * 0x4000_0000 == k * 512 * 0x20_0000 && k * 512 % 512 == 0
  {
  }

  lemma Multiple3(k: nat)
    ensures k * 0x80_0000_0000 / 0x80_0000_0000 == k && k * 0x80_0000_0000 == k * 512 * 0x4000_0000 && k * 512 % 512 == 0
  {
  }

  lemma NoCarry(q: nat)
    requires q % 512 < 511
    ensures (q + 1) / 512 == q / 512 && (q + 1) % 512 == q % 512 + 1
  {
  }

  lemma RoundUp(va: nat, l: nat)
    requires va <= VA_NONCANONMAX && 1 <= l <= 3 && Index(va, l) < 511
    ensures va < NextEntry(va, l) <= VA_NONCANONMAX
  {
  }

  lemma Advance1(va: nat)
    requires Index(va, 1) < 511
    ensures var va' := NextEntry(va, 1);
      && Index(va', 1) == Index(va, 1) + 1 && Index(va', 2) == Index(va, 2) && Index(va', 3) == Index(va, 3)
  {
    var q := va / 0x20_0000;
    Multiple1(q + 1);
    NoCarry(q);
    Nested1(va);
    Nested1(NextEntry(va, 1));
    Nested2(va);
    Nested2(NextEntry(va, 1));
  }

  lemma Advance2(va: nat)
    requires Index(va, 2) < 511
    ensures var va' := NextEntry(va, 2);
      && Index(va', 2) == Index(va, 2) + 1 && Index(va', 1) == 0 && Index(va', 3) == Index(va, 3)
  {
    var q := va / 0x4000_0000;
    Multiple2(q + 1);
    Multiple1((q + 1) * 512);
    NoCarry(q);
    Nested2(va);
    Nested2(NextEntry(va, 2));
  }

  lemma Advance3(va: nat)
    requires Index(va, 3) < 511
    ensures var va' := NextEntry(va, 3);
      && Index(va', 3) == Index(va, 3) + 1 && Index(va', 1) == 0 && Index(va', 2) == 0
  {
    var q := va / 0x80_0000_0000;
    Multiple3(q + 1);
    Multiple2((q + 1) * 512);
    Multiple1((q + 1) * 512 * 512);
    NoCarry(q);
  }

  /** The next entry of the same table: the path to the table stays, the index grows by 1. */
  lemma Advance(va: nat, l: nat)
    requires va <= VA_NONCANONMAX && 1 <= l <= 3 && Index(va, l) < 511
    ensures var va' := NextEntry(va, l);
      && va < va' <= VA_NONCANONMAX && AtStart(va', l)
      && Index(va', l) == Index(va, l) + 1
      && Indices(va')[..3 - l] == Indices(va)[..3 - l]
  {
    RoundUp(va, l);
    hide Index, NextEntry;
    if l == 1 {
      Advance1(va);
    } else if l == 2 {
      Advance2(va);
    } else {
      Advance3(va);
    }
  }

  // ----- The iterator -----

  /** The path to the table that holds the entry of level `l` for `va`. */
  function Here(va: nat, l: nat): (p: Path)
    requires 1 <= l <= 3
    ensures IsPath(p) && |p| == 3 - l
  {
    Indices(va)[..3 - l]
  }

  /** The path to the table that this entry leads to. */
  function There(va: nat, l: nat): (p: Path)
    requires 1 <= l <= 3
    ensures IsPath(p) && |p| == 4 - l
  {
    Indices(va)[..4 - l]
  }

  /** The tables that are still to be visited have not changed. */
  ghost predicate Agrees(m: Tables, first: Tables, root: Word, todo: seq<Path>)
  {
    forall p, i {:trigger Follow(first, root, p), Cell(Follow(first, root, p).value, i)} ::
      (p == [] || p in todo) && Follow(first, root, p).Some? ==>
        ReadCell(m, Cell(Follow(first, root, p).value, i)) == ReadCell(first, Cell(Follow(first, root, p).value, i))
  }

  lemma AgreesAt(m: Tables, first: Tables, root: Word, todo: seq<Path>, p: Path, i: nat)
    requires Agrees(m, first, root, todo) && (p == [] || p in todo) && Follow(first, root, p).Some?
    ensures ReadCell(m, Cell(Follow(first, root, p).value, i)) == ReadCell(first, Cell(Follow(first, root, p).value, i))
  {
    hide Follow, ReadCell;
    var c := Cell(Follow(first, root, p).value, i);
  }

  lemma ThereIsNext(va: nat, l: nat)
    requires 1 <= l <= 3
    ensures There(va, l) == Here(va, l) + [Index(va, l)]
    ensures l > 1 ==> There(va, l) == Here(va, l - 1)
    ensures There(va, l)[..3 - l] == Here(va, l)
  {
    hide Index;
  }

  lemma FollowRoot(m: Tables, root: Word)
    ensures Follow(m, root, []) == Some(root)
  {
  }

  lemma FollowThere(m: Tables, root: Word, va: nat, l: nat)
    requires 1 <= l <= 3 && Follow(m, root, Here(va, l)).Some?
    ensures var e := ReadCell(m, Cell(Follow(m, root, Here(va, l)).value, Index(va, l)));
      Follow(m, root, There(va, l)) == if IsTable(e) then Some(Target(e)) else None
  {
    hide Index, IsTable, Target, ReadCell;
    ThereIsNext(va, l);
  }

  /** A table is visited after everything that is to be visited from its entries, and so are the
      tables above it. */
  lemma {:induction false} AncestorsLater(m: Tables, root: Word, p: Path, i: nat, k: nat)
    requires |p| <= 2 && i <= 512 && IsPath(p) && 1 <= k <= |p|
    ensures p[..k] in Todo(m, root, p, i)
    decreases |p|
  {
    hide Below;
    if k == |p| {
      assert p[..k] == p;
    } else {
      AncestorsLater(m, root, p[..|p| - 1], p[|p| - 1] + 1, k);
      assert p[..|p| - 1][..k] == p[..k];
    }
  }

  lemma TodoStep(m: Tables, root: Word, p: Path, i: nat)
    requires |p| <= 2 && i < 512 && IsPath(p)
    ensures Todo(m, root, p, i) == Under(m, root, p + [i]) + Todo(m, root, p, i + 1)
  {
    hide Under;
    var rest := if p == [] then [] else [p] + Todo(m, root, p[..|p| - 1], p[|p| - 1] + 1);
    assert Todo(m, root, p, i) == (Under(m, root, p + [i]) + Below(m, root, p, i + 1)) + rest;
    assert Todo(m, root, p, i + 1) == Below(m, root, p, i + 1) + rest;
  }

  lemma IndexBound(va: nat, l: nat)
    requires 1 <= l <= 3
    ensures Index(va, l) < 512
  {
  }

  /** Nothing to visit under an entry that leads to no table. */
  lemma SkipEntry(m: Tables, root: Word, va: nat, l: nat)
    requires 1 <= l <= 3 && Follow(m, root, There(va, l)).None?
    ensures Todo(m, root, Here(va, l), Index(va, l)) == Todo(m, root, Here(va, l), Index(va, l) + 1)
  {
    hide Follow, Index, Todo;
    IndexBound(va, l);
    ThereIsNext(va, l);
    TodoStep(m, root, Here(va, l), Index(va, l));
  }

  /** Under an entry that leads to a table: first everything below that table. */
  lemma EnterTable(m: Tables, root: Word, va: nat, l: nat)
    requires 1 < l <= 3 && Follow(m, root, There(va, l)).Some?
    ensures Todo(m, root, Here(va, l), Index(va, l)) == Todo(m, root, Here(va, l - 1), 0)
  {
    hide Follow, Index, Todo;
    IndexBound(va, l);
    ThereIsNext(va, l);
    EnterTodo(m, root, Here(va, l), Index(va, l));
  }

  lemma EnterTodo(m: Tables, root: Word, p: Path, i: nat)
    requires |p| <= 1 && i < 512 && IsPath(p) && Follow(m, root, p + [i]).Some?
    ensures Todo(m, root, p, i) == Todo(m, root, p + [i], 0)
  {
    hide Follow, Below;
    var q := p + [i];
    TodoStep(m, root, p, i);
    assert q[..|q| - 1] == p && q[|q| - 1] == i;
    assert Todo(m, root, q, 0) == Below(m, root, q, 0) + ([q] + Todo(m, root, p, i + 1));
  }

  /** A lowest table is visited at once. */
  lemma VisitLowest(m: Tables, root: Word, va: nat)
    requires Follow(m, root, There(va, 1)).Some?
    ensures Todo(m, root, Here(va, 1), Index(va, 1)) == [There(va, 1)] + Todo(m, root, Here(va, 1), Index(va, 1) + 1)
  {
    hide Follow, Index, Todo;
    IndexBound(va, 1);
    ThereIsNext(va, 1);
    TodoStep(m, root, Here(va, 1), Index(va, 1));
  }

  /** After the last entry of a table comes the table itself. */
  lemma LeaveTable(m: Tables, root: Word, va: nat, l: nat)
    requires 1 <= l <= 3
    ensures l == 3 ==> Todo(m, root, Here(va, l), 512) == []
    ensures l < 3 ==> Todo(m, root, Here(va, l), 512)
                        == [There(va, l + 1)] + Todo(m, root, Here(va, l + 1), Index(va, l + 1) + 1)
  {
    hide Follow, Index;
    if l < 3 {
      IndexBound(va, l + 1);
      ThereIsNext(va, l + 1);
      var p := Here(va, l);
      assert p[..|p| - 1] == Here(va, l + 1) && p[|p| - 1] == Index(va, l + 1);
    }
  }

  /** The table that the iterator reads next has not been visited yet. */
  lemma UnchangedHere(m: Tables, first: Tables, root: Word, va: nat, l: nat, todo: seq<Path>, skip: bool)
    requires 1 <= l <= 3 && Agrees(m, first, root, todo) && Follow(first, root, Here(va, l)).Some?
    requires (IndexBound(va, l); todo == Todo(first, root, Here(va, l), Index(va, l) + if skip then 1 else 0))
    ensures var c := Cell(Follow(first, root, Here(va, l)).value, Index(va, l));
      ReadCell(m, c) == ReadCell(first, c)
  {
    hide Follow, Index, ReadCell, Todo, Agrees;
    IndexBound(va, l);
    var p := Here(va, l);
    if p != [] {
      AncestorsLater(first, root, p, Index(va, l) + if skip then 1 else 0, |p|);
      assert p[..|p|] == p;
    }
    AgreesAt(m, first, root, todo, p, Index(va, l));
  }

  lemma UnchangedAbove(m: Tables, first: Tables, root: Word, va: nat, l: nat, stop: nat, todo: seq<Path>)
    requires 1 < stop <= l <= 3 && Agrees(m, first, root, todo) && Follow(first, root, Here(va, l)).Some?
    requires (IndexBound(va, stop); todo == [There(va, stop)] + Todo(first, root, Here(va, stop), Index(va, stop) + 1))
    ensures var c := Cell(Follow(first, root, Here(va, l)).value, Index(va, l));
      ReadCell(m, c) == ReadCell(first, c)
  {
    hide Follow, Index, ReadCell, Todo, Agrees;
    IndexBound(va, stop);
    var p, q := Here(va, l), Here(va, stop);
    if p != [] {
      AncestorsLater(first, root, q, Index(va, stop) + 1, |p|);
      assert q[..|p|] == p;
    }
    AgreesAt(m, first, root, todo, p, Index(va, l));
  }

  lemma OnTheWayDown(m: Tables, root: Word, va: nat, l: nat, stop: nat)
    requires 1 <= stop <= l <= 3 && Follow(m, root, There(va, stop)).Some?
    ensures Follow(m, root, There(va, l)).Some?
  {
    hide Follow, Index;
    PrefixFollows(m, root, There(va, stop), 4 - l);
    assert There(va, stop)[..4 - l] == There(va, l);
  }

  lemma StartsAtZero(va: nat, l: nat)
    requires 1 < l <= 3 && AtStart(va, l)
    ensures Index(va, l - 1) == 0 && AtStart(va, l - 1)
  {
    hide Index;
  }

  /** The state inside the loop of Down. While stopLevel is 1 the iterator looks for the next table
      from the current entry on; then it walks down again from the root to the table it has
      finished. */
  ghost predicate Moving(m: Tables, root: Word, va: nat, l: nat, pep: Cell, stop: nat, skip: bool, todo: seq<Path>)
  {
    && 1 <= stop <= l <= 3 && va <= VA_NONCANONMAX && Index(va, l) < 512 && Index(va, stop) < 512
    && Follow(m, root, Here(va, l)) == Some(pep.table) && pep.index == Index(va, l)
    && (if stop == 1
        then todo == Todo(m, root, Here(va, l), Index(va, l) + if skip then 1 else 0) && (!skip ==> AtStart(va, l))
        else !skip && Follow(m, root, There(va, stop)).Some?
             && todo == [There(va, stop)] + Todo(m, root, Here(va, stop), Index(va, stop) + 1))
  }

  lemma MovingReads(m: Tables, first: Tables, root: Word, va: nat, l: nat, pep: Cell, stop: nat, skip: bool, todo: seq<Path>)
    requires Moving(first, root, va, l, pep, stop, skip, todo) && Agrees(m, first, root, todo)
    ensures ReadCell(m, pep) == ReadCell(first, pep)
    ensures stop > 1 ==> IsTable(ReadCell(first, pep))
  {
    hide Follow, Index, ReadCell, Todo, Agrees, AtStart, IsTable;
    if stop == 1 {
      UnchangedHere(m, first, root, va, l, todo, skip);
    } else {
      UnchangedAbove(m, first, root, va, l, stop, todo);
      OnTheWayDown(first, root, va, l, stop);
      FollowThere(first, root, va, l);
    }
  }

  lemma MovingIn(m: Tables, root: Word, va: nat, l: nat, pep: Cell, stop: nat, todo: seq<Path>)
    requires Moving(m, root, va, l, pep, stop, false, todo) && IsTable(ReadCell(m, pep)) && stop < l
    ensures Moving(m, root, va, l - 1, Cell(Target(ReadCell(m, pep)), Index(va, l - 1)), stop, false, todo)
  {
    hide Follow, Index, ReadCell, Todo, AtStart, IsTable, Target;
    FollowThere(m, root, va, l);
    ThereIsNext(va, l);
    IndexBound(va, l - 1);
    if stop == 1 {
      EnterTable(m, root, va, l);
      StartsAtZero(va, l);
    }
  }

  lemma MovingStops(m: Tables, root: Word, va: nat, l: nat, pep: Cell, todo: seq<Path>)
    requires Moving(m, root, va, l, pep, l, false, todo) && IsTable(ReadCell(m, pep))
    ensures todo == [There(va, l)] + Todo(m, root, Here(va, l), Index(va, l) + 1)
  {
    hide Follow, Index, ReadCell, Todo, AtStart, IsTable;
    FollowThere(m, root, va, l);
    if l == 1 {
      VisitLowest(m, root, va);
    }
  }

  lemma MovingSkips(m: Tables, root: Word, va: nat, l: nat, pep: Cell, skip: bool, todo: seq<Path>)
    requires Moving(m, root, va, l, pep, 1, skip, todo) && (skip || !IsTable(ReadCell(m, pep)))
    ensures todo == Todo(m, root, Here(va, l), Index(va, l) + 1)
  {
    hide Follow, Index, ReadCell, Todo, AtStart, IsTable;
    if !skip {
      FollowThere(m, root, va, l);
      SkipEntry(m, root, va, l);
    }
  }

  lemma MovingOn(m: Tables, root: Word, va: nat, l: nat, pep: Cell, skip: bool, todo: seq<Path>)
    requires Moving(m, root, va, l, pep, 1, skip, todo) && (skip || !IsTable(ReadCell(m, pep)))
    requires !Leaves(va, NextEntry(va, l), l)
    ensures va < NextEntry(va, l) <= VA_NONCANONMAX
    ensures Moving(m, root, NextEntry(va, l), l, pep.(index := pep.index + 1), 1, false, todo)
  {
    hide Follow, Index, ReadCell, Todo, AtStart, IsTable, NextEntry, Leaves;
    MovingSkips(m, root, va, l, pep, skip, todo);
    LastEntry(va, l);
    Advance(va, l);
    IndexBound(NextEntry(va, l), 1);
  }

  lemma MovingOut(m: Tables, root: Word, va: nat, l: nat, pep: Cell, skip: bool, todo: seq<Path>)
    requires Moving(m, root, va, l, pep, 1, skip, todo) && (skip || !IsTable(ReadCell(m, pep)))
    requires Leaves(va, NextEntry(va, l), l)
    ensures l == 3 ==> todo == []
    ensures l < 3 ==> Moving(m, root, va, 3, Cell(root, Index(va, 3)), l + 1, false, todo)
  {
    hide Follow, Index, ReadCell, Todo, AtStart, IsTable, NextEntry, Leaves;
    MovingSkips(m, root, va, l, pep, skip, todo);
    LastEntry(va, l);
    LeaveTable(m, root, va, l);
    if l < 3 {
      FollowRoot(m, root);
      IndexBound(va, 3);
      IndexBound(va, l + 1);
      ThereIsNext(va, l + 1);
    }
  }

  /** The walk starts at entry 0 of the root. */
  lemma StartOfAll(m: Tables, root: Word)
    ensures Here(0, 3) == [] && Index(0, 3) == 0 && AtStart(0, 3) && Follow(m, root, []) == Some(root)
    ensures Todo(m, root, Here(0, 3), 0) == AllTables(m, root)
  {
    hide Below;
    FollowRoot(m, root);
  }

  class TableIterator {
    /** The page tables as they are now, and as they were when the iterator started. */
    var memory: Tables
    ghost const first: Tables
    const pt: Word
    var pep: Cell
    var level: nat
    var va: nat

    constructor (memory: Tables, pt: Word)
      ensures this.memory == first == memory && this.pt == pt
      ensures Done() <==> AllTables(memory, pt) == []
      ensures !Done() ==> Placed() && AllTables(memory, pt) == [There(va, level)] + Rest(true)
    {
      this.memory, first, this.pt := memory, memory, pt;
      level, va, pep := 3, 0, Cell(pt, 0);
      new;
      hide Follow, Below, Todo, Here, There, Index;
      Go();
    }

    /** Start at address 0. */
    method Go()
      requires memory == first
      modifies this`pep, this`level, this`va
      ensures Done() <==> AllTables(memory, pt) == []
      ensures !Done() ==> Placed() && AllTables(memory, pt) == [There(va, level)] + Rest(true)
    {
      hide Follow, Below, Todo, Here, There, Index, Agrees, AtStart;
      level := 3;
      pep := Cell(pt, Index(0, 3));
      va := 0;
      StartOfAll(memory, pt);
      AgreesAll(memory, pt, AllTables(memory, pt));
      Down(false, AllTables(memory, pt));
    }

    ghost predicate Placed()
      reads this
    {
      && 1 <= level <= 3 && va <= VA_NONCANONMAX
      && Follow(first, pt, Here(va, level)) == Some(pep.table) && pep.index == Index(va, level)
    }

    predicate Done()
      reads this
    {
      va > VA_NONCANONMAX
    }

    /** What is left to visit, with or without the current entry. */
    ghost function Rest(skip: bool): seq<Path>
      requires Placed()
      reads this
    {
      IndexBound(va, level);
      Todo(first, pt, Here(va, level), Index(va, level) + if skip then 1 else 0)
    }

    /** Move to the first table of `todo`. */
    method Down(skipFirst: bool, ghost todo: seq<Path>)
      requires Placed() && todo == Rest(skipFirst) && Agrees(memory, first, pt, todo)
      requires !skipFirst ==> AtStart(va, level)
      modifies this`pep, this`level, this`va
      ensures todo == [] <==> Done()
      ensures todo != [] ==> Placed() && There(va, level) == todo[0] && Rest(true) == todo[1..]
    {
      hide Follow, Index, ReadCell, IsTable, Target, Todo, Agrees, NextEntry, Leaves, AtStart, Moving, Here, There;
      IndexBound(va, level);
      IndexBound(va, 1);
      assert Moving(first, pt, va, level, pep, 1, skipFirst, todo) by { StartMoving(skipFirst, todo); }
      var stopLevel, skip := 1, skipFirst;
      while true
        invariant 1 <= stopLevel <= level <= 3 && va <= VA_NONCANONMAX
        invariant Moving(first, pt, va, level, pep, stopLevel, skip, todo)
        decreases if stopLevel == 1 then 1 else 0, VA_NONCANONMAX - va, level
      {
        MovingReads(memory, first, pt, va, level, pep, stopLevel, skip, todo);
        if IsTable(ReadCell(memory, pep)) && !skip {
          if level == stopLevel {
            break;
          }
          MovingIn(first, pt, va, level, pep, stopLevel, todo);
          level := level - 1;
          pep := Cell(Target(ReadCell(memory, pep)), Index(va, level));
        } else {
          var next := NextEntry(va, level);
          NotOnTheWayUp(first, pt, va, level, pep, stopLevel, skip, todo);
          if Leaves(va, next, level) {
            MovingOut(first, pt, va, level, pep, skip, todo);
            if level == 3 {
              va := VA_NONCANONMAX + 1;
              return;
            }
            stopLevel := level + 1;
            level := 3;
            pep := Cell(pt, Index(va, 3));
          } else {
            MovingOn(first, pt, va, level, pep, skip, todo);
            pep := pep.(index := pep.index + 1);
            va := next;
          }
          skip := false;
        }
      }
      MovingStops(first, pt, va, level, pep, todo);
      MovingPlaced(first, pt, va, level, pep, todo);
    }

    method Next(ghost todo: seq<Path>)
      requires Placed() && todo == Rest(true) && Agrees(memory, first, pt, todo)
      modifies this`pep, this`level, this`va
      ensures Done() <==> todo == []
      ensures !Done() ==> Placed() && todo == [There(va, level)] + Rest(true)
    {
      hide Todo, Agrees, Follow, Here, There, Index;
      Down(true, todo);
    }

    /** The current table page. */
    function Pa(): Word
      reads this
    {
      Target(ReadCell(memory, pep))
    }

    /** The current page is the table at the end of the current path. */
    lemma PaIsTable(todo: seq<Path>)
      requires Placed() && todo == Rest(true) && Agrees(memory, first, pt, todo) && Follow(first, pt, There(va, level)).Some?
      ensures Follow(first, pt, There(va, level)) == Some(Pa())
    {
      hide Follow, Index, ReadCell, Todo, Agrees, Target, IsTable;
      IndexBound(va, level);
      UnchangedHere(memory, first, pt, va, level, todo, true);
      FollowThere(first, pt, va, level);
    }

    lemma StartMoving(skip: bool, todo: seq<Path>)
      requires Placed() && todo == Rest(skip) && (!skip ==> AtStart(va, level))
      ensures Moving(first, pt, va, level, pep, 1, skip, todo)
    {
      hide Follow, Index, Todo, AtStart;
      IndexBound(va, level);
      IndexBound(va, 1);
    }
  }

  lemma NotOnTheWayUp(m: Tables, root: Word, va: nat, l: nat, pep: Cell, stop: nat, skip: bool, todo: seq<Path>)
    requires Moving(m, root, va, l, pep, stop, skip, todo) && (skip || !IsTable(ReadCell(m, pep)))
    requires stop > 1 ==> IsTable(ReadCell(m, pep))
    ensures stop == 1
  {
    hide Follow, Index, ReadCell, Todo, AtStart, IsTable, Here, There;
  }

  lemma MovingPlaced(m: Tables, root: Word, va: nat, l: nat, pep: Cell, todo: seq<Path>)
    requires Moving(m, root, va, l, pep, l, false, todo)
    ensures 1 <= l <= 3 && Follow(m, root, Here(va, l)) == Some(pep.table) && pep.index == Index(va, l)
  {
  }

  // ----- Freeing a page table while iterating over it -----

  /** From `m` to `m'` only the page `p` changed. */
  ghost predicate OnlyPage(m: Tables, m': Tables, p: Word)
  {
    forall c: Cell {:trigger ReadCell(m', c)} :: c.table != p ==> ReadCell(m', c) == ReadCell(m, c)
  }

  /** Overwriting a visited page leaves the tables that are still to be visited alone. */
  lemma FreeKeeps(m: Tables, m': Tables, first: Tables, root: Word, c: Path, todo: seq<Path>)
    requires Tree(first, root) && IsPath(c) && c != [] && Follow(first, root, c).Some?
    requires Agrees(m, first, root, [c] + todo) && OnlyPage(m, m', Follow(first, root, c).value)
    requires c !in todo && forall p :: p in todo ==> IsPath(p)
    ensures Agrees(m', first, root, todo)
  {
    hide Follow, ReadCell;
    forall p, i | (p == [] || p in todo) && Follow(first, root, p).Some?
      ensures ReadCell(m', Cell(Follow(first, root, p).value, i)) == ReadCell(first, Cell(Follow(first, root, p).value, i))
    {
      AgreesAt(m, first, root, [c] + todo, p, i);
      assert Follow(first, root, p) != Follow(first, root, c);
    }
  }

  lemma AgreesAll(m: Tables, root: Word, todo: seq<Path>)
    ensures Agrees(m, m, root, todo)
  {
  }

  /** One round of the loop: free the current table and move on. */
  method FreeCurrent(it: TableIterator, scribble: (Tables, Word) -> Tables, ghost c: Path, ghost rest: seq<Path>) returns (p: Word)
    requires Tree(it.first, it.pt) && forall m, q :: OnlyPage(m, scribble(m, q), q)
    requires it.Placed() && c == There(it.va, it.level) && rest == it.Rest(true) && Agrees(it.memory, it.first, it.pt, [c] + rest)
    requires IsPath(c) && c != [] && c !in rest && Follow(it.first, it.pt, c).Some? && forall q :: q in rest ==> IsPath(q)
    modifies it`memory, it`pep, it`level, it`va
    ensures Follow(it.first, it.pt, c) == Some(p) && Agrees(it.memory, it.first, it.pt, rest)
    ensures it.Done() <==> rest == []
    ensures !it.Done() ==> it.Placed() && rest == [There(it.va, it.level)] + it.Rest(true)
  {
    hide Follow, ReadCell, Todo, Agrees, Tree, Here, There, Index, OnlyPage, IsPath;
    AgreesTail(it.memory, it.first, it.pt, c, rest);
    it.PaIsTable(rest);
    p := it.Pa();
    FreeKeeps(it.memory, scribble(it.memory, p), it.first, it.pt, c, rest);
    it.memory := scribble(it.memory, p);
    it.Next(rest);
  }

  /** The documented loop: visit all tables and free each. What freeing writes into a page cannot
      disturb the loop; every table but the root is freed, exactly once. */
  method FreeTables(memory: Tables, pt: Word, scribble: (Tables, Word) -> Tables) returns (freed: seq<Word>)
    requires Tree(memory, pt) && forall m, p :: OnlyPage(m, scribble(m, p), p)
    ensures var all := AllTables(memory, pt);
      && |freed| == |all|
      && (forall k :: 0 <= k < |freed| ==> Follow(memory, pt, all[k]) == Some(freed[k]))
    ensures forall a, b :: 0 <= a < b < |freed| ==> freed[a] != freed[b]
    ensures forall t :: t in freed <==> exists p :: IsPath(p) && p != [] && Follow(memory, pt, p) == Some(t)
  {
    hide Follow, ReadCell, Below, Todo, Agrees, Tree, Here, There, Index, OnlyPage, NoRepeats, ChildrenFirst;
    ghost var all := AllTables(memory, pt);
    VisitsAll(memory, pt);
    freed := [];
    var it := new TableIterator(memory, pt);
    ghost var todo := all;
    AgreesAll(memory, pt, all);
    while !it.Done()
      invariant it.first == memory && it.pt == pt && fresh(it)
      invariant |freed| <= |all| && all[|freed|..] == todo
      invariant it.Done() <==> todo == []
      invariant !it.Done() ==> it.Placed() && todo == [There(it.va, it.level)] + it.Rest(true)
      invariant Agrees(it.memory, memory, pt, todo)
      invariant forall k :: 0 <= k < |freed| ==> Follow(memory, pt, all[k]) == Some(freed[k])
      decreases |all| - |freed|
    {
      ghost var c, rest := There(it.va, it.level), it.Rest(true);
      StepFacts(memory, pt, all, |freed|, c, rest);
      var p := FreeCurrent(it, scribble, c, rest);
      freed := freed + [p];
      todo := rest;
    }
    FreedExactly(memory, pt, freed);
  }

  lemma StepFacts(m: Tables, root: Word, all: seq<Path>, k: nat, c: Path, rest: seq<Path>)
    requires all == AllTables(m, root) && k < |all| && all[k..] == [c] + rest
    ensures c == all[k] && rest == all[k + 1..] && c !in rest && IsPath(c) && c != [] && Follow(m, root, c).Some?
    ensures forall p :: p in rest ==> IsPath(p)
  {
    hide Below, Follow;
    VisitsAll(m, root);
    assert all[k..][0] == c && all[k..][1..] == rest;
  }

  lemma AgreesTail(m: Tables, first: Tables, root: Word, c: Path, rest: seq<Path>)
    requires Agrees(m, first, root, [c] + rest)
    ensures Agrees(m, first, root, rest)
  {
    hide Follow, ReadCell;
  }

  lemma FreedExactly(m: Tables, root: Word, freed: seq<Word>)
    requires Tree(m, root) && |freed| == |AllTables(m, root)|
    requires forall k :: 0 <= k < |freed| ==> Follow(m, root, AllTables(m, root)[k]) == Some(freed[k])
    ensures forall a, b :: 0 <= a < b < |freed| ==> freed[a] != freed[b]
    ensures forall t :: t in freed <==> exists p :: IsPath(p) && p != [] && Follow(m, root, p) == Some(t)
  {
    hide Follow, Below, ChildrenFirst;
    var all := AllTables(m, root);
    VisitsAll(m, root);
    forall a, b | 0 <= a < b < |freed| ensures freed[a] != freed[b] {
      assert all[a] in all && all[b] in all && all[a] != all[b];
    }
    forall t | t in freed ensures exists p :: IsPath(p) && p != [] && Follow(m, root, p) == Some(t) {
      var k :| 0 <= k < |freed| && freed[k] == t;
      assert all[k] in all;
    }
    forall t, p | IsPath(p) && p != [] && Follow(m, root, p) == Some(t) ensures t in freed {
      assert p in all;
      var k :| 0 <= k < |all| && all[k] == p;
      assert freed[k] == t;
    }
  }
}
