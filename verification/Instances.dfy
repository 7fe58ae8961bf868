// Small tables, mostly of four directories with one 2 MiB page at virtual address 0, on which translation,
// mapping, search and collection fail in each of the ways that their exact conditions describe.
module Instances {
  import opened Wrappers
  import opened GpuMemory
  import opened PageTable
  import opened Translation
  import opened Mapping
  import opened Search
  import opened Collection

  const ROOT := Loc(true, PAGE)
  const PD := PdConfig(1, VID_MEM)
  const DIR2 := Loc(false, 4 * PAGE)
  const DIR3 := Loc(false, 5 * PAGE)
  const FRAME: nat := 0x40_0000

  function Pde(page: U24, hi: U22): Entry { ZERO.(target := 4, addr := page, addrHi := hi) }

  function Pte(page: U24): Entry { ZERO.(target := 5, addr := page) }

  // If `wide`, the level-1 directory lies above 2^36.
  function Dir1(wide: bool): Loc { Loc(false, if wide then NARROW + 3 * PAGE else 3 * PAGE) }

  function ToDir1(wide: bool): Entry { Pde(3, if wide then 1 else 0) }

  function HugeTable(wide: bool): Mem {
    map[ROOT := ToDir1(wide), Dir1(wide) := Pde(4, 0), DIR2 := Pde(5, 0), Loc(false, 5 * PAGE + 8) := Pte(0x400)]
  }

  function HugeTree(wide: bool): Tree {
    map[ROOT := Node(0, None, ROOT, 0),
        Dir1(wide) := Node(1, Some(ROOT), ROOT, 0),
        DIR2 := Node(2, Some(Dir1(wide)), ROOT, 0),
        DIR3 := Node(3, Some(DIR2), ROOT, 0)]
  }

  lemma HugeReads(wide: bool, l: Level, i: nat)
    ensures Read(HugeTable(wide), Slot(ROOT, 0, i)) == if i == 0 then ToDir1(wide) else ZERO
    ensures i < 512 ==> Read(HugeTable(wide), Slot(Dir1(wide), 1, i)) == if i == 0 then Pde(4, 0) else ZERO
    ensures i < 512 ==> Read(HugeTable(wide), Slot(DIR2, 2, i)) == if i == 0 then Pde(5, 0) else ZERO
    ensures i < 256 ==> Read(HugeTable(wide), Slot(DIR3, 3, i)) == if i == 0 then Pte(0x400) else ZERO
    ensures wide ==> Read(HugeTable(wide), Slot(Loc(false, 3 * PAGE), 1, 0)) == ZERO
  {
  }

  lemma HugeEntry(wide: bool, d: Loc, i: nat)
    requires d in HugeTree(wide) && i < Entries(HugeTree(wide)[d].level)
    ensures i > 0 ==> EntryAt(HugeTable(wide), HugeTree(wide), d, i) == ZERO
    ensures EntryAt(HugeTable(wide), HugeTree(wide), d, 0) ==
      if d == ROOT then ToDir1(wide) else if d == DIR2 then Pde(5, 0) else if d == DIR3 then Pte(0x400) else Pde(4, 0)
  {
    HugeReads(wide, 0, i);
    HugeReads(wide, 0, 0);
    hide HugeTable, Read, Slot;
  }

  lemma HugeDirs(wide: bool)
    ensures var t := HugeTree(wide);
      && t.Keys == {ROOT, Dir1(wide), DIR2, DIR3}
      && t[ROOT] == Node(0, None, ROOT, 0) && t[Dir1(wide)] == Node(1, Some(ROOT), ROOT, 0)
      && t[DIR2] == Node(2, Some(Dir1(wide)), ROOT, 0) && t[DIR3] == Node(3, Some(DIR2), ROOT, 0)
  {
  }

  lemma HugeNodes(wide: bool)
    ensures NodeOk(ROOT, Node(0, None, ROOT, 0)) && NodeOk(Dir1(wide), Node(1, Some(ROOT), ROOT, 0))
    ensures NodeOk(DIR2, Node(2, Some(Dir1(wide)), ROOT, 0)) && NodeOk(DIR3, Node(3, Some(DIR2), ROOT, 0))
  {
  }

  lemma FirstChild(d: Loc, n: Node)
    requires n.level < 3 && n.base == 0
    ensures ChildNode(d, n, 0) == Node(n.level + 1, Some(d), n.root, 0)
  {
    var z := Span(n.level);
    assert 0 * z == 0;
  }

  lemma HugeChildren(wide: bool)
    ensures ToDir1(wide).Child() == Dir1(wide) && Pde(4, 0).Child() == DIR2 && Pde(5, 0).Child() == DIR3
  {
  }

  lemma HugePage()
    ensures Pte(0x400).Frame() == FRAME && Pte(0x400).Aperture() == 2
  {
  }

  lemma HugeEntryOk(wide: bool, d: Loc, i: nat)
    requires d in HugeTree(wide) && i < Entries(HugeTree(wide)[d].level)
    ensures EntryOk(HugeTable(wide), HugeTree(wide), d, i)
  {
    hide HugeTable, HugeTree, Read, Slot, Span, Entry.Child, Dir1, ChildNode, Entry.Frame, Entries, EntryAt;
    HugeEntry(wide, d, i);
    HugeDirs(wide);
    if i == 0 && d != DIR3 {
      HugeChildren(wide);
      FirstChild(d, HugeTree(wide)[d]);
    }
  }

  lemma HugeIsWellFormed(wide: bool)
    ensures WellFormed(HugeTable(wide), HugeTree(wide)) && IsRoot(HugeTree(wide), PD.Root())
  {
    hide HugeTable, HugeTree, NodeOk, EntryOk;
    HugeDirs(wide);
    HugeNodes(wide);
    forall d, i | d in HugeTree(wide) && 0 <= i < Entries(HugeTree(wide)[d].level)
      ensures EntryOk(HugeTable(wide), HugeTree(wide), d, i)
    {
      HugeEntryOk(wide, d, i);
    }
  }

  lemma LowIndex(v: nat)
    requires v < Span(3)
    ensures Index(v, 0) == Index(v, 1) == Index(v, 2) == Index(v, 3) == 0
  {
  }

  // The hardware maps the whole page.
  lemma HugeLookup(wide: bool, m: Mem, v: nat)
    requires v < Span(3) && forall x | Read(HugeTable(wide), x) != ZERO :: Read(m, x) == Read(HugeTable(wide), x)
    ensures Lookup(m, PD.Root(), v) == Mapped(FRAME, 2, 3)
  {
    hide HugeTable, Slot, Span, Index, Entry.Child, Entry.Frame, Dir1, LookupFrom;
    HugeReads(wide, 0, 0);
    HugeChildren(wide);
    HugePage();
    LowIndex(v);
    hide Read;
    LookupLevel(m, ROOT, 0, v);
    LookupLevel(m, Dir1(wide), 1, v);
    LookupLevel(m, DIR2, 2, v);
    LookupLevel(m, DIR3, 3, v);
  }

  // A table with a 4 KiB page at an address all of whose slices differ from zero.

  const DEEP: nat := 0xFF00_6040_3000

  function DeepTable(): Mem {
    map[Loc(true, PAGE + 8) := Pde(3, 0), Loc(false, 3 * PAGE + 8 * 508) := Pde(4, 0),
        Loc(false, 4 * PAGE + 8 * 3) := Pde(5, 0), Loc(false, 5 * PAGE + 16 * 2 + 8) := Pde(6, 0),
        Loc(false, 6 * PAGE + 8 * 3) := Pte(0x400)]
  }

  lemma DeepIndex(v: nat)
    requires v == DEEP
    ensures Index(v, 0) == 1 && Index(v, 1) == 508 && Index(v, 2) == 3 && Index(v, 3) == 2 && Index(v, 4) == 3
  {
  }

  lemma DeepReads(m: Mem)
    requires m == DeepTable()
    ensures Read(m, Slot(Loc(true, PAGE), 0, 1)) == Pde(3, 0)
    ensures Read(m, Slot(Loc(false, 3 * PAGE), 1, 508)) == Pde(4, 0)
    ensures Read(m, Slot(Loc(false, 4 * PAGE), 2, 3)) == Pde(5, 0)
    ensures Read(m, Slot(Loc(false, 5 * PAGE), 3, 2)) == Pde(6, 0)
    ensures Read(m, Slot(Loc(false, 6 * PAGE), 4, 3)) == Pte(0x400)
    ensures Pde(3, 0).Child() == Loc(false, 3 * PAGE) && Pde(4, 0).Child() == Loc(false, 4 * PAGE)
    ensures Pde(5, 0).Child() == Loc(false, 5 * PAGE) && Pde(6, 0).Child() == Loc(false, 6 * PAGE)
  {
  }

  lemma DeepLookup(m: Mem, v: nat)
    requires m == DeepTable() && v == DEEP
    ensures Lookup(m, Loc(true, PAGE), v) == Mapped(FRAME, 2, 4)
  {
    hide DeepTable, LookupFrom, Index, Slot, Read, Entry.Child;
    DeepIndex(v);
    DeepReads(m);
    LookupLevel(m, Loc(true, PAGE), 0, v);
    LookupLevel(m, Loc(false, 3 * PAGE), 1, v);
    LookupLevel(m, Loc(false, 4 * PAGE), 2, v);
    LookupLevel(m, Loc(false, 5 * PAGE), 3, v);
    LookupLevel(m, Loc(false, 6 * PAGE), 4, v);
  }

  lemma DeepWalk(m: Mem, env: Env, v: nat)
    requires m == DeepTable() && v == DEEP && env.vidOk && !env.iommu
    ensures WalkFrom(m, env, PAGE, 2, 0, v) == Found(FRAME, 2)
  {
    hide DeepTable, WalkFrom, Index, Slot, Read, Entry.Child;
    DeepIndex(v);
    DeepReads(m);
    TranslateStep(m, env, PAGE, 2, 0, v);
    TranslateStep(m, env, 3 * PAGE, 4, 1, v);
    TranslateStep(m, env, 4 * PAGE, 4, 2, v);
    TranslateStep(m, env, 5 * PAGE, 4, 3, v);
    TranslateStep(m, env, 6 * PAGE, 4, 4, v);
  }

  lemma DeepIsTranslated(env: Env, v: nat)
    requires env.vidOk && !env.iommu && v == DEEP
    ensures Lookup(DeepTable(), PD.Root(), v) == Mapped(FRAME, 2, 4)
    ensures Translate(DeepTable(), env, PD, v) == Translated(0, FRAME, 2)
  {
    hide DeepTable, WalkFrom, LookupFrom;
    DeepLookup(DeepTable(), v);
    DeepWalk(DeepTable(), env, v);
  }

  // Translation goes on in the page that the low bits of the wide entry name. If that reads zero,
  // it reports an unmapped page; if it holds a page entry, it succeeds with a wrong frame.

  lemma RootStep(m: Mem, env: Env, wide: bool, v: nat)
    requires env.vidOk && Read(m, ROOT) == ToDir1(wide) && v < Span(3)
    ensures Walk(m, env, PD, v) == WalkFrom(m, env, 3 * PAGE, 4, 1, v)
  {
    LowIndex(v);
    hide WalkFrom, Index, Span, Read;
    TranslateStep(m, env, PAGE, 2, 0, v);
  }

  lemma WideDirectoryIsLost(env: Env)
    requires env.vidOk && !env.iommu
    ensures var m := HugeTable(true);
      Lookup(m, PD.Root(), 0) == Mapped(FRAME, 2, 3) && Translate(m, env, PD, 0) == Translated(ENXIO, 0, INVALID)
  {
    var m := HugeTable(true);
    hide WalkFrom, LookupFrom, HugeTable, Index, Read;
    HugeLookup(true, m, 0);
    HugeReads(true, 0, 0);
    LowIndex(0);
    RootStep(m, env, true, 0);
    TranslateStep(m, env, 3 * PAGE, 4, 1, 0);
  }

  function AliasedTable(): Mem { HugeTable(true)[Loc(false, 3 * PAGE) := Pte(0x800)] }

  lemma AliasedReads()
    ensures var m := AliasedTable();
      && Read(m, ROOT) == ToDir1(true) && Read(m, Slot(Loc(false, 3 * PAGE), 1, 0)) == Pte(0x800)
      && forall x | Read(HugeTable(true), x) != ZERO :: Read(m, x) == Read(HugeTable(true), x)
  {
    assert Slot(Loc(false, 3 * PAGE), 1, 0) == Loc(false, 3 * PAGE);
  }

  lemma WideDirectoryMisleads(env: Env)
    requires env.vidOk && !env.iommu
    ensures var m := AliasedTable();
      Lookup(m, PD.Root(), 0) == Mapped(FRAME, 2, 3) && Translate(m, env, PD, 0) == Translated(0, 0x80_0000, 2)
  {
    var m := AliasedTable();
    hide WalkFrom, LookupFrom, HugeTable, AliasedTable, Index, Read, Slot;
    AliasedReads();
    HugeLookup(true, m, 0);
    LowIndex(0);
    RootStep(m, env, true, 0);
    TranslateStep(m, env, 3 * PAGE, 4, 1, 0);
  }

  // With an I/O MMU that does not map the level-1 directory, translation returns 0 and no page.
  lemma UnmappedDirectoryReturnsZero()
    ensures var m, env := HugeTable(false), Env(true, true, {});
      Lookup(m, PD.Root(), 0) == Mapped(FRAME, 2, 3) && Translate(m, env, PD, 0) == Translated(0, 0, INVALID)
  {
    var m, env := HugeTable(false), Env(true, true, {});
    hide WalkFrom, LookupFrom, HugeTable, Index, Read;
    HugeLookup(false, m, 0);
    HugeReads(false, 0, 0);
    RootStep(m, env, false, 0);
    TranslateStep(m, env, 3 * PAGE, 4, 1, 0);
  }

  // Address 0x1000 lies in the 2 MiB page and denotes FRAME + 0x1000. Translation reports FRAME;
  // mapping answers 1 for FRAME and -EADDRINUSE for the true address; search does not find that.

  function Small(paddr: U64): Request { Request(0x1000, paddr, 2, false) }

  lemma InsideIsNotTranslated(env: Env)
    requires env.vidOk && !env.iommu
    ensures var m := HugeTable(false); var r := Lookup(m, PD.Root(), 0x1000);
      r.Mapped? && Physical(r, 0x1000) == FRAME + 0x1000
      && Translate(m, env, PD, 0x1000) == Translated(0, FRAME, 2)
  {
    var m, t := HugeTable(false), HugeTree(false);
    hide WalkFrom, LookupFrom, HugeTable, HugeTree, Index, Read, ObstacleFrom, NarrowWalk, WellFormed;
    HugeLookup(false, m, 0x1000);
    HugeIsWellFormed(false);
    HugeIsNarrow(env, 0x1000);
    TranslateLaw(m, env, t, PD, 0x1000);
  }

  lemma HugeIsNarrow(env: Env, v: nat)
    requires env.vidOk && !env.iommu && v < Span(3)
    ensures Obstructs(HugeTable(false), env, PD, v) == Clear
  {
    var m := HugeTable(false);
    hide HugeTable, Slot, Span, Index, Entry.Child, ObstacleFrom, Read;
    HugeReads(false, 0, 0);
    HugeChildren(false);
    LowIndex(v);
    ObstacleLevel(m, env, ROOT, 0, v);
    ObstacleLevel(m, env, Dir1(false), 1, v);
    ObstacleLevel(m, env, DIR2, 2, v);
    ObstacleLevel(m, env, DIR3, 3, v);
  }

  lemma ObstacleLevel(m: Mem, env: Env, d: Loc, l: Level, v: nat)
    requires l < 4 && Reaches(env, d)
    ensures var e := Read(m, Slot(d, l, Index(v, l)));
      ObstacleFrom(m, env, d, l, v) ==
        if !IsPde(e) then Clear else if IsWide(e) then Aliased(l, e) else ObstacleFrom(m, env, e.Child(), l + 1, v)
  {
  }

  lemma InsideIsMistaken(pool: seq<Outcome>)
    ensures var m := HugeTable(false);
      MapReturn(m, PD.Root(), Small(FRAME), pool) == 1
      && MapReturn(m, PD.Root(), Small(FRAME + 0x1000), pool) == EADDRINUSE
  {
    var m, t := HugeTable(false), HugeTree(false);
    assert !Small(FRAME).IsBad() && !Small(FRAME + 0x1000).IsBad();
    hide LookupFrom, HugeTable, HugeTree, Index, Read, MapReturn, WellFormed, DirAt, Request.IsBad;
    HugeLookup(false, m, 0x1000);
    HugeIsWellFormed(false);
    ReturnMeans(m, t, PD.Root(), Small(FRAME), pool);
    ReturnMeans(m, t, PD.Root(), Small(FRAME + 0x1000), pool);
  }

  // Whatever search sees is the address in some page entry.
  lemma {:induction false} SeenIsRead(m: Mem, env: Env, next: nat, target: U3, l: nat, v: nat) returns (x: Loc)
    requires l <= 5 && SeenFrom(m, env, next, target, l, v).Found?
    ensures Read(m, x).IsPte() && PAGE * Read(m, x).addr == SeenFrom(m, env, next, target, l, v).addr
    decreases 5 - l
  {
    hide Index, Resolve;
    var e := EntrySeen(m, env, next, target, l, Index(v, l));
    if e.IsPte() {
      x := Resolve(env, EntryAddr(next, l, Index(v, l)), target).loc;
    } else {
      x := SeenIsRead(m, env, PAGE * e.addr, e.target, l + 1, v);
    }
  }

  lemma InsideIsNotFound(env: Env, res: nat)
    requires IsAnswer(HugeTable(false), env, PD, FRAME + 0x1000, 2, res)
    ensures res == 0 && MapsTo(HugeTable(false), PD, FRAME + 0x1000, 2, 0x1000)
  {
    var m := HugeTable(false);
    assert forall x | Read(m, x).IsPte() :: Read(m, x).addr == 0x400;
    hide SeenFrom, LookupFrom, Read, HugeTable;
    HugeLookup(false, m, 0x1000);
    if res > 0 {
      var x := SeenIsRead(m, env, PD.Next(), ToPdTarget(PD.target), 0, res);
    }
  }

  // Search. Behind the wide entry it sees a page entry of the page that the low bits name, and answers with
  // an address that the hardware does not map.

  function BehindTable(): Mem { HugeTable(true)[Loc(false, 3 * PAGE + 8) := Pte(0x800)] }

  lemma BehindReads(i: nat)
    requires i < 512
    ensures Read(BehindTable(), ROOT) == ToDir1(true)
    ensures Read(BehindTable(), Loc(false, 3 * PAGE + 8 * i)) == if i == 1 then Pte(0x800) else ZERO
    ensures Read(BehindTable(), Slot(Dir1(true), 1, 1)) == ZERO
  {
  }

  lemma FirstIndex(v: nat)
    requires v < 2 * Span(1)
    ensures Index(v, 0) == 0 && Index(v, 1) == if v < Span(1) then 0 else 1
  {
  }

  lemma BehindSeen(env: Env, v: nat)
    requires env.vidOk && !env.iommu && v < 2 * Span(1)
    ensures Seen(BehindTable(), env, PD, v) == if v < Span(1) then Missing else Found(0x80_0000, 2)
  {
    FirstIndex(v);
    BehindReads(Index(v, 1));
    hide BehindTable, Read, Index, Span;
    assert EntrySeen(BehindTable(), env, PD.Next(), 2, 0, 0) == ToDir1(true);
  }

  lemma FirstSlot()
    ensures Slot(ROOT, 0, 0) == ROOT == PD.Root()
  {
  }

  lemma ToDir1Is(wide: bool)
    ensures IsPde(ToDir1(wide)) && IsPde(Pde(4, 0)) && IsPde(Pde(5, 0)) && IsPde(Pde(6, 0))
  {
  }

  lemma BehindLookup(m: Mem, v: nat)
    requires m == BehindTable() && Index(v, 0) == 0 && Index(v, 1) == 1
    ensures Lookup(m, PD.Root(), v) == NotMapped
  {
    hide BehindTable, Read, Index, LookupFrom, Slot, Entry.Child, Entry.Frame, Dir1, Span, ToDir1;
    BehindReads(1);
    HugeChildren(true);
    ToDir1Is(true);
    FirstSlot();
    LookupLevel(m, ROOT, 0, v);
    LookupLevel(m, Dir1(true), 1, v);
  }

  lemma SearchSeesBehind(m: Mem, env: Env, res: nat)
    requires m == BehindTable() && env.vidOk && !env.iommu && IsAnswer(m, env, PD, 0x80_0000, 2, res)
    ensures res == Span(1) && Lookup(m, PD.Root(), res) == NotMapped
  {
    var z := Span(1);
    assert z < VSPACE && 0x80_0000 % PAGE == 0;
    forall v: nat | v <= z
      ensures Seen(m, env, PD, v) == if v < z then Missing else Found(0x80_0000, 2)
    {
      BehindSeen(env, v);
    }
    FirstIndex(z);
    BehindLookup(m, z);
    hide BehindTable, Seen, Lookup, Span;
    assert Seen(m, env, PD, z) == Found(0x80_0000, 2);
  }

  // A second 2 MiB page, below a directory that the I/O MMU does not map: search answers 0 for it.

  function TwoPages(): Mem { HugeTable(false)[Loc(false, 5 * PAGE + 24) := Pte(0x800)] }

  lemma TwoPagesLookup(m: Mem, v: nat)
    requires m == TwoPages() && v == Span(3)
    ensures Lookup(m, PD.Root(), v) == Mapped(0x80_0000, 2, 3)
  {
    SecondIndex();
    hide TwoPages, Read, Index, LookupFrom, Slot, Entry.Child, Entry.Frame, Dir1, Span, ToDir1, Pde;
    TwoPagesRead();
    HugeChildren(false);
    SecondPage();
    ToDir1Is(false);
    FirstSlot();
    LookupLevel(m, ROOT, 0, v);
    LookupLevel(m, Dir1(false), 1, v);
    LookupLevel(m, DIR2, 2, v);
    LookupLevel(m, DIR3, 3, v);
  }

  lemma SecondIndex()
    ensures Index(Span(3), 0) == Index(Span(3), 1) == Index(Span(3), 2) == 0 && Index(Span(3), 3) == 1
  {
  }

  lemma SecondPage()
    ensures Pte(0x800).Frame() == 0x80_0000 && Pte(0x800).Aperture() == 2
  {
  }

  lemma TwoPagesRead()
    ensures Read(TwoPages(), Slot(ROOT, 0, 0)) == ToDir1(false)
    ensures Read(TwoPages(), Slot(Dir1(false), 1, 0)) == Pde(4, 0)
    ensures Read(TwoPages(), Slot(DIR2, 2, 0)) == Pde(5, 0) && Read(TwoPages(), Slot(DIR3, 3, 1)) == Pte(0x800)
  {
  }

  lemma SearchMissesUnmapped(res: nat)
    requires IsAnswer(TwoPages(), Env(true, true, {}), PD, 0x80_0000, 2, res)
    ensures res == 0 && MapsTo(TwoPages(), PD, 0x80_0000, 2, Span(3))
  {
    TwoPagesLookup(TwoPages(), Span(3));
    NoSeenPast(res);
    hide TwoPages, SeenFrom, LookupFrom, Span;
    SpanStart(3);
  }

  lemma SpanStart(l: Level)
    ensures Span(l) % Span(l) == 0
  {
  }

  lemma NoSeenPast(v: nat)
    ensures !Seen(TwoPages(), Env(true, true, {}), PD, v).Found?
  {
    var m, env := TwoPages(), Env(true, true, {});
    hide Index;
    assert forall i: nat :: i < 4 ==> Read(m, Loc(true, PAGE + 8 * i)) == if i == 0 then ToDir1(false) else ZERO;
    hide TwoPages, Read;
    assert forall i: nat :: i < 512 ==> EntrySeen(m, env, 3 * PAGE, 4, 1, i) == ZERO;
  }

  // A directory at exactly 2^36, whose low bits name page 0: translation refuses that, search reads all
  // but its first entry.

  function ZeroTable(): Mem { map[ROOT := Pde(0, 1), Loc(false, 8) := Pte(0x400)] }

  const HIGH := Loc(false, NARROW)

  function ZeroTree(): Tree { map[ROOT := Node(0, None, ROOT, 0), HIGH := Node(1, Some(ROOT), ROOT, 0)] }

  lemma ZeroIsWellFormed()
    ensures WellFormed(ZeroTable(), ZeroTree()) && IsRoot(ZeroTree(), PD.Root())
  {
    var m, t := ZeroTable(), ZeroTree();
    FirstChild(ROOT, Node(0, None, ROOT, 0));
    forall d, i | d in t && 0 <= i < Entries(t[d].level)
      ensures EntryOk(m, t, d, i)
    {
      assert EntryAt(m, t, d, i) == if d == ROOT && i == 0 then Pde(0, 1) else ZERO;
      assert Pde(0, 1).Child() == HIGH;
      hide Slot, Read, Span, ChildNode, Entry.Child;
    }
  }

  lemma ZeroDirectoryIsSearched(env: Env)
    requires env.vidOk && !env.iommu
    ensures Seen(ZeroTable(), env, PD, Span(1)) == Found(FRAME, 2)
    ensures Translate(ZeroTable(), env, PD, Span(1)) == Translated(EINVAL, 0, INVALID)
  {
    FirstIndex(Span(1));
    hide Index;
  }

  // A 2 MiB page is wanted where an empty page table for small pages hangs: -EADDRINUSE, though no address
  // of the page is mapped.

  function SmallTable(): Mem { HugeTable(false)[Loc(false, 5 * PAGE + 8) := Pde(6, 0)] }

  lemma SmallTableRead(i: nat)
    requires i < 512
    ensures Read(SmallTable(), Slot(ROOT, 0, 0)) == ToDir1(false)
    ensures Read(SmallTable(), Slot(Dir1(false), 1, 0)) == Pde(4, 0)
    ensures Read(SmallTable(), Slot(DIR2, 2, 0)) == Pde(5, 0) && Read(SmallTable(), Slot(DIR3, 3, 0)) == Pde(6, 0)
    ensures Read(SmallTable(), Slot(Loc(false, 6 * PAGE), 4, i)) == ZERO
  {
  }

  lemma SmallTableLookup(m: Mem, u: nat)
    requires m == SmallTable() && Index(u, 0) == Index(u, 1) == Index(u, 2) == Index(u, 3) == 0 && Index(u, 4) < 512
    ensures Lookup(m, PD.Root(), u) == NotMapped
  {
    hide SmallTable, Read, Index, LookupFrom, Slot, Entry.Child, Entry.Frame, Dir1, Span, ToDir1, Pde;
    SmallTableRead(Index(u, 4));
    HugeChildren(false);
    SmallChild();
    ToDir1Is(false);
    FirstSlot();
    LookupLevel(m, ROOT, 0, u);
    LookupLevel(m, Dir1(false), 1, u);
    LookupLevel(m, DIR2, 2, u);
    LookupLevel(m, DIR3, 3, u);
    LookupLevel(m, Loc(false, 6 * PAGE), 4, u);
  }

  lemma SmallChild()
    ensures Pde(6, 0).Child() == Loc(false, 6 * PAGE)
  {
  }

  lemma SmallTableStop(m: Mem, v: nat)
    requires m == SmallTable() && Index(v, 0) == Index(v, 1) == Index(v, 2) == Index(v, 3) == 0
    ensures StopFrom(m, PD.Root(), 0, v, 3) == Stop(3, Pde(6, 0))
  {
    hide SmallTable, Read, Index, Slot, Entry.Child, Entry.Frame, Dir1, Span, ToDir1, Pde, StopFrom;
    SmallTableRead(0);
    HugeChildren(false);
    ToDir1Is(false);
    FirstSlot();
    StopLevel(m, ROOT, 0, v);
    StopLevel(m, Dir1(false), 1, v);
    StopLevel(m, DIR2, 2, v);
    StopLevel(m, DIR3, 3, v);
  }

  lemma EmptySmallTableIsInUse(m: Mem, q: Request, pool: seq<Outcome>)
    requires m == SmallTable() && q == Request(0, FRAME, 2, true)
    ensures MapReturn(m, PD.Root(), q, pool) == EADDRINUSE
    ensures forall u: nat | q.v <= u < q.v + q.Size() :: Lookup(m, PD.Root(), u) == NotMapped
  {
    hide SmallTable, LookupFrom, StopFrom, Index;
    forall u: nat | q.v <= u < q.v + q.Size()
      ensures Lookup(m, PD.Root(), u) == NotMapped
    {
      LowIndex(u);
      LastIndex(u);
      SmallTableLookup(m, u);
    }
    LowIndex(q.v);
    SmallTableStop(m, q.v);
  }

  lemma LastIndex(u: nat)
    ensures Index(u, 4) < 512
  {
  }

  lemma StopLevel(m: Mem, d: Loc, l: Level, v: nat)
    requires l <= 3 && IsPde(Read(m, Slot(d, l, Index(v, l))))
    ensures StopFrom(m, d, l, v, 3) ==
      if l < 3 then StopFrom(m, Read(m, Slot(d, l, Index(v, l))).Child(), l + 1, v, 3)
      else Stop(3, Read(m, Slot(d, l, Index(v, l))))
  {
  }

  // A collection where the level-1 directory is not the driver's, and the I/O MMU does not map it: the level-2
  // directory, which is the driver's, is freed, and the entry that points to it stays.

  const LISTED := PdPage(3 * PAGE, 4, 4 * PAGE)

  function Unmapping(): Pass { Pass(Env(true, true, {}), HugeTable(false), HugeTree(false), [LISTED], false) }

  lemma ListedSlot()
    ensures LISTED.ParentSlot() == Slot(Dir1(false), 1, 0) == Dir1(false) == PageOf(LISTED.ParentSlot())
  {
  }

  lemma ListIsSound()
    ensures Sound(HugeTable(false), HugeTree(false), [LISTED])
    ensures IsAttached(HugeTable(false), HugeTree(false), LISTED)
  {
    hide HugeTable, HugeTree, Entry.Child, WellFormed, EntryAt, Slot, PdPage.ParentSlot;
    HugeIsWellFormed(false);
    HugeDirs(false);
    HugeEntry(false, Dir1(false), 0);
    HugeChildren(false);
    ListedSlot();
    assert IsTracked(HugeTree(false), LISTED);
    assert IsParentEntry(HugeTable(false), HugeTree(false), Dir1(false), 0, LISTED);
  }

  lemma UnmappedIsFreed(s: Pass)
    requires s.ps == [LISTED] && s.env == Env(true, true, {}) && !s.force
    ensures s.Done() == 0 && !s.Points(0) && s.Gone() == {DIR2}
  {
    assert !s.Fails(0) && !s.Points(0);
    assert !s.Keeps(0);
  }

  lemma UnmappedParentLeavesEntry(m': Mem)
    requires Unmapping().MemAt(Unmapping().Done(), m')
    ensures Sound(HugeTable(false), HugeTree(false), [LISTED]) && !WellFormed(m', Unmapping().TreeAfter())
    ensures DIR2 in Unmapping().Gone() && Read(m', Dir1(false)) == Pde(4, 0)
  {
    hide HugeTable, HugeTree, Sound, IsAttached, Pass.Done, Pass.Keeps, Pass.Points, Pass.Gone;
    hide WellFormed, EntryAt, Slot;
    var s := Unmapping();
    ListIsSound();
    ListedSlot();
    UnmappedIsFreed(s);
    assert s.LeavesEntry(0);
    TreeRemainsExactly(s, m');
    EntryAfterPass(s, m');
  }

  lemma EntryAfterPass(s: Pass, m': Mem)
    requires s == Unmapping() && s.MemAt(s.Done(), m')
    ensures Read(m', Dir1(false)) == Pde(4, 0)
  {
    hide HugeTable, HugeTree, Read, Pass.Done, Pass.Keeps, Pass.Points;
    UnmappedIsFreed(s);
    HugeReads(false, 1, 0);
    ListedSlot();
    assert s.Severed() == {};
  }
}
