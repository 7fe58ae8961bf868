// Forward translation over flat memory, and when it finds what the hardware's walk finds.
module Translation {
  import opened Wrappers
  import opened GpuMemory
  import opened PageTable

  const ENXIO: int := -6
  const ENOMEM: int := -12
  const EINVAL: int := -22
  const EOPNOTSUPP: int := -95
  const EADDRINUSE: int := -98
  const ENOTRECOVERABLE: int := -131

  const HOPPER: nat := 0x180
  const ADA: nat := 0x190
  const BLACKWELL: nat := 0x1A0

  const PRAMIN_LEN: nat := 0x10_0000
  const PRAMIN_SPACE: nat := 0x100_0000_0000

  // Apertures: INST_TARGET, and the PD_TARGET that goes with it.
  const VID_MEM: U2 := 0
  const INVALID: U2 := 1

  function ToPdTarget(t: U2): U3 {
    if t >= 2 then 2 * t else if t == VID_MEM then 2 else 0
  }

  // bar0_window_t: the base counts 64 KiB units.
  datatype Window = Window(base: U24, target: U2, rest: U6) {
    // All ones: the register could not be read.
    predicate IsDead() { base == 0xFF_FFFF && target == 3 && rest == 0x3F }

    function Raw(): nat { base + 0x100_0000 * target + 0x400_0000 * rest }

    // The location that BAR0 shows `off` bytes into PRAMIN.
    function Behind(off: nat): Loc { Loc(target == VID_MEM, 0x1_0000 * base + off) }
  }

  // What pd_deref() returns: a PRAMIN offset or a system address, NULL, or an error.
  datatype Kva = Pramin(off: int) | Sys(addr: int) | Null | Bad(err: int) {
    function Plus(n: int): Kva {
      match this
      case Pramin(off) => Pramin(off + n)
      case Sys(a) => Sys(a + n)
      case _ => this
    }
  }

  // Everything apart from its arguments that decides whether an address can be dereferenced:
  // whether PRAMIN can show VID_MEM, and what the I/O MMU (if any) maps.
  datatype Env = Env(vidOk: bool, iommu: bool, mapped: set<nat>)

  datatype Target = Fails(err: int) | Unmapped | At(loc: Loc)

  // The location that an address and PD target denote, with no mention of the window.
  function Resolve(env: Env, addr: nat, target: U3): Target {
    if target % 2 == 1 || target == 0 || addr == 0 then Fails(EINVAL)
    else if target == 2 then
      if addr >= PRAMIN_SPACE then Fails(EINVAL)
      else if !env.vidOk then Fails(EOPNOTSUPP)
      else At(Loc(true, addr))
    else if env.iommu && addr / PAGE !in env.mapped then Unmapped
    else At(Loc(false, addr))
  }

  // Forward translation over flat memory, branch for branch.

  datatype Translated = Translated(ret: int, addr: nat, aperture: U2)

  // How the walk ends.
  datatype End =
    | Found(addr: nat, aperture: U2) // at a page entry
    | Missing                        // at an invalid entry
    | Lost(err: int)                 // at a directory that cannot be accessed
    | Nowhere                        // at one that the I/O MMU does not map
    | TooDeep                        // it ran out of levels

  function WalkFrom(m: Mem, env: Env, next: nat, target: U3, l: nat, v: nat): End
    requires l <= 5
    decreases 5 - l
  {
    if l == 5 then TooDeep
    else
      match Resolve(env, TableBase(next, l), target)
      case Fails(err) => Lost(err)
      case Unmapped => Nowhere
      case At(at) =>
        var e := Read(m, Loc(at.vid, at.addr + EntrySize(l) * Index(v, l)));
        if e.IsInvalid() then Missing
        else if e.IsPte() then Found(PAGE * e.addr, e.Aperture())
        else WalkFrom(m, env, PAGE * e.addr, e.target, l + 1, v)
  }

  function Result(e: End): Translated {
    match e
    case Found(a, ap) => Translated(0, a, ap)
    case Missing => Translated(ENXIO, 0, INVALID)
    case Lost(err) => Translated(err, 0, INVALID)
    case _ => Translated(0, 0, INVALID) // PTR_ERR(NULL) is 0
  }

  datatype PdConfig = PdConfig(pageDir: nat, target: U2) {
    function Next(): nat { PAGE * pageDir }

    function Root(): Loc { Loc(target == VID_MEM, Next()) }
  }

  function Walk(m: Mem, env: Env, pd: PdConfig, v: nat): End {
    WalkFrom(m, env, pd.Next(), ToPdTarget(pd.target), 0, v)
  }

  function Translate(m: Mem, env: Env, pd: PdConfig, v: nat): Translated {
    if v % PAGE != 0 then Translated(EINVAL, 0, INVALID) else Result(Walk(m, env, pd, v))
  }

  // Directories in VID_MEM have PD target 2, those in SYS_MEM the aperture in the upper two bits, others none.
  lemma PdTargetIs(t: U2)
    ensures ToPdTarget(t) % 2 == 0 && ToPdTarget(t) / 2 == if t == 0 then 1 else if t == 1 then 0 else t
  {
  }

  lemma Nested(addr: nat)
    ensures addr % PAGE <= addr % 0x1_0000
    ensures addr % 0x1_0000 - addr % PAGE + PAGE <= 0x1_0000
  {
    var k := addr / 0x1_0000;
    var r := addr % 0x1_0000;
    assert addr == PAGE * (16 * k + r / PAGE) + r % PAGE;
    Digit(addr, PAGE, r % PAGE, 16 * k + r / PAGE);
  }

  // The code adds 8 to the address of a directory with 16-byte entries before it indexes it.
  function TableBase(next: nat, l: Level): nat { if EntrySize(l) == 16 then next + 8 else next }

  lemma EntryInPage(next: nat, l: Level, i: nat)
    requires next % PAGE == 0 && i < Entries(l)
    ensures TableBase(next, l) % PAGE + EntrySize(l) * i <= PAGE - 8
    ensures l == 3 ==> TableBase(next, l) % PAGE == 8
    ensures TableBase(next, l) / PAGE * PAGE == next
    ensures forall vid :: Slot(Loc(vid, next), l, i) == Loc(vid, TableBase(next, l) + EntrySize(l) * i)
  {
  }

  predicate TargetFits(target: U3, d: Loc) { target in {2, 4, 6} && (target == 2 <==> d.vid) }

  // Directories that can be accessed.

  predicate Reaches(env: Env, d: Loc) {
    if d.vid then env.vidOk && d.addr < PRAMIN_SPACE else !env.iommu || d.addr / PAGE in env.mapped
  }

  ghost predicate Resolvable(env: Env, t: Tree) {
    forall d | d in t ::
      if d.vid then env.vidOk && d.addr + PAGE <= PRAMIN_SPACE
      else !env.iommu || d.addr / PAGE in env.mapped
  }

  // How the walk ends at a directory that cannot.
  function BlockedEnd(d: Loc): End {
    if !d.vid then Nowhere else if d.addr >= PRAMIN_SPACE then Lost(EINVAL) else Lost(EOPNOTSUPP)
  }

  lemma ResolveDir(env: Env, d: Loc, target: U3, l: Level)
    requires d.addr % PAGE == 0 && d.addr > 0 && TargetFits(target, d)
    ensures var b := TableBase(d.addr, l);
            Resolve(env, b, target) ==
              if Reaches(env, d) then At(Loc(d.vid, b))
              else match BlockedEnd(d) case Lost(err) => Fails(err) case _ => Unmapped
  {
    assert PRAMIN_SPACE % PAGE == 0;
  }

  // The location of an entry of a directory.
  lemma SlotResolves(env: Env, slot: Loc, target: U3)
    requires slot.addr > 0 && TargetFits(target, slot)
    ensures Resolve(env, slot.addr, target) ==
              if Reaches(env, PageOf(slot)) then At(slot)
              else match BlockedEnd(PageOf(slot)) case Lost(err) => Fails(err) case _ => Unmapped
  {
    assert PRAMIN_SPACE % PAGE == 0;
    Digit(PageOf(slot).addr, PAGE, 0, slot.addr / PAGE);
  }

  const NARROW: nat := 0x10_0000_0000

  lemma FrameMod(e: Entry)
    ensures e.Frame() % NARROW == PAGE * e.addr
  {
    if e.Aperture() >= 2 {
      Digit(e.Frame(), NARROW, PAGE * e.addr, e.addrHi);
    }
  }

  // What stands in the way of translation on the walk for `v`: nothing, a directory that cannot be
  // accessed, or an entry that names its directory by more than 24 address bits.
  datatype Obstacle = Clear | Blocked(dir: Loc) | Aliased(level: Level, entry: Entry)

  function ObstacleFrom(m: Mem, env: Env, d: Loc, l: Level, v: nat): Obstacle
    decreases 5 - l
  {
    if !Reaches(env, d) then Blocked(d)
    else
      var e := Read(m, Slot(d, l, Index(v, l)));
      if !IsPde(e) || l == 4 then Clear
      else if IsWide(e) then Aliased(l, e)
      else ObstacleFrom(m, env, e.Child(), l + 1, v)
  }

  function Obstructs(m: Mem, env: Env, pd: PdConfig, v: nat): Obstacle { ObstacleFrom(m, env, pd.Root(), 0, v) }

  function EndOf(r: Translation): End {
    match r
    case NotMapped => Missing
    case Mapped(frame, ap, _) => Found(frame % NARROW, ap)
  }

  // One level of the walk.
  lemma TranslateStep(m: Mem, env: Env, next: nat, target: U3, l: Level, v: nat)
    requires next % PAGE == 0
    ensures Index(v, l) < Entries(l)
    ensures WalkFrom(m, env, next, target, l, v) ==
      match Resolve(env, TableBase(next, l), target)
      case Fails(err) => Lost(err)
      case Unmapped => Nowhere
      case At(at) =>
        var e := Read(m, Slot(Loc(at.vid, next), l, Index(v, l)));
        if e.IsInvalid() then Missing
        else if e.IsPte() then Found(PAGE * e.addr, e.Aperture())
        else WalkFrom(m, env, PAGE * e.addr, e.target, l + 1, v)
  {
    EntryInPage(next, l, Index(v, l));
  }

  // The walk has run out of levels.
  lemma TranslateEnd(m: Mem, env: Env, next: nat, target: U3, v: nat)
    ensures WalkFrom(m, env, next, target, 5, v) == TooDeep
  {
  }

  lemma NarrowChild(m: Mem, t: Tree, d: Loc, i: nat)
    requires WellFormed(m, t) && d in t && i < Entries(t[d].level) && IsPde(EntryAt(m, t, d, i))
    ensures var e := EntryAt(m, t, d, i); var c := e.Child();
            && t[d].level < 4 && c in t && t[c] == ChildNode(d, t[d], i)
            && c.addr % PAGE == 0 && c.addr > 0 && TargetFits(e.target, c)
            && (!IsWide(e) ==> c.addr == PAGE * e.addr)
  {
    assert EntryOk(m, t, d, i);
    assert NodeOk(EntryAt(m, t, d, i).Child(), t[EntryAt(m, t, d, i).Child()]);
  }

  lemma EndOfPage(e: Entry, l: Level)
    ensures EndOf(Mapped(e.Frame(), e.Aperture(), l)) == Found(PAGE * e.addr, e.Aperture())
    ensures EndOf(NotMapped) == Missing
  {
    FrameMod(e);
  }

  lemma {:induction false} WalkFromLaw(m: Mem, env: Env, t: Tree, d: Loc, target: U3, l: Level, v: nat)
    requires WellFormed(m, t) && d in t && t[d].level == l && InDir(t, d, v) && TargetFits(target, d)
    ensures WalkFrom(m, env, d.addr, target, l, v) ==
      match ObstacleFrom(m, env, d, l, v)
      case Clear => EndOf(LookupFrom(m, d, l, v))
      case Blocked(b) => BlockedEnd(b)
      case Aliased(k, e) => WalkFrom(m, env, PAGE * e.addr, e.target, k + 1, v)
    decreases 5 - l
  {
    hide WalkFrom, WellFormed, Reaches, Resolve, Index, InDir, InEntry, NodeOk, TableBase, Entry.Frame, IsWide, Slot;
    hide EntryOk, Span, Entries, Read, Entry.Child, PageOf, EndOf;
    DirIn(m, t, d);
    WalkStep(m, t, d, v);
    ResolveDir(env, d, target, l);
    TranslateStep(m, env, d.addr, target, l, v);
    var i := Index(v, l);
    var e := EntryAt(m, t, d, i);
    EndOfPage(e, l);
    if IsPde(e) {
      NarrowChild(m, t, d, i);
      if Reaches(env, d) && !IsWide(e) { WalkFromLaw(m, env, t, e.Child(), e.target, l + 1, v); }
    }
  }

  // Translation on a well-formed table: without an obstacle it is the hardware's walk, with the
  // frame cut to 36 bits; at a wide entry it goes on in the page that the low 24 bits name.
  lemma TranslateLaw(m: Mem, env: Env, t: Tree, pd: PdConfig, v: nat)
    requires WellFormed(m, t) && IsRoot(t, pd.Root()) && pd.target != INVALID && v < VSPACE
    ensures Walk(m, env, pd, v) ==
      match Obstructs(m, env, pd, v)
      case Clear => EndOf(Lookup(m, pd.Root(), v))
      case Blocked(b) => BlockedEnd(b)
      case Aliased(k, e) => WalkFrom(m, env, PAGE * e.addr, e.target, k + 1, v)
  {
    RootIn(m, t, pd.Root(), v);
    RootTarget(pd);
    hide WalkFrom, LookupFrom, WellFormed, ObstacleFrom, InDir;
    WalkFromLaw(m, env, t, pd.Root(), ToPdTarget(pd.target), 0, v);
  }

  lemma RootTarget(pd: PdConfig)
    requires pd.target != INVALID
    ensures TargetFits(ToPdTarget(pd.target), pd.Root())
  {
  }

  // With all directories accessible, wide entries are the only obstacles.
  lemma {:induction false} OnlyWideObstructs(m: Mem, env: Env, t: Tree, d: Loc, v: nat)
    requires WellFormed(m, t) && Resolvable(env, t) && d in t && InDir(t, d, v)
    ensures !ObstacleFrom(m, env, d, t[d].level, v).Blocked?
    ensures ObstacleFrom(m, env, d, t[d].level, v).Clear? <==> NarrowWalk(m, d, t[d].level, v)
    decreases 5 - t[d].level
  {
    WalkStep(m, t, d, v);
    hide Index, Span, Cover, InDir, InEntry, NodeOk, WellFormed;
    var e := EntryAt(m, t, d, Index(v, t[d].level));
    if IsPde(e) { OnlyWideObstructs(m, env, t, e.Child(), v); }
  }

  lemma NarrowIsClear(m: Mem, env: Env, t: Tree, pd: PdConfig, v: nat)
    requires WellFormed(m, t) && Resolvable(env, t) && IsRoot(t, pd.Root()) && v < VSPACE
    ensures !Obstructs(m, env, pd, v).Blocked?
    ensures Obstructs(m, env, pd, v).Clear? <==> NarrowWalk(m, pd.Root(), 0, v)
  {
    RootIn(m, t, pd.Root(), v);
    OnlyWideObstructs(m, env, t, pd.Root(), v);
  }

  // The page that the low bits of a wide entry name holds nothing for `v`, or cannot be accessed.
  ghost predicate AliasIsDead(m: Mem, env: Env, o: Obstacle, v: nat) {
    o.Aliased? && o.level < 4 ==>
      var next, l := PAGE * o.entry.addr, o.level + 1;
      match Resolve(env, TableBase(next, l), o.entry.target)
      case At(at) => Read(m, Slot(Loc(at.vid, next), l, Index(v, l))).IsInvalid()
      case _ => true
  }

  lemma EmptyAliasIsDead(m: Mem, env: Env, l: Level, e: Entry, v: nat)
    requires IsWide(e) && l < 4 && forall x | PageOf(x) == Loc(false, PAGE * e.addr) :: Read(m, x) == ZERO
    ensures AliasIsDead(m, env, Aliased(l, e), v)
  {
    var page := Loc(false, PAGE * e.addr);
    Digit(page.addr, PAGE, 0, e.addr);
    SlotInPage(page, l + 1, Index(v, l + 1));
  }

  // The obstacle makes the walk end at NULL, which translation reports as 0.
  predicate IsNull(env: Env, o: Obstacle) {
    match o
    case Clear => false
    case Blocked(d) => !d.vid
    case Aliased(l, e) => env.iommu && e.addr !in env.mapped && (e.addr != 0 || l == 2)
  }

  lemma AliasEnd(m: Mem, env: Env, l: Level, e: Entry, v: nat)
    requires IsWide(e) && l < 4 && AliasIsDead(m, env, Aliased(l, e), v)
    ensures var end := WalkFrom(m, env, PAGE * e.addr, e.target, l + 1, v);
            (end.Missing? || end.Lost? || end.Nowhere?) && (end.Nowhere? <==> IsNull(env, Aliased(l, e)))
  {
    var next := PAGE * e.addr;
    hide WalkFrom, Index, Slot, Read;
    TranslateStep(m, env, next, e.target, l + 1, v);
    Digit(TableBase(next, l + 1), PAGE, TableBase(next, l + 1) - next, e.addr);
  }

  lemma {:induction false} ObstacleIs(m: Mem, env: Env, d: Loc, l: Level, v: nat)
    ensures var o := ObstacleFrom(m, env, d, l, v);
      && (o.Aliased? ==> IsWide(o.entry) && o.level < 4) && (o.Blocked? ==> !Reaches(env, o.dir))
    decreases 5 - l
  {
    var e := Read(m, Slot(d, l, Index(v, l)));
    if IsPde(e) && l < 4 { ObstacleIs(m, env, e.Child(), l + 1, v); }
  }

  // How the walk ends if the pages that wide entries alias are dead.
  lemma ObstructedEnd(m: Mem, env: Env, t: Tree, pd: PdConfig, v: nat)
    requires WellFormed(m, t) && IsRoot(t, pd.Root()) && pd.target != INVALID && v < VSPACE
    requires AliasIsDead(m, env, Obstructs(m, env, pd, v), v)
    ensures var o, end := Obstructs(m, env, pd, v), Walk(m, env, pd, v);
      && (end.Found? ==> o.Clear?) && (end.Nowhere? || end.TooDeep? <==> IsNull(env, o)) && !end.TooDeep?
  {
    TranslateLaw(m, env, t, pd, v);
    ObstacleIs(m, env, pd.Root(), 0, v);
    var o := Obstructs(m, env, pd, v);
    hide WalkFrom, LookupFrom, WellFormed, ObstacleFrom, AliasIsDead;
    if o.Aliased? { AliasEnd(m, env, o.level, o.entry, v); }
  }

  // Translation returns 0 without having found a page if and only if the walk meets a directory that
  // the I/O MMU does not map (or, past a wide entry, the page in its stead).
  lemma NullMeans(m: Mem, env: Env, t: Tree, pd: PdConfig, v: nat)
    requires WellFormed(m, t) && IsRoot(t, pd.Root()) && pd.target != INVALID && v < VSPACE && v % PAGE == 0
    requires AliasIsDead(m, env, Obstructs(m, env, pd, v), v)
    ensures Translate(m, env, pd, v).ret == 0 && !Walk(m, env, pd, v).Found? <==> IsNull(env, Obstructs(m, env, pd, v))
  {
    ObstructedEnd(m, env, t, pd, v);
    LostIsError(m, env, pd.Next(), ToPdTarget(pd.target), 0, v);
    hide WalkFrom, WellFormed, ObstacleFrom, AliasIsDead;
  }

  lemma FailIsError(env: Env, addr: nat, target: U3)
    ensures var at := Resolve(env, addr, target); at.Fails? ==> at.err < 0
  {
  }

  lemma {:induction false} LostIsError(m: Mem, env: Env, next: nat, target: U3, l: nat, v: nat)
    requires l <= 5
    ensures var end := WalkFrom(m, env, next, target, l, v); end.Lost? ==> end.err < 0
    decreases 5 - l
  {
    hide Index, TableBase, EntrySize, Read, Resolve;
    if l < 5 {
      FailIsError(env, TableBase(next, l), target);
      var at := Resolve(env, TableBase(next, l), target);
      if at.At? {
        var e := Read(m, Loc(at.loc.vid, at.loc.addr + EntrySize(l) * Index(v, l)));
        if IsPde(e) { LostIsError(m, env, PAGE * e.addr, e.target, l + 1, v); }
      }
    }
  }

  // The walk finds the physical address of a mapped page if and only if nothing obstructs it, the
  // frame lies below 2^36, and the address is the first of the page (as for small pages it must be).
  lemma FoundExact(m: Mem, env: Env, t: Tree, pd: PdConfig, v: nat)
    requires WellFormed(m, t) && IsRoot(t, pd.Root()) && pd.target != INVALID && v < VSPACE
    requires Lookup(m, pd.Root(), v).Mapped? && AliasIsDead(m, env, Obstructs(m, env, pd, v), v)
    ensures var r := Lookup(m, pd.Root(), v);
      Walk(m, env, pd, v) == Found(Physical(r, v), r.aperture) <==>
        Obstructs(m, env, pd, v).Clear? && r.frame < NARROW && v % Span(r.level) == 0
  {
    var r := Lookup(m, pd.Root(), v);
    assert Span(r.level) > 0;
    hide Walk, Lookup, WellFormed, Obstructs, AliasIsDead, Span, IsNull, BlockedEnd;
    TranslateLaw(m, env, t, pd, v);
    ObstructedEnd(m, env, t, pd, v);
    CutFrame(r.frame, v % Span(r.level));
  }

  lemma CutFrame(frame: nat, offset: nat)
    ensures frame % NARROW == frame + offset <==> frame < NARROW && offset == 0
  {
  }

  // Translation is right under exactly this condition, save that for page 0 of a peer its NULL
  // result reads like the right one.
  lemma TranslateExact(m: Mem, env: Env, t: Tree, pd: PdConfig, v: nat)
    requires WellFormed(m, t) && IsRoot(t, pd.Root()) && pd.target != INVALID && v < VSPACE && v % PAGE == 0
    requires Lookup(m, pd.Root(), v).Mapped? && AliasIsDead(m, env, Obstructs(m, env, pd, v), v)
    ensures var r, o := Lookup(m, pd.Root(), v), Obstructs(m, env, pd, v);
      Translate(m, env, pd, v) == Translated(0, Physical(r, v), r.aperture) <==>
        || (o.Clear? && r.frame < NARROW && v % Span(r.level) == 0)
        || (IsNull(env, o) && Physical(r, v) == 0 && r.aperture == INVALID)
  {
    FoundExact(m, env, t, pd, v);
    ObstructedEnd(m, env, t, pd, v);
    LostIsError(m, env, pd.Next(), ToPdTarget(pd.target), 0, v);
    hide WalkFrom, LookupFrom, WellFormed, ObstacleFrom, AliasIsDead, Physical, IsNull, Span;
  }
}
