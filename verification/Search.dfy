// Reverse search over flat memory, and which pages it finds.
module Search {
  import opened GpuMemory
  import opened PageTable
  import opened Translation

  // What the search sees on its way to address `v`. It resolves each entry's address by itself, and
  // takes an entry that it cannot access for an invalid one.

  function EntryAddr(next: nat, l: Level, i: nat): nat { next + EntrySize(l) * i + if l == 3 then 8 else 0 }

  function EntrySeen(m: Mem, env: Env, next: nat, target: U3, l: Level, i: nat): Entry {
    match Resolve(env, EntryAddr(next, l, i), target)
    case At(at) => Read(m, at)
    case _ => ZERO
  }

  function SeenFrom(m: Mem, env: Env, next: nat, target: U3, l: nat, v: nat): End
    requires l <= 5
    decreases 5 - l
  {
    if l == 5 then TooDeep
    else
      var e := EntrySeen(m, env, next, target, l, Index(v, l));
      if e.IsInvalid() then Missing
      else if e.IsPte() then Found(PAGE * e.addr, e.Aperture())
      else SeenFrom(m, env, PAGE * e.addr, e.target, l + 1, v)
  }

  function Seen(m: Mem, env: Env, pd: PdConfig, v: nat): End {
    SeenFrom(m, env, pd.Next(), ToPdTarget(pd.target), 0, v)
  }

  // A directory as the search meets it, with the virtual address where its coverage starts.
  datatype Place = Place(next: nat, target: U3, level: Level, base: nat) {
    ghost predicate Ok() { next % PAGE == 0 && next <= TOP_PAGE && base % Cover(level) == 0 }

    function Start(i: nat): nat { base + i * Span(level) }

    function Below(e: Entry, i: nat): Place
      requires level < 4
    {
      Place(PAGE * e.addr, e.target, level + 1, Start(i))
    }

    function Sees(m: Mem, env: Env, v: nat): End { SeenFrom(m, env, next, target, level, v) }

    function EntryAt(m: Mem, env: Env, i: nat): Entry { EntrySeen(m, env, next, target, level, i) }
  }

  // No address of a range leads the search below the last level, where it would leave its tables.
  ghost predicate NoneTooDeep(m: Mem, env: Env, p: Place, from: nat, to: nat) {
    forall u | from <= u < to :: p.Sees(m, env, u) != TooDeep
  }

  ghost predicate NoHit(m: Mem, env: Env, p: Place, from: nat, to: nat, hit: End) {
    forall u | from <= u < to :: p.Sees(m, env, u) != hit
  }

  lemma NoHitBefore(m: Mem, env: Env, p: Place, from: nat, hit: End)
    ensures NoHit(m, env, p, from, from, hit)
  {
  }

  // `res` is 0 if entry `i` of `p` covers no hit, else 1 plus the offset of its least hit.
  ghost predicate LeastHit(m: Mem, env: Env, p: Place, i: nat, hit: End, res: nat) {
    var start := p.Start(i);
    if res == 0 then NoHit(m, env, p, start, start + Span(p.level), hit)
    else
      && res % PAGE == 1 && res <= Span(p.level)
      && p.Sees(m, env, start + res - 1) == hit && NoHit(m, env, p, start, start + res - 1, hit)
  }

  lemma SeesEntry(m: Mem, env: Env, p: Place, i: nat, u: nat)
    requires p.Ok() && i < Entries(p.level) && p.Start(i) <= u < p.Start(i) + Span(p.level)
    ensures var e := p.EntryAt(m, env, i);
            p.Sees(m, env, u) ==
              if e.IsInvalid() then Missing
              else if e.IsPte() then Found(PAGE * e.addr, e.Aperture())
              else SeenFrom(m, env, PAGE * e.addr, e.target, p.level + 1, u)
  {
    IndexOf(p.level, p.base, i, u);
  }

  lemma LeafHit(m: Mem, env: Env, p: Place, i: nat, hit: End, res: nat)
    requires p.Ok() && i < Entries(p.level) && !IsPde(p.EntryAt(m, env, i)) && hit.Found?
    requires var e := p.EntryAt(m, env, i);
             res == if e.IsPte() && Found(PAGE * e.addr, e.Aperture()) == hit then 1 else 0
    ensures LeastHit(m, env, p, i, hit, res)
  {
    var start := p.Start(i);
    forall u | start <= u < start + Span(p.level)
      ensures p.Sees(m, env, u) == hit <==> res == 1
    {
      SeesEntry(m, env, p, i, u);
    }
  }

  // Below a directory entry, the search sees what it sees from the child.
  lemma BelowEntry(m: Mem, env: Env, p: Place, i: nat)
    requires p.Ok() && i < Entries(p.level) && IsPde(p.EntryAt(m, env, i))
    requires NoneTooDeep(m, env, p, p.Start(i), p.Start(i) + Span(p.level))
    ensures p.level < 4
    ensures var c, start := p.Below(p.EntryAt(m, env, i), i), p.Start(i);
      && c.Ok() && c.base == start && start + Cover(c.level) == start + Span(p.level)
      && forall u: nat | start <= u < start + Span(p.level) :: p.Sees(m, env, u) == c.Sees(m, env, u)
  {
    var e, start := p.EntryAt(m, env, i), p.Start(i);
    SeesEntry(m, env, p, i, start);
    assert p.level < 4;
    var c := p.Below(e, i);
    ChildBase(p.level, p.base, i);
    Geometry(p.level);
    Digit(c.next, PAGE, 0, e.addr);
    forall u: nat | start <= u < start + Span(p.level)
      ensures p.Sees(m, env, u) == c.Sees(m, env, u)
    {
      hide Span, SeenFrom, EntrySeen;
      SeesEntry(m, env, p, i, u);
    }
  }

  lemma ChildRange(c: Place)
    ensures c.Start(0) == c.base && c.Start(Entries(c.level)) == c.base + Cover(c.level)
  {
    Geometry(c.level);
  }

  // `lo` and `hi` have no set bit in common.
  function OrDisjoint(lo: nat, hi: nat, k: nat): nat
    requires k > 0 && lo < k && hi % k == 0
  {
    lo + hi
  }

  lemma ChildOffsets(l: Level, j: nat, res: nat)
    requires l < 4 && j < Entries(l + 1)
    ensures var s := Span(l + 1);
      && (j + 1) * s == j * s + s <= Span(l) && j * s % s == 0
      && (res % PAGE == 1 && res <= s ==> res < s && (res + j * s) % PAGE == 1)
  {
    var s := Span(l + 1);
    Digit(j * s, s, 0, j);
    MulMono(j + 1, Entries(l + 1), s);
    Geometry(l);
    Geometry(l + 1);
    if res % PAGE == 1 { ModPage(l + 1, res, j); }
    assert s % PAGE == 0;
  }

  lemma ModPage(l: Level, res: nat, j: nat)
    requires res % PAGE == 1
    ensures (res + j * Span(l)) % PAGE == 1
  {
    var k := Span(l) / PAGE;
    MulAssoc(PAGE, k, j);
    Digit(res + j * Span(l), PAGE, 1, res / PAGE + k * j);
  }

  // One entry `j` of the child, after the entries before it without a hit.
  lemma ChildHit(m: Mem, env: Env, p: Place, i: nat, j: nat, hit: End, res: nat)
    requires p.Ok() && i < Entries(p.level) && IsPde(p.EntryAt(m, env, i))
    requires NoneTooDeep(m, env, p, p.Start(i), p.Start(i) + Span(p.level))
    requires p.level < 4 && j < Entries(p.level + 1)
    requires var c := p.Below(p.EntryAt(m, env, i), i);
             NoHit(m, env, c, c.base, c.Start(j), hit) && LeastHit(m, env, c, j, hit, res)
    ensures res > 0 ==>
      res < Span(p.level + 1) && LeastHit(m, env, p, i, hit, res + j * Span(p.level + 1))
    ensures j * Span(p.level + 1) % Span(p.level + 1) == 0
    ensures var c := p.Below(p.EntryAt(m, env, i), i); res == 0 ==> NoHit(m, env, c, c.base, c.Start(j + 1), hit)
  {
    ChildOffsets(p.level, j, res);
    BelowEntry(m, env, p, i);
    hide SeenFrom, EntrySeen, Span, Entries, NoneTooDeep, Place.Ok, Place.Sees, Place.EntryAt;
  }

  lemma NoChildHit(m: Mem, env: Env, p: Place, i: nat, hit: End)
    requires p.Ok() && i < Entries(p.level) && IsPde(p.EntryAt(m, env, i)) && p.level < 4
    requires NoneTooDeep(m, env, p, p.Start(i), p.Start(i) + Span(p.level))
    requires var c := p.Below(p.EntryAt(m, env, i), i); NoHit(m, env, c, c.base, c.base + Cover(c.level), hit)
    ensures LeastHit(m, env, p, i, hit, 0)
  {
    BelowEntry(m, env, p, i);
    hide SeenFrom, EntrySeen, Span, Cover, Entries, NoneTooDeep, Place.Ok, Place.Sees, Place.EntryAt;
  }

  // The entries of the child stay clear of the tables' end as well.
  lemma ChildNotTooDeep(m: Mem, env: Env, p: Place, i: nat, j: nat)
    requires p.Ok() && i < Entries(p.level) && IsPde(p.EntryAt(m, env, i))
    requires NoneTooDeep(m, env, p, p.Start(i), p.Start(i) + Span(p.level))
    requires p.level < 4 && j < Entries(p.level + 1)
    ensures var c := p.Below(p.EntryAt(m, env, i), i);
            c.Ok() && NoneTooDeep(m, env, c, c.Start(j), c.Start(j) + Span(c.level))
  {
    ChildOffsets(p.level, j, 0);
    BelowEntry(m, env, p, i);
    hide SeenFrom, EntrySeen, Span, Entries, Place.Ok, Place.Sees, Place.EntryAt;
  }

  // The whole table.

  function RootPlace(pd: PdConfig): Place { Place(pd.Next(), ToPdTarget(pd.target), 0, 0) }

  // Search never reads beyond its last level.
  ghost predicate IsSearchable(m: Mem, env: Env, pd: PdConfig) {
    forall v: nat | v < VSPACE :: Seen(m, env, pd, v) != TooDeep
  }

  lemma RootEntry(m: Mem, env: Env, pd: PdConfig, i: nat)
    requires IsSearchable(m, env, pd) && pd.pageDir < 0x10_0000_0000_0000 && i < Entries(0)
    ensures var p := RootPlace(pd); p.Ok() && NoneTooDeep(m, env, p, p.Start(i), p.Start(i) + Span(0))
  {
    var p := RootPlace(pd);
    Digit(p.next, PAGE, 0, pd.pageDir);
    forall u | p.Start(i) <= u < p.Start(i) + Span(0)
      ensures p.Sees(m, env, u) != TooDeep
    {
      assert u < VSPACE && p.Sees(m, env, u) == Seen(m, env, pd, u);
    }
  }

  ghost predicate Unseen(m: Mem, env: Env, pd: PdConfig, to: nat, hit: End) {
    forall v: nat | v < to :: Seen(m, env, pd, v) != hit
  }

  // The answer `res` to a search: the least address where the search sees the page, or 0.
  ghost predicate IsAnswer(m: Mem, env: Env, pd: PdConfig, find: nat, ap: U2, res: nat) {
    if find % PAGE != 0 then res == 0
    else
      && Unseen(m, env, pd, res, Found(find, ap))
      && (res > 0 ==> res < VSPACE && res % PAGE == 0 && Seen(m, env, pd, res) == Found(find, ap))
      && (res == 0 && Seen(m, env, pd, 0) != Found(find, ap) ==> Unseen(m, env, pd, VSPACE, Found(find, ap)))
  }

  lemma NoAnswer(m: Mem, env: Env, pd: PdConfig, find: nat, ap: U2)
    requires find % PAGE != 0
    ensures IsAnswer(m, env, pd, find, ap, 0)
  {
  }

  lemma RootNoHit(m: Mem, env: Env, pd: PdConfig, to: nat, hit: End)
    ensures NoHit(m, env, RootPlace(pd), 0, to, hit) <==> Unseen(m, env, pd, to, hit)
  {
    hide SeenFrom;
    assert forall v: nat :: RootPlace(pd).Sees(m, env, v) == Seen(m, env, pd, v);
  }

  // Entry `i` of the root covers the first hit.
  lemma TopHit(m: Mem, env: Env, pd: PdConfig, i: nat, r: nat, find: nat, ap: U2)
    requires i < Entries(0) && find % PAGE == 0 && r > 0
    requires NoHit(m, env, RootPlace(pd), 0, i * Span(0), Found(find, ap))
    requires LeastHit(m, env, RootPlace(pd), i, Found(find, ap), r)
    ensures r - r % PAGE < Span(0) && IsAnswer(m, env, pd, find, ap, r - r % PAGE + i * Span(0))
  {
    hide SeenFrom;
    assert r % PAGE == 1 && Span(0) % PAGE == 0;
    var res := r - r % PAGE + i * Span(0);
    assert NoHit(m, env, RootPlace(pd), 0, res, Found(find, ap));
    RootNoHit(m, env, pd, res, Found(find, ap));
    assert Seen(m, env, pd, res) == Found(find, ap);
  }

  // One more entry of the root without a hit.
  lemma TopMiss(m: Mem, env: Env, pd: PdConfig, i: nat, hit: End)
    requires i < Entries(0) && NoHit(m, env, RootPlace(pd), 0, i * Span(0), hit)
    requires LeastHit(m, env, RootPlace(pd), i, hit, 0)
    ensures NoHit(m, env, RootPlace(pd), 0, (i + 1) * Span(0), hit)
  {
    hide SeenFrom;
  }

  lemma NothingFound(m: Mem, env: Env, pd: PdConfig, find: nat, ap: U2)
    requires find % PAGE == 0 && NoHit(m, env, RootPlace(pd), 0, VSPACE, Found(find, ap))
    ensures IsAnswer(m, env, pd, find, ap, 0)
  {
    RootNoHit(m, env, pd, VSPACE, Found(find, ap));
  }

  // Search and translation. On any memory they agree about every address on whose walk no directory
  // of 8-byte entries sits at address 0: translation refuses it, search only its first entry.

  ghost predicate NonzeroWalk(m: Mem, env: Env, next: nat, target: U3, l: nat, v: nat)
    requires l <= 5
    decreases 5 - l
  {
    if l == 5 then true
    else if next == 0 && EntrySize(l) != 16 then false
    else
      match Resolve(env, TableBase(next, l), target)
      case At(at) =>
        var e := Read(m, Loc(at.vid, at.addr + EntrySize(l) * Index(v, l)));
        IsPde(e) ==> NonzeroWalk(m, env, PAGE * e.addr, e.target, l + 1, v)
      case _ => true
  }

  lemma EntryResolvesAlone(env: Env, next: nat, target: U3, l: Level, i: nat)
    requires next % PAGE == 0 && (next > 0 || EntrySize(l) == 16) && i < Entries(l)
    ensures var base := Resolve(env, TableBase(next, l), target);
      match Resolve(env, EntryAddr(next, l, i), target)
      case At(at) => base.At? && at == Loc(base.loc.vid, base.loc.addr + EntrySize(l) * i)
      case _ => !base.At?
  {
    EntryInPage(next, l, i);
    Digit(EntryAddr(next, l, i), PAGE, EntryAddr(next, l, i) - next, next / PAGE);
    Digit(TableBase(next, l), PAGE, TableBase(next, l) - next, next / PAGE);
  }

  // What a walk finds, as far as search can tell.
  function AsSeen(e: End): End { if e.Lost? || e.Nowhere? then Missing else e }

  lemma {:induction false} SeenIsFound(m: Mem, env: Env, next: nat, target: U3, l: nat, v: nat)
    requires l <= 5 && next % PAGE == 0 && NonzeroWalk(m, env, next, target, l, v)
    ensures SeenFrom(m, env, next, target, l, v) == AsSeen(WalkFrom(m, env, next, target, l, v))
    decreases 5 - l
  {
    if l < 5 {
      var i := Index(v, l);
      assert i < Entries(l);
      EntryResolvesAlone(env, next, target, l, i);
      hide Resolve, TableBase, EntryAddr, Index, EntrySize;
      var e := EntrySeen(m, env, next, target, l, i);
      if IsPde(e) {
        Digit(PAGE * e.addr, PAGE, 0, e.addr);
        SeenIsFound(m, env, PAGE * e.addr, e.target, l + 1, v);
      }
    }
  }

  // A walk that meets such a directory finds nothing; neither does the search, on its way to address 0.

  lemma {:induction false} ZeroIsLost(m: Mem, env: Env, next: nat, target: U3, l: nat, v: nat)
    requires l <= 5 && !NonzeroWalk(m, env, next, target, l, v)
    ensures WalkFrom(m, env, next, target, l, v).Lost?
    decreases 5 - l
  {
    if next > 0 || EntrySize(l) == 16 {
      hide Index, TableBase, EntrySize;
      var at := Resolve(env, TableBase(next, l), target).loc;
      var e := Read(m, Loc(at.vid, at.addr + EntrySize(l) * Index(v, l)));
      ZeroIsLost(m, env, PAGE * e.addr, e.target, l + 1, v);
    }
  }

  lemma {:induction false} ZeroIsUnseen(m: Mem, env: Env, next: nat, target: U3, l: nat)
    requires l <= 5 && next % PAGE == 0 && !NonzeroWalk(m, env, next, target, l, 0)
    ensures SeenFrom(m, env, next, target, l, 0) == Missing
    decreases 5 - l
  {
    assert l < 5 && Index(0, l) == 0;
    if next > 0 || EntrySize(l) == 16 {
      EntryResolvesAlone(env, next, target, l, 0);
      hide Resolve, Index, TableBase, EntryAddr;
      var at := Resolve(env, TableBase(next, l), target).loc;
      var e := Read(m, Loc(at.vid, at.addr + EntrySize(l) * Index(0, l)));
      Digit(PAGE * e.addr, PAGE, 0, e.addr);
      ZeroIsUnseen(m, env, PAGE * e.addr, e.target, l + 1);
    }
  }

  lemma SeenOrLost(m: Mem, env: Env, pd: PdConfig, v: nat)
    ensures var nonzero := NonzeroWalk(m, env, pd.Next(), ToPdTarget(pd.target), 0, v);
      && (nonzero ==> Seen(m, env, pd, v) == AsSeen(Walk(m, env, pd, v)))
      && (!nonzero ==> Walk(m, env, pd, v).Lost? && Walk(m, env, pd, v).err < 0)
      && (!nonzero && v == 0 ==> Seen(m, env, pd, v) == Missing)
  {
    hide SeenFrom, WalkFrom, NonzeroWalk;
    Digit(pd.Next(), PAGE, 0, pd.pageDir);
    LostIsError(m, env, pd.Next(), ToPdTarget(pd.target), 0, v);
    if NonzeroWalk(m, env, pd.Next(), ToPdTarget(pd.target), 0, v) {
      SeenIsFound(m, env, pd.Next(), ToPdTarget(pd.target), 0, v);
    } else {
      ZeroIsLost(m, env, pd.Next(), ToPdTarget(pd.target), 0, v);
      if v == 0 { ZeroIsUnseen(m, env, pd.Next(), ToPdTarget(pd.target), 0); }
    }
  }

  // On any memory: the answer translates to the page if and only if its own walk meets no such directory,
  // no smaller address translates to it, and 0 means that none does, unless 0 does.
  lemma AnswerTranslates(m: Mem, env: Env, pd: PdConfig, find: nat, ap: U2, res: nat)
    requires IsAnswer(m, env, pd, find, ap, res) && find % PAGE == 0
    ensures res > 0 ==>
      (Translate(m, env, pd, res) == Translated(0, find, ap) <==>
        NonzeroWalk(m, env, pd.Next(), ToPdTarget(pd.target), 0, res))
    ensures forall v: nat | v < res :: Walk(m, env, pd, v) != Found(find, ap)
    ensures res == 0 && Walk(m, env, pd, 0) != Found(find, ap) ==>
      forall v: nat | v < VSPACE :: Walk(m, env, pd, v) != Found(find, ap)
  {
    hide Seen, Walk, NonzeroWalk;
    SeenOrLost(m, env, pd, res);
    SeenOrLost(m, env, pd, 0);
    forall v: nat | v < VSPACE
      ensures Walk(m, env, pd, v) == Found(find, ap) ==> Seen(m, env, pd, v) == Found(find, ap)
    {
      SeenOrLost(m, env, pd, v);
    }
  }

  // Search on a well-formed table, in terms of what the hardware maps.

  lemma NonzeroStep(m: Mem, env: Env, next: nat, target: U3, l: Level, v: nat)
    requires next % PAGE == 0 && next > 0
    ensures NonzeroWalk(m, env, next, target, l, v) <==>
      match Resolve(env, TableBase(next, l), target)
      case At(at) =>
        var e := Read(m, Slot(Loc(at.vid, next), l, Index(v, l)));
        IsPde(e) ==> NonzeroWalk(m, env, PAGE * e.addr, e.target, l + 1, v)
      case _ => true
  {
    EntryInPage(next, l, Index(v, l));
  }

  lemma {:induction false} TreeIsNonzero(m: Mem, env: Env, t: Tree, d: Loc, target: U3, v: nat)
    requires WellFormed(m, t) && d in t && InDir(t, d, v) && TargetFits(target, d)
    requires !ObstacleFrom(m, env, d, t[d].level, v).Aliased?
    ensures NonzeroWalk(m, env, d.addr, target, t[d].level, v)
    decreases 5 - t[d].level
  {
    var l := t[d].level;
    hide WellFormed, Reaches, Resolve, Index, InDir, InEntry, NodeOk, TableBase, IsWide, Slot, EntryOk, Span, Entries;
    hide Read, Entry.Child, PageOf, EntrySize, NonzeroWalk;
    DirIn(m, t, d);
    WalkStep(m, t, d, v);
    ResolveDir(env, d, target, l);
    NonzeroStep(m, env, d.addr, target, l, v);
    var e := EntryAt(m, t, d, Index(v, l));
    if IsPde(e) {
      NarrowChild(m, t, d, Index(v, l));
      if Reaches(env, d) { TreeIsNonzero(m, env, t, e.Child(), e.target, v); }
    }
  }

  lemma EntrySeenInDir(m: Mem, env: Env, d: Loc, target: U3, l: Level, i: nat)
    requires d.addr % PAGE == 0 && d.addr > 0 && TargetFits(target, d) && i < Entries(l)
    ensures EntrySeen(m, env, d.addr, target, l, i) == if Reaches(env, d) then Read(m, Slot(d, l, i)) else ZERO
  {
    ResolveDir(env, d, target, l);
    EntryInPage(d.addr, l, i);
    EntryResolvesAlone(env, d.addr, target, l, i);
    hide Resolve, Reaches;
  }

  lemma {:induction false} SeenFromLaw(m: Mem, env: Env, t: Tree, d: Loc, target: U3, l: Level, v: nat)
    requires WellFormed(m, t) && d in t && t[d].level == l && InDir(t, d, v) && TargetFits(target, d)
    ensures SeenFrom(m, env, d.addr, target, l, v) ==
      match ObstacleFrom(m, env, d, l, v)
      case Clear => EndOf(LookupFrom(m, d, l, v))
      case Blocked(_) => Missing
      case Aliased(k, e) => SeenFrom(m, env, PAGE * e.addr, e.target, k + 1, v)
    decreases 5 - l
  {
    hide EntrySeen, WellFormed, Reaches, Index, InDir, InEntry, NodeOk, Entry.Frame, IsWide, Slot;
    hide EntryOk, Span, Entries, Read, Entry.Child, PageOf, EndOf;
    DirIn(m, t, d);
    WalkStep(m, t, d, v);
    var i := Index(v, l);
    var e := EntryAt(m, t, d, i);
    EntrySeenInDir(m, env, d, target, l, i);
    EndOfPage(e, l);
    if IsPde(e) {
      NarrowChild(m, t, d, i);
      if Reaches(env, d) && !IsWide(e) { SeenFromLaw(m, env, t, e.Child(), e.target, l + 1, v); }
    }
  }

  // What the search sees through the page that the low bits of a wide entry name.
  function SeenBehind(m: Mem, env: Env, o: Obstacle, v: nat): End {
    match o
    case Aliased(k, e) => if k < 4 then SeenFrom(m, env, PAGE * e.addr, e.target, k + 1, v) else Missing
    case _ => Missing
  }

  // On any well-formed table: without an obstacle the search sees what the hardware maps, at a
  // directory that it cannot access nothing, and past a wide entry what lies behind it.
  lemma SearchLaw(m: Mem, env: Env, t: Tree, pd: PdConfig, v: nat)
    requires WellFormed(m, t) && IsRoot(t, pd.Root()) && pd.target != INVALID && v < VSPACE
    ensures var o := Obstructs(m, env, pd, v);
      Seen(m, env, pd, v) == if o.Clear? then EndOf(Lookup(m, pd.Root(), v)) else SeenBehind(m, env, o, v)
  {
    RootIn(m, t, pd.Root(), v);
    RootTarget(pd);
    ObstacleIs(m, env, pd.Root(), 0, v);
    hide SeenFrom, LookupFrom, WellFormed, ObstacleFrom, InDir;
    SeenFromLaw(m, env, t, pd.Root(), ToPdTarget(pd.target), 0, v);
  }

  // So a table can be searched if and only if no page behind a wide entry leads too deep.
  lemma TreeIsSearchable(m: Mem, env: Env, t: Tree, pd: PdConfig)
    requires WellFormed(m, t) && IsRoot(t, pd.Root()) && pd.target != INVALID
    ensures IsSearchable(m, env, pd) <==>
      forall v: nat | v < VSPACE :: SeenBehind(m, env, Obstructs(m, env, pd, v), v) != TooDeep
  {
    hide Seen, Lookup, WellFormed, Obstructs;
    forall v: nat | v < VSPACE
      ensures Seen(m, env, pd, v) == TooDeep <==> SeenBehind(m, env, Obstructs(m, env, pd, v), v) == TooDeep
    {
      SearchLaw(m, env, t, pd, v);
    }
  }

  // A page of the table starts at `v`, and its frame has the low bits searched for.
  ghost predicate StartsAt(m: Mem, pd: PdConfig, find: nat, ap: U2, v: nat) {
    var r := Lookup(m, pd.Root(), v);
    r.Mapped? && v % Span(r.level) == 0 && r.frame % NARROW == find && r.aperture == ap
  }

  // The hardware maps `v` to the physical address searched for.
  ghost predicate MapsTo(m: Mem, pd: PdConfig, find: nat, ap: U2, v: nat) {
    var r := Lookup(m, pd.Root(), v);
    r.Mapped? && Physical(r, v) == find && r.aperture == ap
  }

  lemma BlockStart(v: nat, z: nat)
    requires z > 0
    ensures var u := v - v % z; u % z == 0 && u <= v < u + z && (v % z > 0 ==> u < v)
  {
    Digit(v - v % z, z, 0, v / z);
  }

  lemma SameStart(v: nat, k: Level, l: Level)
    requires l <= k
    ensures Index(v - v % Span(k), l) == Index(v, l)
  {
    BlockStart(v, Span(k));
    SameIndex(v - v % Span(k), v, k, l);
  }

  lemma {:induction false} PageStart(m: Mem, env: Env, d: Loc, l: Level, v: nat)
    requires LookupFrom(m, d, l, v).Mapped?
    ensures var r := LookupFrom(m, d, l, v); var u := v - v % Span(r.level);
      r.level >= l && LookupFrom(m, d, l, u) == r && ObstacleFrom(m, env, d, l, u) == ObstacleFrom(m, env, d, l, v)
    decreases 5 - l
  {
    hide Index, Slot, Read, Entry.Child, Entry.Frame, IsWide, Reaches;
    LevelBelow(m, d, l, v);
    SameStart(v, LookupFrom(m, d, l, v).level, l);
    hide Span;
    var e := Read(m, Slot(d, l, Index(v, l)));
    if IsPde(e) { PageStart(m, env, e.Child(), l + 1, v); }
  }

  lemma EndIsPage(m: Mem, pd: PdConfig, find: nat, ap: U2, v: nat)
    requires EndOf(Lookup(m, pd.Root(), v)) == Found(find, ap)
    ensures var r := Lookup(m, pd.Root(), v);
      && r.Mapped? && (v % Span(r.level) == 0 ==> StartsAt(m, pd, find, ap, v))
      && (v % Span(r.level) == 0 ==> (MapsTo(m, pd, find, ap, v) <==> r.frame < NARROW))
  {
    hide Lookup;
  }

  // A nonzero answer was seen on an unobstructed walk or behind a wide entry. In the first case it is the
  // start of a page, and right if and only if the frame lies below 2^36.
  lemma AnswerExact(m: Mem, env: Env, t: Tree, pd: PdConfig, find: nat, ap: U2, res: nat)
    requires WellFormed(m, t) && IsRoot(t, pd.Root()) && pd.target != INVALID
    requires IsAnswer(m, env, pd, find, ap, res) && res > 0
    ensures var o := Obstructs(m, env, pd, res);
      && (o.Clear? || SeenBehind(m, env, o, res) == Found(find, ap))
      && (o.Clear? ==> StartsAt(m, pd, find, ap, res))
      && (o.Clear? ==> (MapsTo(m, pd, find, ap, res) <==> Lookup(m, pd.Root(), res).frame < NARROW))
  {
    hide LookupFrom, Seen, SeenBehind, WellFormed, ObstacleFrom, MapsTo, StartsAt, EndOf;
    SearchLaw(m, env, t, pd, res);
    if Obstructs(m, env, pd, res).Clear? {
      EndIsPage(m, pd, find, ap, res);
      var z := Span(Lookup(m, pd.Root(), res).level);
      BlockStart(res, z);
      PageStart(m, env, pd.Root(), 0, res);
      SearchLaw(m, env, t, pd, res - res % z);
      hide Span;
    }
  }

  // Unless the search saw the page at address 0, the answer 0 means that every page that starts with the
  // frame has an obstructed walk. Below 2^36 the answer is wrong, that is, some address is mapped to what was
  // searched for, if and only if one is whose walk is obstructed or which lies past the start of its page.
  lemma ZeroExact(m: Mem, env: Env, t: Tree, pd: PdConfig, find: nat, ap: U2)
    requires WellFormed(m, t) && IsRoot(t, pd.Root()) && pd.target != INVALID
    requires IsAnswer(m, env, pd, find, ap, 0) && find % PAGE == 0 && Seen(m, env, pd, 0) != Found(find, ap)
    ensures forall v: nat | v < VSPACE && StartsAt(m, pd, find, ap, v) :: !Obstructs(m, env, pd, v).Clear?
    ensures find < NARROW ==>
      ((exists v: nat :: v < VSPACE && MapsTo(m, pd, find, ap, v)) <==>
        exists v: nat :: IsMissed(m, env, pd, find, ap, v))
  {
    hide Seen, SeenBehind, Lookup, WellFormed, Span, Physical, EndOf, StartsAt, MapsTo, Obstructs;
    forall v: nat | v < VSPACE
      ensures StartsAt(m, pd, find, ap, v) ==> !Obstructs(m, env, pd, v).Clear?
      ensures find < NARROW && MapsTo(m, pd, find, ap, v) ==> IsMissed(m, env, pd, find, ap, v)
    {
      SearchLaw(m, env, t, pd, v);
      StartIsSeen(m, pd, find, ap, v);
    }
  }

  // Search sees the page at address 0 if it starts there unobstructed, or behind a wide entry.
  lemma SeenAtZero(m: Mem, env: Env, t: Tree, pd: PdConfig, find: nat, ap: U2)
    requires WellFormed(m, t) && IsRoot(t, pd.Root()) && pd.target != INVALID
    ensures var o := Obstructs(m, env, pd, 0);
      Seen(m, env, pd, 0) == Found(find, ap) <==>
        if o.Clear? then StartsAt(m, pd, find, ap, 0) else SeenBehind(m, env, o, 0) == Found(find, ap)
  {
    hide Seen, SeenBehind, Lookup, WellFormed, Span, EndOf, StartsAt, MapsTo, Obstructs;
    SearchLaw(m, env, t, pd, 0);
    StartIsSeen(m, pd, find, ap, 0);
  }

  // An address that is mapped to what was searched for, obstructed or past the start of its page.
  ghost predicate IsMissed(m: Mem, env: Env, pd: PdConfig, find: nat, ap: U2, v: nat) {
    && v < VSPACE && MapsTo(m, pd, find, ap, v)
    && (!Obstructs(m, env, pd, v).Clear? || v % Span(Lookup(m, pd.Root(), v).level) > 0)
  }

  lemma StartIsSeen(m: Mem, pd: PdConfig, find: nat, ap: U2, v: nat)
    ensures StartsAt(m, pd, find, ap, v) ==> EndOf(Lookup(m, pd.Root(), v)) == Found(find, ap)
    ensures find < NARROW && MapsTo(m, pd, find, ap, v) && !StartsAt(m, pd, find, ap, v) ==>
      v % Span(Lookup(m, pd.Root(), v).level) > 0
    ensures v == 0 && EndOf(Lookup(m, pd.Root(), v)) == Found(find, ap) ==> StartsAt(m, pd, find, ap, v)
  {
    hide Lookup;
  }
}
