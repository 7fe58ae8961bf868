// Collection of the directories that mapping allocated: which of them survive a pass, and what
// a pass does to the tree and to every translation.
module Collection {
  import opened Wrappers
  import opened GpuMemory
  import opened PageTable
  import opened Translation
  import opened Mapping

  // The recorded parent entry of `p` can be read, and its address is still that of `p`.
  predicate PointsTo(env: Env, m: Mem, p: PdPage) {
    && Resolve(env, p.parentAddr, p.parentAperture) == At(p.ParentSlot())
    && PAGE * Read(m, p.ParentSlot()).Wide() == p.dmaAddr
  }

  // `m` is `m0` with some pages and some single words zeroed.
  ghost predicate Cleared(m0: Mem, m: Mem, pages: set<Loc>, words: set<Loc>) {
    forall l :: Read(m, l) == if PageOf(l) in pages || l in words then ZERO else Read(m0, l)
  }

  datatype Pass = Pass(env: Env, m: Mem, t: Tree, ps: seq<PdPage>, force: bool) {
    ghost predicate Tracked() { AllTracked(t, ps) }

    // The pass fails at the first position, from the oldest on, whose parent entry cannot be resolved.

    predicate Fails(i: nat)
      requires i < |ps|
    {
      Resolve(env, ps[i].parentAddr, ps[i].parentAperture).Fails?
    }

    function DoneFrom(i: nat): (n: nat)
      requires i <= |ps|
      ensures n <= i && (n > 0 ==> Fails(n - 1)) && forall j | n <= j < i :: !Fails(j)
    {
      if i == 0 || Fails(i - 1) then i else DoneFrom(i - 1)
    }

    // It deals with the positions from here on.
    function Done(): (n: nat)
      ensures n <= |ps| && (n > 0 ==> Fails(n - 1)) && forall j | n <= j < |ps| :: !Fails(j)
    {
      DoneFrom(|ps|)
    }

    predicate Points(i: nat)
      requires i < |ps|
    {
      PointsTo(env, m, ps[i])
    }

    // The page at list position `i` survives a pass that frees nothing still in use.
    ghost predicate Keeps(i: nat)
      requires i < |ps|
      decreases |ps| - i
    {
      Points(i) && forall j | i < j < |ps| && ps[j].Dir() == PageOf(ps[i].ParentSlot()) :: Keeps(j)
    }

    ghost predicate Survives(i: nat)
      requires i < |ps|
    {
      !force && Keeps(i)
    }

    // State of the pass when it has dealt with the positions from `i` on, oldest first.

    ghost function Survivors(i: nat): seq<PdPage>
      requires i <= |ps|
      decreases |ps| - i
    {
      if i == |ps| then []
      else (if Survives(i) then [ps[i]] else []) + Survivors(i + 1)
    }

    ghost function Freed(i: nat): set<Loc>
      requires i <= |ps|
    {
      set j | i <= j < |ps| && !Survives(j) :: ps[j].Dir()
    }

    // The list as the pass has it by then.
    ghost function List(i: nat): seq<PdPage>
      requires i <= |ps|
    {
      ps[..i] + Survivors(i)
    }

    // The parent entries that a forced pass clears.
    ghost function Cuts(i: nat): set<Loc>
      requires i <= |ps|
    {
      set j | i <= j < |ps| && force && Points(j) :: ps[j].ParentSlot()
    }

    ghost predicate MemAt(i: nat, m': Mem)
      requires i <= |ps|
    {
      Cleared(m, m', Freed(i), Cuts(i))
    }

    ghost predicate EnvAt(i: nat, env': Env)
      requires i <= |ps|
    {
      && env'.vidOk == env.vidOk && env'.iommu == env.iommu
      && forall f :: f in env'.mapped <==> f in env.mapped && Loc(false, PAGE * f) !in Freed(i)
    }

    // What a pass frees, the parent entries that it clears, and the tree that it leaves.

    ghost function Gone(): set<Loc> { Freed(Done()) }

    ghost function Severed(): set<Loc> { Cuts(Done()) }

    ghost function TreeAfter(): Tree { map d | d in t && d !in Gone() :: t[d] }

    // The pass frees the page at position `j` because the directory of its parent entry cannot be read, and
    // so leaves that entry, which points to it, in a table.
    ghost predicate LeavesEntry(j: nat)
      requires j < |ps|
    {
      ps[j].Dir() in Gone() && PageOf(ps[j].ParentSlot()) !in Gone() && IsAttached(m, t, ps[j]) && !Points(j)
    }

    ghost predicate Good() { Sound(m, t, ps) && forall j | Done() <= j < |ps| :: !LeavesEntry(j) }
  }

  // What the pass reads for position `i` decides its fate.
  function SeenEntry(env: Env, m: Mem, p: PdPage): Entry {
    var at := Resolve(env, p.parentAddr, p.parentAperture);
    if at.At? then Read(m, at.loc) else ZERO
  }

  lemma AtParent(env: Env, p: PdPage)
    ensures var at := Resolve(env, p.parentAddr, p.parentAperture); at.At? ==> at.loc == p.ParentSlot()
  {
  }

  predicate Names(e: Entry, p: PdPage) { PAGE * e.Wide() == p.dmaAddr }

  lemma Position(s: Pass, i: nat)
    requires s.Tracked() && i < |s.ps|
    ensures IsTracked(s.t, s.ps[i])
    ensures forall j | 0 <= j < |s.ps| && j != i :: s.ps[j].Dir() != s.ps[i].Dir()
  {
    assert s.ps[i] in s.ps;
    forall j | 0 <= j < |s.ps| && j != i
      ensures s.ps[j].Dir() != s.ps[i].Dir()
    {
      if j < i { assert s.ps[j].dmaAddr != s.ps[i].dmaAddr; } else { assert s.ps[i].dmaAddr != s.ps[j].dmaAddr; }
    }
  }

  lemma FrameOfSlot(l: Loc)
    ensures PAGE * (l.addr / PAGE) == l.addr - l.addr % PAGE
  {
  }

  lemma NotCutBefore(s: Pass, i: nat)
    requires s.Tracked() && i < |s.ps| && s.Points(i)
    ensures s.ps[i].ParentSlot() !in s.Cuts(i + 1)
  {
    if s.ps[i].ParentSlot() in s.Cuts(i + 1) {
      var j :| i + 1 <= j < |s.ps| && s.Points(j) && s.ps[j].ParentSlot() == s.ps[i].ParentSlot();
      Position(s, i);
      assert false;
    }
  }

  // A later environment reaches no more than the first, and still all that was not freed.
  lemma ReachesLater(s: Pass, i: nat, env: Env, d: Loc)
    requires i <= |s.ps| && s.EnvAt(i, env) && d.addr % PAGE == 0
    ensures Reaches(env, d) ==> Reaches(s.env, d)
    ensures Reaches(s.env, d) && d !in s.Freed(i) ==> Reaches(env, d)
  {
    hide Pass.Freed;
    FrameOfSlot(d);
  }

  // Nor does what a parent entry resolves to change before its directory is freed.
  lemma ResolvesLater(s: Pass, i: nat, env: Env)
    requires s.Tracked() && i < |s.ps| && s.EnvAt(i + 1, env)
    ensures var p := s.ps[i];
            var before := Resolve(s.env, p.parentAddr, p.parentAperture);
            var now := Resolve(env, p.parentAddr, p.parentAperture);
            && (now.Fails? <==> before.Fails?) && (now.At? ==> before.At? && now.loc == p.ParentSlot())
            && (before.At? && PageOf(p.ParentSlot()) !in s.Freed(i + 1) ==> now.At?)
  {
    Position(s, i);
    var slot := s.ps[i].ParentSlot();
    SlotResolves(s.env, slot, s.ps[i].parentAperture);
    SlotResolves(env, slot, s.ps[i].parentAperture);
    Digit(PageOf(slot).addr, PAGE, 0, slot.addr / PAGE);
    ReachesLater(s, i + 1, env, PageOf(slot));
    hide Resolve, PageOf, Pass.Freed;
  }

  lemma SeenNames(s: Pass, i: nat, env: Env, m: Mem)
    requires s.Tracked() && i < |s.ps| && s.MemAt(i + 1, m) && s.EnvAt(i + 1, env)
    ensures Names(SeenEntry(env, m, s.ps[i]), s.ps[i])
        <==> s.Points(i) && PageOf(s.ps[i].ParentSlot()) !in s.Freed(i + 1)
    ensures Resolve(env, s.ps[i].parentAddr, s.ps[i].parentAperture).Fails? <==> s.Fails(i)
  {
    hide Resolve, AllTracked, Pass.Freed, Pass.Cuts, Pass.EnvAt, PageOf;
    var p := s.ps[i];
    var slot := p.ParentSlot();
    Position(s, i);
    ResolvesLater(s, i, env);
    AtParent(s.env, p);
    assert Read(m, slot) == if PageOf(slot) in s.Freed(i + 1) || slot in s.Cuts(i + 1) then ZERO else Read(s.m, slot);
    if s.Points(i) { NotCutBefore(s, i); }
  }

  lemma KeptMeans(s: Pass, i: nat)
    requires s.Tracked() && i < |s.ps| && !s.force
    ensures s.Keeps(i) <==> s.Points(i) && PageOf(s.ps[i].ParentSlot()) !in s.Freed(i + 1)
  {
  }

  lemma StepKeeps(s: Pass, i: nat)
    requires i < |s.ps| && s.Survives(i)
    ensures s.Freed(i) == s.Freed(i + 1) && s.Cuts(i) == s.Cuts(i + 1)
    ensures s.Survivors(i) == [s.ps[i]] + s.Survivors(i + 1)
  {
    assert forall j | i <= j < |s.ps| && !s.Survives(j) :: i + 1 <= j;
  }

  lemma StepFrees(s: Pass, i: nat)
    requires i < |s.ps| && !s.Survives(i)
    ensures s.Freed(i) == s.Freed(i + 1) + {s.ps[i].Dir()}
    ensures s.Cuts(i) == s.Cuts(i + 1) + if s.force && s.Points(i) then {s.ps[i].ParentSlot()} else {}
    ensures s.Survivors(i) == s.Survivors(i + 1)
  {
  }

  lemma ClearMore(m0: Mem, m: Mem, pages: set<Loc>, words: set<Loc>, page: Loc, word: Loc, write: bool, cut: bool)
    requires Cleared(m0, m, pages, words)
    requires write <==> cut && PageOf(word) !in pages
    ensures Cleared(m0, ZeroPage(if write then m[word := ZERO] else m, page),
                    pages + {page}, words + if cut then {word} else {})
  {
    var m' := ZeroPage(if write then m[word := ZERO] else m, page);
    forall l
      ensures Read(m', l) == if PageOf(l) == page || (write && l == word) then ZERO else Read(m, l)
    {
      hide PageOf;
    }
  }

  // Freeing the page at position `i` after clearing its parent entry if that names it.
  lemma StepMem(s: Pass, i: nat, env: Env, m: Mem)
    requires s.Tracked() && i < |s.ps| && s.MemAt(i + 1, m) && s.EnvAt(i + 1, env) && !s.Survives(i)
    ensures var p := s.ps[i]; var named := Names(SeenEntry(env, m, p), p);
            && (named ==> s.force)
            && s.MemAt(i, ZeroPage(if named then m[p.ParentSlot() := ZERO] else m, p.Dir()))
  {
    var p := s.ps[i];
    var named := Names(SeenEntry(env, m, p), p);
    SeenNames(s, i, env, m);
    if !s.force { KeptMeans(s, i); }
    StepFrees(s, i);
    hide Names, SeenEntry, Pass.Freed, Pass.Cuts, PageOf, Cleared, Pass.EnvAt, PointsTo, AllTracked;
    hide Pass.Keeps, Pass.Survives;
    ClearMore(s.m, m, s.Freed(i + 1), s.Cuts(i + 1), p.Dir(), p.ParentSlot(), named, s.force && s.Points(i));
  }

  lemma StepEnv(s: Pass, i: nat, env: Env)
    requires s.Tracked() && i < |s.ps| && s.EnvAt(i + 1, env) && !s.Survives(i)
    ensures s.EnvAt(i, env.(mapped := env.mapped - {s.ps[i].dmaAddr / PAGE}))
  {
    Position(s, i);
    StepFrees(s, i);
    FrameOfSlot(s.ps[i].Dir());
  }

  lemma PassStart(s: Pass)
    ensures s.MemAt(|s.ps|, s.m) && s.EnvAt(|s.ps|, s.env) && s.List(|s.ps|) == s.ps
    ensures s.List(0) == s.Survivors(0)
  {
  }

  lemma ListRound(ps: seq<PdPage>, i: nat, rest: seq<PdPage>)
    requires i < |ps|
    ensures var list := ps[..i + 1] + rest;
            list[i] == ps[i] && list[..i] + list[i + 1..] == ps[..i] + rest && list == ps[..i] + ([ps[i]] + rest)
  {
  }

  lemma NamedByFrame(e: Entry, p: PdPage)
    requires p.dmaAddr % PAGE == 0 && p.dmaAddr > 0
    ensures Names(e, p) <==> e.Wide() == p.dmaAddr / PAGE
    ensures Names(e, p) ==> e != ZERO
  {
  }

  // One round of the collection loop: what it reads decides whether the page survives.
  lemma Decide(s: Pass, i: nat, env: Env, m: Mem)
    requires s.Tracked() && i < |s.ps| && s.MemAt(i + 1, m) && s.EnvAt(i + 1, env)
    ensures |s.List(i + 1)| > i && s.List(i + 1)[i] == s.ps[i]
    ensures s.ps[i].parentAddr < 0x1_0000_0000_0000_0000 && s.ps[i].parentAddr % PAGE <= PAGE - 8
    ensures var p := s.ps[i];
            var at := Resolve(env, p.parentAddr, p.parentAperture);
            var named := SeenEntry(env, m, p).Wide() == p.dmaAddr / PAGE;
            (at.Fails? <==> s.Fails(i)) && (named ==> at.At?) && (named && !s.force <==> s.Survives(i))
  {
    var p := s.ps[i];
    Position(s, i);
    hide AllTracked, Pass.MemAt, Pass.EnvAt, Pass.Freed, Pass.Keeps, Pass.Survivors, PointsTo, PageOf;
    hide ZeroPage, Read, Resolve;
    SeenNames(s, i, env, m);
    NamedByFrame(SeenEntry(env, m, p), p);
    ListRound(s.ps, i, s.Survivors(i + 1));
    if !s.force { KeptMeans(s, i); }
  }

  lemma RoundKeeps(s: Pass, i: nat, env: Env, m: Mem)
    requires s.Tracked() && i < |s.ps| && s.MemAt(i + 1, m) && s.EnvAt(i + 1, env) && s.Survives(i)
    ensures s.MemAt(i, m) && s.EnvAt(i, env) && s.List(i) == s.List(i + 1)
  {
    hide AllTracked, Pass.Survivors, Pass.Freed, Pass.Cuts, Pass.Survives, Cleared;
    StepKeeps(s, i);
    ListRound(s.ps, i, s.Survivors(i + 1));
  }

  lemma RoundFrees(s: Pass, i: nat, env: Env, m: Mem)
    requires s.Tracked() && i < |s.ps| && s.MemAt(i + 1, m) && s.EnvAt(i + 1, env) && !s.Survives(i)
    ensures |s.List(i + 1)| > i && s.List(i) == s.List(i + 1)[..i] + s.List(i + 1)[i + 1..]
    ensures var p := s.ps[i]; var named := SeenEntry(env, m, p).Wide() == p.dmaAddr / PAGE;
            && s.MemAt(i, ZeroPage(if named then m[p.ParentSlot() := ZERO] else m, p.Dir()))
            && s.EnvAt(i, env.(mapped := env.mapped - {p.dmaAddr / PAGE}))
  {
    Position(s, i);
    hide AllTracked, Pass.MemAt, Pass.EnvAt, Pass.Survives, Pass.Survivors, ZeroPage, SeenEntry;
    NamedByFrame(SeenEntry(env, m, s.ps[i]), s.ps[i]);
    StepFrees(s, i);
    StepMem(s, i, env, m);
    StepEnv(s, i, env);
    ListRound(s.ps, i, s.Survivors(i + 1));
  }

  // What a pass leaves of the tree.

  lemma GoneDir(s: Pass, d: Loc)
    requires s.Good() && d in s.Gone()
    ensures d in s.t && s.t[d].level > 0
  {
    var j :| s.Done() <= j < |s.ps| && !s.Survives(j) && s.ps[j].Dir() == d;
    Position(s, j);
    assert NodeOk(d, s.t[d]);
  }

  // An entry of a table that leads to a page on the list is its recorded parent entry.
  lemma LeadsToListed(s: Pass, j: nat, d: Loc, i: nat)
    requires Sound(s.m, s.t, s.ps) && j < |s.ps| && d in s.t && i < Entries(s.t[d].level)
    requires IsPde(EntryAt(s.m, s.t, d, i)) && EntryAt(s.m, s.t, d, i).Child() == s.ps[j].Dir()
    ensures IsParentEntry(s.m, s.t, d, i, s.ps[j]) && IsAttached(s.m, s.t, s.ps[j])
    ensures PageOf(s.ps[j].ParentSlot()) == d && s.t[d].level < 4
  {
    Position(s, j);
    assert EntryOk(s.m, s.t, d, i);
    DirIn(s.m, s.t, d);
    hide WellFormed, AllTracked, Slot, PageOf, Read, Entries;
  }

  // Where the directories of parent entries are mapped, no entry is left.
  lemma MappedIsGood(s: Pass)
    requires Sound(s.m, s.t, s.ps) && ParentsMapped(s.env, s.t, s.ps)
    ensures s.Good()
  {
    forall j | s.Done() <= j < |s.ps|
      ensures !s.LeavesEntry(j)
    {
      if IsAttached(s.m, s.t, s.ps[j]) { AttachedPoints(s, j); }
    }
  }

  lemma AttachedPoints(s: Pass, j: nat)
    requires Sound(s.m, s.t, s.ps) && ParentsMapped(s.env, s.t, s.ps) && s.Done() <= j < |s.ps|
    requires IsAttached(s.m, s.t, s.ps[j])
    ensures s.Points(j)
  {
    var p := s.ps[j];
    var d, i :| d in s.t && 0 <= i < Entries(s.t[d].level) && IsParentEntry(s.m, s.t, d, i, p);
    Position(s, j);
    DirIn(s.m, s.t, d);
    assert p in s.ps && PageOf(p.ParentSlot()) == d && !s.Fails(j);
    SlotResolves(s.env, p.ParentSlot(), p.parentAperture);
    hide Sound, Slot, PageOf, Pass.Done;
  }

  // An entry outside the freed pages that still leads to one of them is cleared.
  lemma DanglingIsCut(s: Pass, d: Loc, i: nat)
    requires s.Good() && d in s.t && d !in s.Gone() && i < Entries(s.t[d].level)
    requires IsPde(EntryAt(s.m, s.t, d, i)) && EntryAt(s.m, s.t, d, i).Child() in s.Gone()
    ensures Slot(d, s.t[d].level, i) in s.Severed()
  {
    hide Index, Span, Cover, InDir, InEntry, NodeOk, Pass.Done, Sound, IsAttached, Slot, PageOf, Read;
    var j :| s.Done() <= j < |s.ps| && !s.Survives(j) && s.ps[j].Dir() == EntryAt(s.m, s.t, d, i).Child();
    LeadsToListed(s, j, d, i);
    assert !s.LeavesEntry(j);
  }

  ghost predicate CutOn(m: Mem, d: Loc, l: Level, v: nat, cuts: set<Loc>)
    decreases 5 - l
  {
    var slot := Slot(d, l, Index(v, l));
    slot in cuts || (IsPde(Read(m, slot)) && l < 4 && CutOn(m, Read(m, slot).Child(), l + 1, v, cuts))
  }

  lemma EntryAfter(s: Pass, m': Mem, d: Loc, i: nat)
    requires Sound(s.m, s.t, s.ps) && s.MemAt(s.Done(), m') && d in s.t && d !in s.Gone() && i < Entries(s.t[d].level)
    ensures EntryAt(m', s.t, d, i)
      == if Slot(d, s.t[d].level, i) in s.Severed() then ZERO else EntryAt(s.m, s.t, d, i)
  {
    assert NodeOk(d, s.t[d]);
    SlotInPage(d, s.t[d].level, i);
    hide Pass.Freed, Pass.Cuts, Pass.Done, WellFormed, AllTracked, ParentsMapped;
  }

  lemma TreeIsKept(s: Pass, m': Mem)
    requires s.Good() && s.MemAt(s.Done(), m')
    ensures WellFormed(m', s.TreeAfter())
  {
    hide Index, Span, Cover, InDir, InEntry, NodeOk, Pass.Gone, Pass.Severed, Pass.MemAt, Pass.Done;
    var t' := s.TreeAfter();
    forall d, i | d in t' && 0 <= i < Entries(t'[d].level)
      ensures EntryOk(m', t', d, i)
    {
      EntryAfter(s, m', d, i);
      assert EntryOk(s.m, s.t, d, i);
      if IsPde(EntryAt(s.m, s.t, d, i)) && EntryAt(s.m, s.t, d, i).Child() in s.Gone() {
        DanglingIsCut(s, d, i);
      }
    }
  }

  lemma {:induction false} LookupAfter(s: Pass, m': Mem, d: Loc, v: nat)
    requires s.Good() && s.MemAt(s.Done(), m') && d in s.t && d !in s.Gone() && InDir(s.t, d, v)
    ensures LookupFrom(m', d, s.t[d].level, v)
      == if CutOn(s.m, d, s.t[d].level, v, s.Severed()) then NotMapped else LookupFrom(s.m, d, s.t[d].level, v)
    decreases 5 - s.t[d].level
  {
    hide Index, Span, Cover, InDir, InEntry, NodeOk, Pass.Gone, Pass.Severed, Pass.MemAt, Pass.Done;
    var l := s.t[d].level;
    var i := Index(v, l);
    WalkStep(s.m, s.t, d, v);
    EntryAfter(s, m', d, i);
    var e := EntryAt(s.m, s.t, d, i);
    if IsPde(e) && Slot(d, l, i) !in s.Severed() {
      if e.Child() in s.Gone() { DanglingIsCut(s, d, i); }
      LookupAfter(s, m', e.Child(), v);
    }
  }

  lemma {:induction false} SurvivorFrom(s: Pass, i: nat, p: PdPage) returns (j: nat)
    requires i <= |s.ps| && p in s.Survivors(i)
    ensures i <= j < |s.ps| && s.Survives(j) && s.ps[j] == p
    decreases |s.ps| - i
  {
    hide Pass.Survives;
    if s.Survives(i) && p == s.ps[i] {
      j := i;
    } else {
      j := SurvivorFrom(s, i + 1, p);
    }
  }

  lemma {:induction false} SurvivorIn(s: Pass, i: nat, j: nat)
    requires i <= j < |s.ps| && s.Survives(j)
    ensures s.ps[j] in s.Survivors(i)
    decreases |s.ps| - i
  {
    hide Pass.Survives;
    if i < j { SurvivorIn(s, i + 1, j); }
  }

  lemma {:induction false} SurvivorsOrdered(s: Pass, i: nat)
    requires OldestLast(s.ps) && i <= |s.ps|
    ensures OldestLast(s.Survivors(i))
    decreases |s.ps| - i
  {
    if i < |s.ps| {
      SurvivorsOrdered(s, i + 1);
      if s.Survives(i) {
        hide PageOf, PdPage.ParentSlot, PdPage.Dir, Pass.Survives;
        forall q | q in s.Survivors(i + 1)
          ensures s.ps[i].dmaAddr != q.dmaAddr && PageOf(q.ParentSlot()) != s.ps[i].Dir()
        {
          var j := SurvivorFrom(s, i + 1, q);
        }
        OldestFirst(s.ps[i], s.Survivors(i + 1));
      }
    }
  }

  lemma OldestFirst(p: PdPage, ps: seq<PdPage>)
    requires OldestLast(ps)
    requires forall q | q in ps :: p.dmaAddr != q.dmaAddr && PageOf(q.ParentSlot()) != p.Dir()
    ensures OldestLast([p] + ps)
  {
  }

  // The positions that the pass has not come to stay in front.
  lemma {:induction false} ListOrdered(s: Pass, k: nat, i: nat)
    requires OldestLast(s.ps) && k <= i <= |s.ps|
    ensures OldestLast(s.ps[k..i] + s.Survivors(i))
    decreases i - k
  {
    if k == i {
      SurvivorsOrdered(s, i);
      assert s.ps[k..i] + s.Survivors(i) == s.Survivors(i);
    } else {
      ListOrdered(s, k + 1, i);
      var rest := s.ps[k + 1..i] + s.Survivors(i);
      hide PageOf, PdPage.ParentSlot, PdPage.Dir, Pass.Survives, Pass.Survivors;
      forall q | q in rest
        ensures s.ps[k].dmaAddr != q.dmaAddr && PageOf(q.ParentSlot()) != s.ps[k].Dir()
      {
        if q in s.Survivors(i) { var j := SurvivorFrom(s, i, q); }
      }
      OldestFirst(s.ps[k], rest);
      assert s.ps[k..i] + s.Survivors(i) == [s.ps[k]] + rest;
    }
  }

  // Where a page on the list afterwards was before.
  lemma ListedFrom(s: Pass, p: PdPage) returns (j: nat)
    requires p in s.List(s.Done())
    ensures j < |s.ps| && s.ps[j] == p && (j < s.Done() || s.Survives(j))
  {
    hide Pass.Survives, Pass.Survivors, Pass.Done;
    if p in s.Survivors(s.Done()) {
      j := SurvivorFrom(s, s.Done(), p);
    } else {
      j :| 0 <= j < s.Done() && s.ps[j] == p;
    }
  }

  // What a completed pass has done to list, memory and I/O MMU. It fails, after doing this much, if it
  // comes to a parent entry that cannot be resolved.
  ghost predicate PassRan(s: Pass, ret: int, env: Env, m: Mem, t: Tree, ps: seq<PdPage>) {
    && ret == (if s.Done() == 0 then |s.ps| - |ps| else ENOTRECOVERABLE)
    && ps == s.List(s.Done()) && (s.force ==> ps == s.ps[..s.Done()])
    && s.MemAt(s.Done(), m) && s.EnvAt(s.Done(), env) && t == s.TreeAfter()
  }

  // And what that means for tables and translations.
  ghost predicate PassDone(s: Pass, ret: int, env: Env, m: Mem, t: Tree, ps: seq<PdPage>) {
    && PassRan(s, ret, env, m, t, ps)
    && Sound(m, t, ps) && (ParentsMapped(s.env, s.t, s.ps) ==> ParentsMapped(env, t, ps))
    && (ParentsReach(s.env, s.ps) ==> ParentsReach(env, ps))
    && (forall r | IsRoot(s.t, r) :: IsRoot(t, r))
    && (AllAttached(s.m, s.t, s.ps) && (s.force ==> s.Done() == 0) ==> AllAttached(m, t, ps))
    && (forall r, u: nat | IsRoot(s.t, r) && u < VSPACE :: NarrowWalk(s.m, r, 0, u) ==> NarrowWalk(m, r, 0, u))
    && (!s.force ==> SameLookups(s.m, m, s.t))
    && forall r, u: nat | IsRoot(s.t, r) && u < VSPACE ::
         Lookup(m, r, u) == if CutOn(s.m, r, 0, u, s.Severed()) then NotMapped else Lookup(s.m, r, u)
  }

  lemma {:induction false} NoCuts(m: Mem, d: Loc, l: Level, v: nat, cuts: set<Loc>)
    requires cuts == {}
    ensures !CutOn(m, d, l, v, cuts)
    decreases 5 - l
  {
    var e := Read(m, Slot(d, l, Index(v, l)));
    if IsPde(e) && l < 4 { NoCuts(m, e.Child(), l + 1, v, cuts); }
  }

  lemma {:induction false} ForceEmpties(s: Pass, i: nat)
    requires s.force && i <= |s.ps|
    ensures s.Survivors(i) == []
    decreases |s.ps| - i
  {
    if i < |s.ps| { ForceEmpties(s, i + 1); }
  }

  lemma StillMapped(s: Pass, env: Env)
    requires s.Good() && s.EnvAt(s.Done(), env)
    ensures ParentsMapped(s.env, s.t, s.ps) ==> ParentsMapped(env, s.TreeAfter(), s.List(s.Done()))
    ensures ParentsReach(s.env, s.ps) ==> ParentsReach(env, s.List(s.Done()))
  {
    hide Pass.Freed, Pass.List, Reaches, Pass.Done, Pass.Survives, WellFormed, AllTracked;
    forall p | p in s.List(s.Done())
      ensures Reaches(s.env, PageOf(p.ParentSlot())) && PageOf(p.ParentSlot()) !in s.Gone() ==>
                Reaches(env, PageOf(p.ParentSlot()))
      ensures p in s.ps
    {
      var j := ListedFrom(s, p);
      var slot := p.ParentSlot();
      Digit(PageOf(slot).addr, PAGE, 0, slot.addr / PAGE);
      ReachesLater(s, s.Done(), env, PageOf(slot));
    }
    if ParentsReach(s.env, s.ps) {
      NothingFails(s);
      forall p | p in s.List(s.Done())
        ensures PageOf(p.ParentSlot()) !in s.Gone()
      {
        var j := ListedFrom(s, p);
        ParentSurvives(s, j);
      }
    }
  }

  lemma NothingFails(s: Pass)
    requires Sound(s.m, s.t, s.ps) && ParentsReach(s.env, s.ps)
    ensures s.Done() == 0
  {
    if s.Done() > 0 {
      var i := s.Done() - 1;
      Position(s, i);
      SlotResolves(s.env, s.ps[i].ParentSlot(), s.ps[i].parentAperture);
      assert false;
    }
  }

  lemma StillTracked(s: Pass)
    requires s.Good()
    ensures AllTracked(s.TreeAfter(), s.List(s.Done()))
  {
    ListOrdered(s, 0, s.Done());
    assert s.ps[0..s.Done()] == s.ps[..s.Done()];
    hide Pass.Done, Pass.List;
    forall p | p in s.List(s.Done())
      ensures IsTracked(s.TreeAfter(), p)
    {
      var j := ListedFrom(s, p);
      Position(s, j);
    }
  }

  lemma {:induction false} PassStaysNarrow(s: Pass, m': Mem, d: Loc, v: nat)
    requires s.Good() && s.MemAt(s.Done(), m') && d in s.t && d !in s.Gone() && InDir(s.t, d, v)
    requires NarrowWalk(s.m, d, s.t[d].level, v)
    ensures NarrowWalk(m', d, s.t[d].level, v)
    decreases 5 - s.t[d].level
  {
    hide Index, Span, Cover, InDir, InEntry, NodeOk, Pass.Gone, Pass.Severed, Pass.MemAt, Pass.Done;
    var i := Index(v, s.t[d].level);
    WalkStep(s.m, s.t, d, v);
    EntryAfter(s, m', d, i);
    var e := EntryAt(s.m, s.t, d, i);
    if IsPde(e) && Slot(d, s.t[d].level, i) !in s.Severed() {
      if e.Child() in s.Gone() { DanglingIsCut(s, d, i); }
      PassStaysNarrow(s, m', e.Child(), v);
    }
  }

  // The directory of a survivor's parent entry is not freed.
  lemma ParentSurvives(s: Pass, j: nat)
    requires s.Good() && s.Done() <= j < |s.ps| && s.Survives(j)
    ensures PageOf(s.ps[j].ParentSlot()) !in s.Gone()
  {
    Position(s, j);
    hide Pass.Done;
    forall k | s.Done() <= k < |s.ps| && s.ps[k].Dir() == PageOf(s.ps[j].ParentSlot())
      ensures s.Survives(k)
    {
    }
  }

  // As long as nothing but the driver changes the table, a pass that is not forced frees nothing.

  lemma {:induction false} AttachedSurvive(s: Pass, i: nat)
    requires s.Good() && !s.force && AllAttached(s.m, s.t, s.ps) && s.Done() <= i <= |s.ps|
    ensures (forall j | i <= j < |s.ps| :: s.Keeps(j)) && s.Survivors(i) == s.ps[i..]
    decreases |s.ps| - i
  {
    hide PointsTo, IsAttached, Sound, Pass.Done;
    if i < |s.ps| {
      AttachedSurvive(s, i + 1);
      assert s.ps[i] in s.ps && !s.LeavesEntry(i);
      if !s.Keeps(i) { ParentsStay(s, i); }
    }
  }

  // If all older pages stay, so does the directory of a parent entry.
  lemma ParentsStay(s: Pass, i: nat)
    requires s.Good() && !s.force && s.Done() <= i < |s.ps| && forall j | i < j < |s.ps| :: s.Keeps(j)
    ensures PageOf(s.ps[i].ParentSlot()) !in s.Gone()
  {
    Position(s, i);
    assert forall j | 0 <= j < i :: PageOf(s.ps[i].ParentSlot()) != s.ps[j].Dir();
    hide Pass.Keeps, Pass.Done, PageOf;
  }

  lemma AttachedStay(s: Pass)
    requires s.Good() && !s.force && AllAttached(s.m, s.t, s.ps)
    ensures s.List(s.Done()) == s.ps && s.Gone() == {} && s.Severed() == {}
  {
    hide AllAttached, Sound, ParentsMapped, Pass.Keeps, Pass.Points, Pass.Fails, Pass.Survivors, Pass.Done;
    AttachedSurvive(s, s.Done());
  }

  lemma AttachedNamesAreLinks(s: Pass)
    requires s.Good() && AllAttached(s.m, s.t, s.ps)
    ensures NamesAreLinks(s)
  {
    forall i | s.Done() <= i < |s.ps|
      ensures IsLinked(s.m, s.ps[i])
    {
      assert s.ps[i] in s.ps;
    }
  }

  lemma PassStaysAttached(s: Pass, m: Mem)
    requires s.Good() && s.MemAt(s.Done(), m) && AllAttached(s.m, s.t, s.ps) && (s.force ==> s.Done() == 0)
    ensures AllAttached(m, s.TreeAfter(), s.List(s.Done()))
  {
    hide Sound, ParentsMapped, Pass.Survives, Pass.Survivors, Pass.Freed, Pass.Cuts, Pass.Done, Slot;
    if s.force {
      ForceEmpties(s, 0);
    } else {
      AttachedStay(s);
      assert s.TreeAfter() == s.t;
      forall p | p in s.ps
        ensures IsAttached(m, s.t, p)
      {
        var d, i :| d in s.t && 0 <= i < Entries(s.t[d].level) && IsParentEntry(s.m, s.t, d, i, p);
        assert IsParentEntry(m, s.t, d, i, p);
      }
    }
  }

  lemma PassEnds(s: Pass, env: Env, m: Mem)
    requires Sound(s.m, s.t, s.ps) && s.MemAt(s.Done(), m) && s.EnvAt(s.Done(), env)
    ensures var list := s.List(s.Done()); var ret := if s.Done() == 0 then |s.ps| - |list| else ENOTRECOVERABLE;
            && PassRan(s, ret, env, m, s.TreeAfter(), list)
            && (s.Good() ==> Sound(m, s.TreeAfter(), list) && PassDone(s, ret, env, m, s.TreeAfter(), list))
  {
    hide Sound, Pass.Done, Pass.Survivors, Pass.TreeAfter, Pass.MemAt, Pass.EnvAt, PassDone;
    if s.force { ForceEmpties(s, s.Done()); }
    if s.Good() { PassIsDone(s, env, m); }
  }

  lemma PassIsDone(s: Pass, env: Env, m: Mem)
    requires s.Good() && s.MemAt(s.Done(), m) && s.EnvAt(s.Done(), env)
    ensures var list := s.List(s.Done()); var ret := if s.Done() == 0 then |s.ps| - |list| else ENOTRECOVERABLE;
            Sound(m, s.TreeAfter(), list) && PassDone(s, ret, env, m, s.TreeAfter(), list)
  {
    hide Index, Span, Cover, InDir, InEntry, NodeOk, Pass.Done, Pass.Survivors, Pass.Gone, Pass.MemAt, Pass.EnvAt;
    TreeIsKept(s, m);
    if AllAttached(s.m, s.t, s.ps) && (s.force ==> s.Done() == 0) { PassStaysAttached(s, m); }
    StillMapped(s, env);
    StillTracked(s);
    if s.force { ForceEmpties(s, s.Done()); }
    forall r | IsRoot(s.t, r)
      ensures IsRoot(s.TreeAfter(), r)
    {
      if r in s.Gone() { GoneDir(s, r); }
    }
    forall r, u: nat | IsRoot(s.t, r) && u < VSPACE
      ensures Lookup(m, r, u) == if CutOn(s.m, r, 0, u, s.Severed()) then NotMapped else Lookup(s.m, r, u)
      ensures !s.force ==> Lookup(m, r, u) == Lookup(s.m, r, u)
      ensures NarrowWalk(s.m, r, 0, u) ==> NarrowWalk(m, r, 0, u)
    {
      assert IsRoot(s.TreeAfter(), r);
      RootIn(s.m, s.t, r, u);
      if NarrowWalk(s.m, r, 0, u) { PassStaysNarrow(s, m, r, u); }
      LookupAfter(s, m, r, u);
      if !s.force { NoCuts(s.m, r, 0, u, s.Severed()); }
    }
  }

  // What remains of the tables is a tree if and only if the pass leaves no entry that leads to a freed page.
  lemma TreeRemainsExactly(s: Pass, m': Mem)
    requires Sound(s.m, s.t, s.ps) && s.MemAt(s.Done(), m')
    ensures WellFormed(m', s.TreeAfter()) <==> s.Good()
  {
    if s.Good() { TreeIsKept(s, m'); }
    if !s.Good() {
      var j :| s.Done() <= j < |s.ps| && s.LeavesEntry(j);
      EntryIsLeft(s, m', j);
    }
  }

  lemma EntryIsLeft(s: Pass, m': Mem, j: nat)
    requires Sound(s.m, s.t, s.ps) && s.MemAt(s.Done(), m') && s.Done() <= j < |s.ps| && s.LeavesEntry(j)
    ensures !WellFormed(m', s.TreeAfter())
  {
    var p := s.ps[j];
    var d, i :| d in s.t && 0 <= i < Entries(s.t[d].level) && IsParentEntry(s.m, s.t, d, i, p);
    DirIn(s.m, s.t, d);
    EntryAfter(s, m', d, i);
    if p.ParentSlot() in s.Severed() {
      var k :| s.Done() <= k < |s.ps| && s.Points(k) && s.ps[k].ParentSlot() == p.ParentSlot();
      Position(s, j);
      assert false;
    }
    assert !EntryOk(m', s.TreeAfter(), d, i);
  }

  // The walk for `v` meets a cleared entry before a directory that cannot be accessed.
  ghost predicate MeetsCut(m: Mem, env: Env, d: Loc, l: Level, v: nat, cuts: set<Loc>)
    decreases 5 - l
  {
    var slot := Slot(d, l, Index(v, l));
    Reaches(env, d) &&
    (slot in cuts || (IsPde(Read(m, slot)) && l < 4 && MeetsCut(m, env, Read(m, slot).Child(), l + 1, v, cuts)))
  }

  lemma {:induction false} ObstacleAfter(s: Pass, env: Env, m': Mem, d: Loc, v: nat)
    requires s.Good() && s.MemAt(s.Done(), m') && s.EnvAt(s.Done(), env)
    requires d in s.t && d !in s.Gone() && InDir(s.t, d, v) && NarrowWalk(s.m, d, s.t[d].level, v)
    ensures ObstacleFrom(m', env, d, s.t[d].level, v) ==
      if MeetsCut(s.m, s.env, d, s.t[d].level, v, s.Severed()) then Clear
      else ObstacleFrom(s.m, s.env, d, s.t[d].level, v)
    ensures MeetsCut(s.m, s.env, d, s.t[d].level, v, s.Severed()) ==> CutOn(s.m, d, s.t[d].level, v, s.Severed())
    ensures CutOn(s.m, d, s.t[d].level, v, s.Severed()) && ObstacleFrom(s.m, s.env, d, s.t[d].level, v).Clear? ==>
      MeetsCut(s.m, s.env, d, s.t[d].level, v, s.Severed())
    decreases 5 - s.t[d].level
  {
    hide Index, Span, Cover, InDir, InEntry, NodeOk, Pass.Gone, Pass.Severed, Pass.MemAt, Pass.EnvAt;
    hide Pass.Done, Reaches;
    DirIn(s.m, s.t, d);
    var i := Index(v, s.t[d].level);
    WalkStep(s.m, s.t, d, v);
    EntryAfter(s, m', d, i);
    StillReached(s, env, d);
    var e := EntryAt(s.m, s.t, d, i);
    if IsPde(e) && Slot(d, s.t[d].level, i) !in s.Severed() {
      if e.Child() in s.Gone() { DanglingIsCut(s, d, i); }
      ObstacleAfter(s, env, m', e.Child(), v);
    }
  }

  lemma StillReached(s: Pass, env: Env, d: Loc)
    requires s.EnvAt(s.Done(), env) && d.addr % PAGE == 0 && d !in s.Gone()
    ensures Reaches(env, d) <==> Reaches(s.env, d)
  {
    ReachesLater(s, s.Done(), env, d);
  }

  // After a pass, an address whose walk needs but 24 address bits is translated as before, unless its walk
  // meets a cleared entry before a directory that cannot be accessed; then it is reported as unmapped.
  lemma PassThenTranslate(
      s: Pass, ret: int, env: Env, m: Mem, t: Tree, ps: seq<PdPage>, pd: PdConfig, v: nat)
    requires s.Good() && PassDone(s, ret, env, m, t, ps) && IsRoot(s.t, pd.Root()) && pd.target != INVALID
    requires v < VSPACE && v % PAGE == 0 && NarrowWalk(s.m, pd.Root(), 0, v)
    ensures Translate(m, env, pd, v) ==
      if MeetsCut(s.m, s.env, pd.Root(), 0, v, s.Severed()) then Translated(ENXIO, 0, INVALID)
      else Translate(s.m, s.env, pd, v)
  {
    hide CutOn, MeetsCut, Lookup, WellFormed, NarrowWalk, ObstacleFrom, Walk, AllTracked, AllAttached, ParentsMapped;
    hide ParentsReach, Pass.MemAt, Pass.EnvAt, Pass.TreeAfter, Pass.List, Pass.Severed, Pass.Done;
    var root := pd.Root();
    RootIn(s.m, s.t, root, v);
    if root in s.Gone() { GoneDir(s, root); }
    ObstacleAfter(s, env, m, root, v);
    NarrowNotAliased(s.m, s.env, root, 0, v);
    TranslateLaw(s.m, s.env, s.t, pd, v);
    TranslateLaw(m, env, t, pd, v);
  }

  lemma PointsMeans(s: Pass, i: nat)
    requires s.Tracked() && i < |s.ps|
    ensures s.Points(i) <==> && Reaches(s.env, PageOf(s.ps[i].ParentSlot()))
                             && PAGE * Read(s.m, s.ps[i].ParentSlot()).Wide() == s.ps[i].dmaAddr
  {
    Position(s, i);
    SlotResolves(s.env, s.ps[i].ParentSlot(), s.ps[i].parentAperture);
    hide Resolve, Reaches, PageOf, Read;
  }

  lemma SurvivorPoints(s: Pass, i: nat)
    requires s.Tracked() && !s.force && s.Done() <= i < |s.ps|
    ensures s.ps[i] in s.Survivors(s.Done())
      <==> s.Points(i) && forall j | 0 <= j < |s.ps| && s.ps[j].Dir() == PageOf(s.ps[i].ParentSlot()) ::
                            s.ps[j] in s.Survivors(s.Done())
  {
    hide Pass.Done;
    forall k | s.Done() <= k < |s.ps|
      ensures s.ps[k] in s.Survivors(s.Done()) <==> s.Keeps(k)
    {
      Position(s, k);
      if s.Keeps(k) { SurvivorIn(s, s.Done(), k); }
      if s.ps[k] in s.Survivors(s.Done()) { var j := SurvivorFrom(s, s.Done(), s.ps[k]); }
    }
    forall j | 0 <= j < |s.ps| && s.ps[j].Dir() == PageOf(s.ps[i].ParentSlot())
      ensures i < j
    {
      Position(s, i);
    }
  }

  // One pass that is not forced is transitively complete: a page that it comes to survives exactly when its
  // parent entry can be read and still holds its address, and its parent, if on the list too, survives.
  lemma PassIsComplete(s: Pass, i: nat)
    requires s.Tracked() && !s.force && s.Done() <= i < |s.ps|
    ensures s.ps[i] in s.Survivors(s.Done())
      <==> && Reaches(s.env, PageOf(s.ps[i].ParentSlot()))
           && PAGE * Read(s.m, s.ps[i].ParentSlot()).Wide() == s.ps[i].dmaAddr
           && forall j | 0 <= j < |s.ps| && s.ps[j].Dir() == PageOf(s.ps[i].ParentSlot()) ::
                s.ps[j] in s.Survivors(s.Done())
  {
    hide Pass.Done, Pass.Points, Reaches, Pass.Tracked, Pass.Survivors, PageOf, Read;
    PointsMeans(s, i);
    SurvivorPoints(s, i);
  }

  // A forced pass unmaps every address whose walk enters a directory on the part of the list that it
  // deals with.
  lemma {:induction false} EnteringIsCut(s: Pass, root: Loc, v: nat, l: Level, i: nat)
    requires s.Good() && s.force && IsRoot(s.t, root) && v < VSPACE && s.Done() <= i < |s.ps|
    requires DirAt(s.m, root, v, l) == Some(s.ps[i].Dir())
    ensures CutOn(s.m, root, 0, v, s.Severed())
    decreases l
  {
    hide Index, Span, Cover, InDir, InEntry, NodeOk, Pass.Done, IsAttached;
    PathInTree(s.m, s.t, root, v, l);
    Position(s, i);
    DirIn(s.m, s.t, s.ps[i].Dir());
    var d := DirAt(s.m, root, v, l - 1).value;
    PathInTree(s.m, s.t, root, v, l - 1);
    WalkStep(s.m, s.t, d, v);
    LeadsToListed(s, i, d, Index(v, l - 1));
    assert !s.LeavesEntry(i);
    if s.Points(i) {
      assert Slot(d, l - 1, Index(v, l - 1)) in s.Severed();
      CutAlongPath(s.m, root, v, l - 1, s.Severed());
    } else {
      var k :| s.Done() <= k < |s.ps| && s.ps[k].Dir() == d;
      EnteringIsCut(s, root, v, l - 1, k);
    }
  }

  lemma {:induction false} CutAlongPath(m: Mem, root: Loc, v: nat, l: Level, cuts: set<Loc>)
    requires DirAt(m, root, v, l).Some? && CutOn(m, DirAt(m, root, v, l).value, l, v, cuts)
    ensures CutOn(m, root, 0, v, cuts)
  {
    if l > 0 { CutAlongPath(m, root, v, l - 1, cuts); }
  }

  // Exactly those addresses, as long as every recorded parent entry that still names its page is
  // a directory entry that points to it.

  ghost predicate Enters(m: Mem, root: Loc, v: nat, ps: seq<PdPage>) {
    exists l: Level, i :: 0 <= i < |ps| && DirAt(m, root, v, l) == Some(ps[i].Dir())
  }

  ghost predicate NamesAreLinks(s: Pass) {
    forall i | s.Done() <= i < |s.ps| && s.Points(i) :: IsLinked(s.m, s.ps[i])
  }

  lemma {:induction false} CutIsEntering(s: Pass, root: Loc, v: nat, l: Level)
    requires s.Good() && NamesAreLinks(s) && IsRoot(s.t, root) && v < VSPACE
    requires DirAt(s.m, root, v, l).Some? && CutOn(s.m, DirAt(s.m, root, v, l).value, l, v, s.Severed())
    ensures Enters(s.m, root, v, s.ps[s.Done()..])
    decreases 5 - l
  {
    PathInTree(s.m, s.t, root, v, l);
    hide Index, Span, Cover, InDir, InEntry, NodeOk, Pass.Done;
    var d := DirAt(s.m, root, v, l).value;
    WalkStep(s.m, s.t, d, v);
    var slot := Slot(d, l, Index(v, l));
    if slot in s.Severed() {
      var j :| s.Done() <= j < |s.ps| && s.Points(j) && s.ps[j].ParentSlot() == slot;
      assert DirAt(s.m, root, v, l + 1) == Some(s.ps[s.Done()..][j - s.Done()].Dir());
    } else {
      CutIsEntering(s, root, v, l + 1);
    }
  }

  lemma ForcedCutsExactly(s: Pass, root: Loc, v: nat)
    requires s.Good() && s.force && NamesAreLinks(s) && IsRoot(s.t, root) && v < VSPACE
    ensures CutOn(s.m, root, 0, v, s.Severed()) <==> Enters(s.m, root, v, s.ps[s.Done()..])
  {
    hide Pass.Done, CutOn, NamesAreLinks, Pass.Severed;
    var ps := s.ps[s.Done()..];
    if CutOn(s.m, root, 0, v, s.Severed()) { CutIsEntering(s, root, v, 0); }
    if Enters(s.m, root, v, ps) {
      var l: Level, i :| 0 <= i < |ps| && DirAt(s.m, root, v, l) == Some(ps[i].Dir());
      EnteringIsCut(s, root, v, l, s.Done() + i);
    }
  }
}
