// Whole runs of the page-table driver: any sequence of mapping and collection calls.
module Runs {
  import opened GpuMemory
  import opened PageTable
  import opened Translation
  import opened Mapping
  import opened Collection

  datatype State = State(env: Env, m: Mem, t: Tree, ps: seq<PdPage>) {
    ghost predicate Valid() { Sound(m, t, ps) && ParentsMapped(env, t, ps) }

    // The recorded parent entries point to their pages and can be accessed.
    ghost predicate Attached() { AllAttached(m, t, ps) && ParentsReach(env, ps) }
  }

  datatype Call = Map(root: Loc, q: Request, pool: seq<Outcome>, ret: int) | Collect(force: bool, ret: int)

  // One call, from `a` to `b`: what MapPageDirectory and GcPageDirectory promise.
  ghost predicate Step(a: State, c: Call, b: State) {
    && b.Valid()
    && match c
       case Map(root, q, pool, ret) =>
         && IsRoot(a.t, root) && FreshPool(a.t, pool)
         && MapCalled(Start(a.m, a.t, a.ps, root, q, pool), a.env, ret, b.env, b.m, b.t, b.ps)
       case Collect(force, ret) => PassDone(Pass(a.env, a.m, a.t, a.ps, force), ret, b.env, b.m, b.t, b.ps)
  }

  ghost predicate IsRun(ss: seq<State>, cs: seq<Call>) {
    && |ss| == |cs| + 1 && ss[0].Valid()
    && forall i, j | 0 <= i < |cs| && j == i + 1 :: Step(ss[i], cs[i], ss[j])
  }

  // The list stays attached: initially empty, it records where each page hangs, and directories are only
  // linked where they can be accessed.
  lemma {:induction false} RunStaysAttached(ss: seq<State>, cs: seq<Call>, k: nat)
    requires IsRun(ss, cs) && k < |ss| && ss[0].Attached()
    ensures ss[k].Valid() && ss[k].Attached()
  {
    hide State.Valid, State.Attached, Step;
    if k > 0 {
      RunStaysAttached(ss, cs, k - 1);
      assert Step(ss[k - 1], cs[k - 1], ss[k]);
      StepStaysAttached(ss[k - 1], cs[k - 1], ss[k]);
    }
  }

  lemma StepStaysAttached(a: State, c: Call, b: State)
    requires a.Valid() && Step(a, c, b) && a.Attached()
    ensures b.Valid() && b.Attached()
  {
    hide Sound, AllAttached, ParentsReach, ParentsMapped, Lookup, CutOn, NarrowAfter, KeepsObstacles, IsCutOff;
    hide Pass.Done, Pass.TreeAfter, Pass.MemAt, Pass.EnvAt, Pass.List;
    match c
    case Map(root, q, pool, ret) =>
    case Collect(force, ret) => NothingFails(Pass(a.env, a.m, a.t, a.ps, force));
  }

  // Collection only ever frees what somebody else unlinked, unless it is forced; then it frees all.
  lemma CollectInRun(ss: seq<State>, cs: seq<Call>, k: nat)
    requires IsRun(ss, cs) && k < |cs| && ss[0].Attached() && cs[k].Collect?
    ensures !cs[k].force ==> cs[k].ret == 0 && ss[k + 1].ps == ss[k].ps
    ensures cs[k].force ==> cs[k].ret == |ss[k].ps| && ss[k + 1].ps == []
    ensures cs[k].force ==> forall r, u: nat | IsRoot(ss[k].t, r) && u < VSPACE ::
      Lookup(ss[k + 1].m, r, u) == if Enters(ss[k].m, r, u, ss[k].ps) then NotMapped else Lookup(ss[k].m, r, u)
  {
    RunStaysAttached(ss, cs, k);
    assert Step(ss[k], cs[k], ss[k + 1]);
    var s := Pass(ss[k].env, ss[k].m, ss[k].t, ss[k].ps, cs[k].force);
    NothingFails(s);
    MappedIsGood(s);
    hide Pass.Good, Sound, AllAttached, ParentsReach, ParentsMapped, Lookup, CutOn, Enters, Pass.Done, Pass.Survivors;
    assert s.ps[0..] == s.ps;
    if cs[k].force {
      AttachedNamesAreLinks(s);
      forall r, u: nat | IsRoot(s.t, r) && u < VSPACE
        ensures CutOn(s.m, r, 0, u, s.Severed()) <==> Enters(s.m, r, u, s.ps)
      {
        ForcedCutsExactly(s, r, u);
      }
    } else {
      AttachedStay(s);
    }
  }

  // Roots, and translations, outlive everything but a forced collection: once a page is mapped it
  // stays mapped to the same frame.
  lemma {:induction false} MappedStays(ss: seq<State>, cs: seq<Call>, i: nat, k: nat, r: Loc, u: nat)
    requires IsRun(ss, cs) && i <= k < |ss| && IsRoot(ss[i].t, r) && u < VSPACE
    requires forall j | i <= j < k && cs[j].Collect? :: !cs[j].force
    requires Lookup(ss[i].m, r, u).Mapped?
    ensures IsRoot(ss[k].t, r) && Lookup(ss[k].m, r, u) == Lookup(ss[i].m, r, u)
  {
    hide Lookup, State.Valid, Step;
    if i < k {
      MappedStays(ss, cs, i, k - 1, r, u);
      assert Step(ss[k - 1], cs[k - 1], ss[k]);
      StepKeepsMapped(ss[k - 1], cs[k - 1], ss[k], r, u);
    }
  }

  lemma StepKeepsMapped(a: State, c: Call, b: State, r: Loc, u: nat)
    requires Step(a, c, b) && IsRoot(a.t, r) && u < VSPACE && (c.Collect? ==> !c.force)
    requires Lookup(a.m, r, u).Mapped?
    ensures IsRoot(b.t, r) && Lookup(b.m, r, u) == Lookup(a.m, r, u)
  {
    hide Lookup, State.Valid, KeepsRest, GrowsList, CutOn, KeepsReach, KeepsObstacles, IsCutOff;
  }

  // A mapping that succeeded can be read back after any further calls without a forced collection.
  lemma MapThenRun(ss: seq<State>, cs: seq<Call>, i: nat, k: nat, u: nat)
    requires IsRun(ss, cs) && i < k < |ss| && cs[i].Map? && cs[i].ret == 0
    requires cs[i].q.v <= u < cs[i].q.v + cs[i].q.Size() && u < VSPACE
    requires forall j | i < j < k && cs[j].Collect? :: !cs[j].force
    ensures Lookup(ss[k].m, cs[i].root, u) == Mapped(cs[i].q.paddr, cs[i].q.target, cs[i].q.Last())
  {
    assert Step(ss[i], cs[i], ss[i + 1]);
    hide Lookup, State.Valid, KeepsRest, GrowsList, KeepsReach, KeepsObstacles, IsCutOff;
    assert Lookup(ss[i + 1].m, cs[i].root, u) == Mapped(cs[i].q.paddr, cs[i].q.target, cs[i].q.Last());
    MappedStays(ss, cs, i + 1, k, cs[i].root, u);
  }
}
