// RunBenchmark() of every benchmark as a client of the barrier: one process per benchmark, whose
// steps interleave with those of the others.
module Benchmarks {
  import opened Barrier

  // What a benchmark does once it is not inside BarrierWait().
  datatype Phase =
    | Init   // has initialised and warmed up; next comes the first barrier
    | Start  // has passed the first barrier; next it reads the clock
    | Head   // at the top of the iteration loop
    | Work   // copies in, executes, copies out
    | Finish // has left the loop; next comes the last barrier
    | Clean  // has passed the last barrier, cleans up
    | Done

  // The job's settings. A zero limit means no limit.
  datatype Job = Job(maxIterations: nat, maxSeconds: real, terminator: bool)

  // `i` is the loop counter, `iters` the number of completed iterations, `start` the clock when the loop began.
  datatype Client = Client(phase: Phase, i: nat, iters: nat, start: real)

  // `now` is what the clock says.
  datatype System = System(bar: State, clients: seq<Client>, terminate: bool, now: real) {
    function At(p: nat, c: Client): System
      requires p < |clients|
    {
      this.(clients := clients[p := c])
    }
  }

  datatype Setup = Setup(jobs: seq<Job>, sync: bool)

  predicate Started(x: Setup, s: System) {
    && Created(s.bar, |x.jobs|) && |s.clients| == |x.jobs| && !s.terminate
    && forall p | 0 <= p < |s.clients| :: IsNew(s.clients[p])
  }

  predicate IsNew(c: Client) { c.phase == Init && c.i == c.iters == 0 }

  predicate TimeIsUp(job: Job, c: Client, now: real) { job.maxSeconds > 0.0 && now - c.start >= job.maxSeconds }

  // The next step of benchmark `p`.
  function Act(x: Setup, s: System, p: nat): System
    requires |s.bar.procs| == |s.clients| == |x.jobs| && p < |x.jobs|
  {
    var c, job := s.clients[p], x.jobs[p];
    var entered := s.(bar := Step(s.bar, p));
    if s.bar.procs[p].pc != Out then entered
    else match c.phase
      case Init => entered.At(p, c.(phase := Start))
      case Start => s.At(p, c.(phase := Head, start := s.now))
      case Head =>
        var i := if job.maxIterations > 0 then c.i + 1 else c.i;
        if job.maxIterations > 0 && i > job.maxIterations then s.At(p, c.(phase := Finish, i := i))
        else if TimeIsUp(job, c, s.now) then s.At(p, c.(phase := Finish, i := i))
        else if s.terminate then s.At(p, c.(phase := Finish, i := i))
        else (if x.sync then entered else s).At(p, c.(phase := Work, i := i))
      case Work => s.At(p, c.(phase := Head, iters := c.iters + 1))
      case Finish => entered.(terminate := s.terminate || job.terminator).At(p, c.(phase := Clean))
      case Clean => s.At(p, c.(phase := Done))
      case Done => s
  }

  ghost predicate Fits(x: Setup, s: System) { |s.bar.procs| == |s.clients| == |x.jobs| }

  // A step of some benchmark, after which the clock has not gone back.
  ghost predicate IsAct(x: Setup, s: System, s': System) {
    Fits(x, s) && s.now <= s'.now && exists p: nat | p < |x.jobs| :: s' == Act(x, s, p).(now := s'.now)
  }

  ghost predicate IsHistory(x: Setup, h: seq<System>) {
    && |h| > 0 && Started(x, h[0])
    && forall i | 0 <= i < |h| - 1 :: IsAct(x, h[i], h[i + 1])
  }

  lemma WhoActs(x: Setup, h: seq<System>, i: nat) returns (p: nat)
    requires IsHistory(x, h) && 0 < i < |h|
    ensures Fits(x, h[i - 1]) && p < |x.jobs| && h[i - 1].now <= h[i].now
    ensures h[i] == Act(x, h[i - 1], p).(now := h[i].now)
  {
    assert IsAct(x, h[i - 1], h[i - 1 + 1]);
    p :| 0 <= p < |x.jobs| && h[i] == Act(x, h[i - 1], p).(now := h[i].now);
  }

  // The number of barrier calls a benchmark has begun is determined by where it is.
  predicate ClientOk(x: Setup, c: Client, me: Proc, job: Job) {
    && me.begun == (match c.phase
         case Init => 0
         case Start => 1
         case Head => 1 + if x.sync then c.iters else 0
         case Work => if x.sync then c.iters + 2 else 1
         case Finish => 1 + if x.sync then c.iters else 0
         case Clean => 2 + if x.sync then c.iters else 0
         case Done => 2 + if x.sync then c.iters else 0)
    && (c.phase in {Init, Head, Finish, Done} ==> me.pc == Out) && (c.phase in {Init, Start} ==> c.i == c.iters == 0)
    && (!x.sync && c.phase == Work ==> me.pc == Out)
    // the loop counter
    && (job.maxIterations > 0 ==>
          && (c.phase in {Init, Start, Head} ==> c.i == c.iters <= job.maxIterations)
          && (c.phase == Work ==> c.i == c.iters + 1 <= job.maxIterations)
          && c.iters <= job.maxIterations)
  }

  ghost predicate SysInv(x: Setup, s: System) {
    && Fits(x, s) && Inv(s.bar)
    && forall p | 0 <= p < |x.jobs| :: ClientOk(x, s.clients[p], s.bar.procs[p], x.jobs[p])
  }

  lemma StepIsLocal(s: State, p: nat)
    requires p < |s.procs|
    ensures |Step(s, p).procs| == |s.procs|
    ensures forall q | 0 <= q < |s.procs| && q != p :: Step(s, p).procs[q] == s.procs[q]
  {
  }

  // What a step does to the benchmark that makes it.
  lemma ActKeepsClient(x: Setup, s: System, p: nat)
    requires Fits(x, s) && p < |x.jobs| && ClientOk(x, s.clients[p], s.bar.procs[p], x.jobs[p])
    ensures var s' := Act(x, s, p);
            Fits(x, s') && ClientOk(x, s'.clients[p], s'.bar.procs[p], x.jobs[p])
  {
    var c := s.clients[p];
    if s.bar.procs[p].pc == Out {
      match c.phase
      case Init =>
      case Start =>
      case Head =>
      case Work =>
      case Finish =>
      case Clean =>
      case Done =>
    }
  }

  lemma ActKeepsInv(x: Setup, s: System, p: nat)
    requires SysInv(x, s) && p < |x.jobs|
    ensures SysInv(x, Act(x, s, p))
  {
    var s' := Act(x, s, p);
    StepKeepsInv(s.bar, p);
    StepIsLocal(s.bar, p);
    hide Inv;
    assert ClientOk(x, s.clients[p], s.bar.procs[p], x.jobs[p]);
    ActKeepsClient(x, s, p);
    hide ClientOk;
    forall q | 0 <= q < |x.jobs| && q != p
      ensures ClientOk(x, s'.clients[q], s'.bar.procs[q], x.jobs[q])
    {
      assert ClientOk(x, s.clients[q], s.bar.procs[q], x.jobs[q]);
    }
  }

  lemma {:induction false} HistoryInv(x: Setup, h: seq<System>, i: nat)
    requires IsHistory(x, h) && i < |h|
    ensures SysInv(x, h[i])
  {
    if i == 0 {
      CreatedInv(h[0].bar, |x.jobs|);
    } else {
      HistoryInv(x, h, i - 1);
      var p := WhoActs(x, h, i);
      ActKeepsInv(x, h[i - 1], p);
    }
  }

  predicate HasLeftLoop(c: Client) { c.phase in {Finish, Clean, Done} }

  // Past the last barrier: the next step is the cleanup, or it has been made.
  predicate MayCleanUp(c: Client, me: Proc) { c.phase in {Clean, Done} && me.pc == Out }

  // Without synchronised iterations no benchmark cleans up before all have left their loops,
  // whatever limits and terminators end the loops.
  lemma CleanupWaitsForAll(x: Setup, h: seq<System>, i: nat, p: nat, q: nat)
    requires IsHistory(x, h) && i < |h| && p < |x.jobs| && q < |x.jobs| && !x.sync
    ensures Fits(x, h[i])
    ensures MayCleanUp(h[i].clients[p], h[i].bar.procs[p]) ==> HasLeftLoop(h[i].clients[q])
  {
    HistoryInv(x, h, i);
    var s := h[i];
    assert ProcOk(s.bar.procs[p], s.bar.episode) && ProcOk(s.bar.procs[q], s.bar.episode);
    assert ClientOk(x, s.clients[p], s.bar.procs[p], x.jobs[p]);
    assert ClientOk(x, s.clients[q], s.bar.procs[q], x.jobs[q]);
  }

  // Synchronised iterations, where only iteration limits end the loops.

  ghost predicate OnlyLimits(x: Setup) {
    x.sync && forall p | 0 <= p < |x.jobs| ::
      x.jobs[p].maxIterations > 0 && x.jobs[p].maxSeconds <= 0.0 && !x.jobs[p].terminator
  }

  ghost predicate LimitsInv(x: Setup, s: System) {
    && SysInv(x, s) && !s.terminate
    && forall p | 0 <= p < |x.jobs| :: HasLeftLoop(s.clients[p]) ==> s.clients[p].iters == x.jobs[p].maxIterations
  }

  lemma ActKeepsLimits(x: Setup, s: System, p: nat)
    requires OnlyLimits(x) && LimitsInv(x, s) && p < |x.jobs|
    ensures LimitsInv(x, Act(x, s, p))
  {
    ActKeepsInv(x, s, p);
    assert ClientOk(x, s.clients[p], s.bar.procs[p], x.jobs[p]);
    hide Inv, SysInv;
  }

  lemma {:induction false} HistoryLimits(x: Setup, h: seq<System>, i: nat)
    requires OnlyLimits(x) && IsHistory(x, h) && i < |h|
    ensures LimitsInv(x, h[i])
  {
    HistoryInv(x, h, i);
    if i > 0 {
      HistoryLimits(x, h, i - 1);
      var p := WhoActs(x, h, i);
      ActKeepsLimits(x, h[i - 1], p);
    }
  }

  // The benchmarks iterate in step.
  lemma IterationsInStep(x: Setup, h: seq<System>, i: nat, p: nat, q: nat)
    requires IsHistory(x, h) && i < |h| && p < |x.jobs| && q < |x.jobs| && x.sync
    ensures Fits(x, h[i])
    ensures h[i].clients[p].iters <= h[i].clients[q].iters + 1
  {
    HistoryInv(x, h, i);
    var s := h[i];
    assert ProcOk(s.bar.procs[p], s.bar.episode) && ProcOk(s.bar.procs[q], s.bar.episode);
    assert ClientOk(x, s.clients[p], s.bar.procs[p], x.jobs[p]);
    assert ClientOk(x, s.clients[q], s.bar.procs[q], x.jobs[q]);
  }

  // With equal limits the last barrier still separates the loops from the cleanups.
  lemma CleanupWaitsInStep(x: Setup, h: seq<System>, i: nat, p: nat, q: nat)
    requires OnlyLimits(x) && IsHistory(x, h) && i < |h| && p < |x.jobs| && q < |x.jobs|
    requires x.jobs[p].maxIterations == x.jobs[q].maxIterations
    ensures Fits(x, h[i])
    ensures MayCleanUp(h[i].clients[p], h[i].bar.procs[p]) ==> HasLeftLoop(h[i].clients[q])
  {
    HistoryLimits(x, h, i);
    var s := h[i];
    assert ProcOk(s.bar.procs[p], s.bar.episode) && ProcOk(s.bar.procs[q], s.bar.episode);
    assert ClientOk(x, s.clients[p], s.bar.procs[p], x.jobs[p]);
    assert ClientOk(x, s.clients[q], s.bar.procs[q], x.jobs[q]);
  }

  ghost predicate AllDone(s: System) { forall p | 0 <= p < |s.clients| :: s.clients[p].phase == Done }

  // All benchmarks finish only if their limits are equal, and then they all made the same
  // number of barrier calls.
  lemma FinishingNeedsEqualLimits(x: Setup, h: seq<System>, i: nat, p: nat, q: nat)
    requires OnlyLimits(x) && IsHistory(x, h) && i < |h| && AllDone(h[i]) && p < |x.jobs| && q < |x.jobs|
    ensures Fits(x, h[i])
    ensures x.jobs[p].maxIterations == x.jobs[q].maxIterations
    ensures h[i].bar.procs[p].begun == h[i].bar.procs[q].begun == x.jobs[p].maxIterations + 2
  {
    HistoryLimits(x, h, i);
    var s := h[i];
    assert ProcOk(s.bar.procs[p], s.bar.episode) && ProcOk(s.bar.procs[q], s.bar.episode);
    assert ClientOk(x, s.clients[p], s.bar.procs[p], x.jobs[p]);
    assert ClientOk(x, s.clients[q], s.bar.procs[q], x.jobs[q]);
  }

  // With equal limits nobody is left waiting: until all are done, some benchmark can make a step
  // that is not an idle spin.
  predicate CanAct(s: System, p: nat)
    requires p < |s.clients| == |s.bar.procs|
  {
    !IsIdle(s.bar, p) && s.clients[p].phase != Done
  }

  lemma NobodyLeftWaiting(x: Setup, h: seq<System>, i: nat, limit: nat)
    requires OnlyLimits(x) && IsHistory(x, h) && i < |h|
    requires forall p | 0 <= p < |x.jobs| :: x.jobs[p].maxIterations == limit
    ensures Fits(x, h[i])
    ensures AllDone(h[i]) || exists p | 0 <= p < |x.jobs| :: CanAct(h[i], p)
  {
    HistoryLimits(x, h, i);
    var s := h[i];
    if p: nat :| p < |x.jobs| && s.clients[p].phase != Done && !CanAct(s, p) {
      assert ClientOk(x, s.clients[p], s.bar.procs[p], x.jobs[p]);
      var q := SomebodyMoves(s.bar, p);
      assert ClientOk(x, s.clients[q], s.bar.procs[q], x.jobs[q]);
      assert CanAct(s, q);
    }
  }

  // With one limit for all, every run ends with all benchmarks done: whatever the schedule, only a
  // bounded number of steps changes anything.

  // Every such step adds to the effort of the benchmark that makes it.
  function Effort(c: Client, me: Proc): int {
    Progress(me) + 2 * c.iters + (if c.phase in {Init, Start} then 0 else 1) + (if c.phase == Work then 1 else 0)
    + (if HasLeftLoop(c) then 1 else 0) + (if c.phase == Done then 1 else 0)
  }

  function TotalEffort(s: System, n: nat): int
    requires n <= |s.clients| == |s.bar.procs|
  {
    if n == 0 then 0 else TotalEffort(s, n - 1) + Effort(s.clients[n - 1], s.bar.procs[n - 1])
  }

  lemma ActAdds(x: Setup, s: System, p: nat)
    requires Fits(x, s) && p < |x.jobs| && ClientOk(x, s.clients[p], s.bar.procs[p], x.jobs[p])
    ensures var s' := Act(x, s, p);
      && Fits(x, s') && (Differs(s, s') <==> CanAct(s, p))
      && (CanAct(s, p) ==> Effort(s'.clients[p], s'.bar.procs[p]) > Effort(s.clients[p], s.bar.procs[p]))
      && forall q | 0 <= q < |x.jobs| && q != p ::
           s'.clients[q] == s.clients[q] && s'.bar.procs[q] == s.bar.procs[q]
  {
    StepIsLocal(s.bar, p);
    var s' := Act(x, s, p);
    if CanAct(s, p) {
      assert Effort(s'.clients[p], s'.bar.procs[p]) > Effort(s.clients[p], s.bar.procs[p]);
    }
  }

  lemma {:induction false} TotalAdds(s: System, s': System, p: nat, n: nat)
    requires n <= |s.clients| == |s.bar.procs| == |s'.clients| == |s'.bar.procs| && p < |s.clients|
    requires forall q | 0 <= q < |s.clients| && q != p ::
      s'.clients[q] == s.clients[q] && s'.bar.procs[q] == s.bar.procs[q]
    ensures TotalEffort(s', n) == TotalEffort(s, n) +
      if p < n then Effort(s'.clients[p], s'.bar.procs[p]) - Effort(s.clients[p], s.bar.procs[p]) else 0
  {
    hide Effort;
    if n > 0 { TotalAdds(s, s', p, n - 1); }
  }

  // Anything but the clock.
  predicate Differs(s: System, s': System) {
    s'.bar != s.bar || s'.clients != s.clients || s'.terminate != s.terminate
  }

  // The steps among the first `k` that changed anything.
  function Changes(h: seq<System>, k: nat): nat
    requires k < |h|
  {
    if k == 0 then 0 else Changes(h, k - 1) + if Differs(h[k - 1], h[k]) then 1 else 0
  }

  lemma {:induction false} ChangesTakeEffort(x: Setup, h: seq<System>, k: nat)
    requires IsHistory(x, h) && k < |h|
    ensures Fits(x, h[k]) && Changes(h, k) <= TotalEffort(h[k], |x.jobs|)
  {
    HistoryInv(x, h, k);
    if k == 0 {
      NoEffortYet(h[0], |x.jobs|);
    } else {
      ChangesTakeEffort(x, h, k - 1);
      HistoryInv(x, h, k - 1);
      var p := WhoActs(x, h, k);
      hide Act, Effort, ClientOk, Inv, TotalEffort;
      ActAdds(x, h[k - 1], p);
      TotalAdds(h[k - 1], h[k], p, |x.jobs|);
    }
  }

  lemma {:induction false} NoEffortYet(s: System, n: nat)
    requires n <= |s.clients| == |s.bar.procs|
    requires forall p | 0 <= p < n :: IsNew(s.clients[p]) && s.bar.procs[p] == Proc(Out, false, 0)
    ensures TotalEffort(s, n) == 0
  {
    if n > 0 { NoEffortYet(s, n - 1); }
  }

  lemma {:induction false} EffortBound(x: Setup, s: System, limit: nat, n: nat)
    requires SysInv(x, s) && x.sync && n <= |x.jobs| && limit > 0
    requires forall p | 0 <= p < |x.jobs| :: x.jobs[p].maxIterations == limit
    ensures TotalEffort(s, n) <= n * (6 * limit + 11)
  {
    if n > 0 {
      EffortBound(x, s, limit, n - 1);
      assert ClientOk(x, s.clients[n - 1], s.bar.procs[n - 1], x.jobs[n - 1]);
      assert Effort(s.clients[n - 1], s.bar.procs[n - 1]) <= 6 * limit + 11;
      assert n * (6 * limit + 11) == (n - 1) * (6 * limit + 11) + (6 * limit + 11);
    }
  }

  ghost predicate HasFinished(s: System, p: nat, limit: nat)
    requires p < |s.clients| == |s.bar.procs|
  {
    s.clients[p].phase == Done && s.clients[p].iters == limit && s.bar.procs[p].begun == limit + 2
  }

  lemma DoneHasFinished(x: Setup, h: seq<System>, i: nat, p: nat)
    requires OnlyLimits(x) && IsHistory(x, h) && i < |h| && AllDone(h[i]) && p < |x.jobs|
    ensures Fits(x, h[i]) && HasFinished(h[i], p, x.jobs[p].maxIterations)
  {
    HistoryLimits(x, h, i);
    FinishingNeedsEqualLimits(x, h, i, p, p);
  }

  // At any moment `k`: when no benchmark can make a further step that changes anything, all are done,
  // with all their iterations and equally many barrier calls.
  lemma AllFinish(x: Setup, h: seq<System>, k: nat, limit: nat)
    requires OnlyLimits(x) && IsHistory(x, h) && k < |h|
    requires forall p | 0 <= p < |x.jobs| :: x.jobs[p].maxIterations == limit
    ensures Changes(h, k) <= |x.jobs| * (6 * limit + 11)
    ensures Fits(x, h[k])
    ensures (forall p | 0 <= p < |x.jobs| :: !CanAct(h[k], p)) ==>
      forall p | 0 <= p < |x.jobs| :: HasFinished(h[k], p, limit)
  {
    assert |x.jobs| > 0 ==> x.jobs[0].maxIterations > 0;
    HistoryInv(x, h, k);
    hide SysInv, TotalEffort, CanAct, AllDone, HasFinished, ClientOk;
    ChangesTakeEffort(x, h, k);
    if |x.jobs| > 0 { EffortBound(x, h[k], limit, |x.jobs|); } else { NoJobs(h[k]); }
    NobodyLeftWaiting(x, h, k, limit);
    if AllDone(h[k]) {
      forall p | 0 <= p < |x.jobs|
        ensures HasFinished(h[k], p, limit)
      {
        DoneHasFinished(x, h, k, p);
      }
    }
  }

  lemma NoJobs(s: System)
    requires |s.clients| == |s.bar.procs| == 0
    ensures TotalEffort(s, 0) == 0
  {
  }

  // When a loop ends: its iteration limit is reached, its time is up, or the flag is set.

  predicate MustStop(job: Job, c: Client, s: System) {
    || (job.maxIterations > 0 && c.iters >= job.maxIterations)
    || (job.maxSeconds > 0.0 && s.now - c.start >= job.maxSeconds)
    || s.terminate
  }

  // It was a terminator, and has left its loop and said so.
  predicate HasSignalled(x: Setup, s: System, p: nat)
    requires p < |x.jobs| == |s.clients|
  {
    x.jobs[p].terminator && s.clients[p].phase in {Clean, Done}
  }

  // What a benchmark can do in one step from state `s`: nothing, or go on to its next phase.
  predicate GoesOn(job: Job, c: Client, c': Client, s: System, flag: bool) {
    c' == c || match c.phase
      case Init => c' == c.(phase := Start)
      case Start => c' == c.(phase := Head, start := s.now)
      case Head => c' == c.(phase := if MustStop(job, c, s) then Finish else Work, i := c'.i)
      case Work => c' == c.(phase := Head, iters := c.iters + 1)
      case Finish => c' == c.(phase := Clean) && (job.terminator ==> flag)
      case Clean => c' == c.(phase := Done)
      case Done => false
  }

  lemma ActGoesOn(x: Setup, s: System, p: nat)
    requires Fits(x, s) && p < |x.jobs| && ClientOk(x, s.clients[p], s.bar.procs[p], x.jobs[p])
    ensures var s' := Act(x, s, p);
      && |s'.clients| == |s.clients| && (s.terminate ==> s'.terminate)
      && GoesOn(x.jobs[p], s.clients[p], s'.clients[p], s, s'.terminate)
      && (forall q | 0 <= q < |x.jobs| && q != p :: s'.clients[q] == s.clients[q])
      && (s'.terminate && !s.terminate ==> HasSignalled(x, s', p))
  {
    hide Step;
  }

  lemma OneStep(x: Setup, h: seq<System>, i: nat, p: nat)
    requires IsHistory(x, h) && 0 < i < |h| && p < |x.jobs|
    ensures Fits(x, h[i - 1]) && Fits(x, h[i]) && h[i - 1].now <= h[i].now && (h[i - 1].terminate ==> h[i].terminate)
    ensures GoesOn(x.jobs[p], h[i - 1].clients[p], h[i].clients[p], h[i - 1], h[i].terminate)
    ensures h[i].terminate && !h[i - 1].terminate ==> exists q: nat :: q < |x.jobs| && HasSignalled(x, h[i], q)
  {
    HistoryInv(x, h, i - 1);
    HistoryInv(x, h, i);
    var q := WhoActs(x, h, i);
    assert ClientOk(x, h[i - 1].clients[q], h[i - 1].bar.procs[q], x.jobs[q]);
    hide Inv, Act, ClientOk, IsHistory, HasSignalled, MustStop;
    ActGoesOn(x, h[i - 1], q);
    assert HasSignalled(x, Act(x, h[i - 1], q), q) == HasSignalled(x, h[i], q) by { SameSignal(x, h[i - 1], h[i], q); }
  }

  lemma SameSignal(x: Setup, s: System, s': System, q: nat)
    requires Fits(x, s) && q < |x.jobs| && s' == Act(x, s, q).(now := s'.now) && Fits(x, s')
    ensures |Act(x, s, q).clients| == |x.jobs|
    ensures HasSignalled(x, Act(x, s, q), q) == HasSignalled(x, s', q)
  {
    hide Act;
  }

  // The clock of a loop is read when it begins.
  lemma {:induction false} ClockStarts(x: Setup, h: seq<System>, i: nat, j: nat, p: nat)
    requires IsHistory(x, h) && i < j < |h| && p < |x.jobs| && Fits(x, h[i]) && Fits(x, h[i + 1])
    requires h[i].clients[p].phase == Start && h[i + 1].clients[p].phase == Head
    ensures Fits(x, h[j]) && h[j].clients[p].start == h[i].now && h[j].clients[p].phase !in {Init, Start}
  {
    hide IsHistory, MustStop;
    OneStep(x, h, j, p);
    if i + 1 < j { ClockStarts(x, h, i, j - 1, p); }
  }

  // From the first moment when it must stop at the head of its loop, a benchmark completes no further iteration.
  lemma {:induction false} NoFurtherIteration(x: Setup, h: seq<System>, i: nat, j: nat, p: nat)
    requires IsHistory(x, h) && i <= j < |h| && p < |x.jobs| && Fits(x, h[i])
    requires h[i].clients[p].phase == Head && MustStop(x.jobs[p], h[i].clients[p], h[i])
    ensures Fits(x, h[j]) && h[j].clients[p].iters == h[i].clients[p].iters
    ensures HasLeftLoop(h[j].clients[p]) || h[j].clients[p] == h[i].clients[p]
  {
    hide IsHistory;
    if i < j {
      NoFurtherIteration(x, h, i, j - 1, p);
      NowGrows(x, h, i, j - 1);
      OneStep(x, h, j, p);
    }
  }

  lemma {:induction false} NowGrows(x: Setup, h: seq<System>, i: nat, j: nat)
    requires IsHistory(x, h) && i <= j < |h|
    ensures h[i].now <= h[j].now && (h[i].terminate ==> h[j].terminate)
  {
    if i < j {
      NowGrows(x, h, i, j - 1);
      var p := WhoActs(x, h, j);
    }
  }

  // A benchmark that has left its loop had to, at the head of the loop, at some moment before.
  lemma {:induction false} LeavesForReason(x: Setup, h: seq<System>, j: nat, p: nat)
    requires IsHistory(x, h) && j < |h| && p < |x.jobs|
    ensures Fits(x, h[j])
    ensures HasLeftLoop(h[j].clients[p]) ==> exists i: nat :: i < j && MustStopAt(x, h, i, p)
  {
    if j > 0 {
      hide IsHistory;
      LeavesForReason(x, h, j - 1, p);
      OneStep(x, h, j, p);
      if !HasLeftLoop(h[j - 1].clients[p]) && HasLeftLoop(h[j].clients[p]) { assert MustStopAt(x, h, j - 1, p); }
    }
  }

  ghost predicate MustStopAt(x: Setup, h: seq<System>, i: nat, p: nat)
    requires i < |h| && p < |x.jobs|
  {
    Fits(x, h[i]) && h[i].clients[p].phase == Head && MustStop(x.jobs[p], h[i].clients[p], h[i])
  }

  // The flag is set exactly if some terminator has left its loop and signalled that.
  lemma {:induction false} FlagMeans(x: Setup, h: seq<System>, j: nat)
    requires IsHistory(x, h) && j < |h|
    ensures Fits(x, h[j]) && (h[j].terminate <==> SomebodySignalled(x, h[j]))
  {
    if j > 0 {
      FlagMeans(x, h, j - 1);
      FlagStep(x, h, j);
    }
  }

  ghost predicate SomebodySignalled(x: Setup, s: System)
    requires Fits(x, s)
  {
    exists p: nat :: p < |x.jobs| && HasSignalled(x, s, p)
  }

  lemma FlagStep(x: Setup, h: seq<System>, j: nat)
    requires IsHistory(x, h) && 0 < j < |h|
    requires Fits(x, h[j - 1]) && (h[j - 1].terminate <==> SomebodySignalled(x, h[j - 1]))
    ensures Fits(x, h[j]) && (h[j].terminate <==> SomebodySignalled(x, h[j]))
  {
    hide IsHistory;
    var actor := WhoActs(x, h, j);
    OneStep(x, h, j, actor);
    forall p: nat | p < |x.jobs|
      ensures HasSignalled(x, h[j - 1], p) ==> HasSignalled(x, h[j], p)
      ensures HasSignalled(x, h[j], p) ==> HasSignalled(x, h[j - 1], p) || h[j].terminate
    {
      OneStep(x, h, j, p);
    }
    hide HasSignalled;
    if SomebodySignalled(x, h[j - 1]) {
      var p: nat :| p < |x.jobs| && HasSignalled(x, h[j - 1], p);
      assert HasSignalled(x, h[j], p);
    }
    if SomebodySignalled(x, h[j]) {
      var p: nat :| p < |x.jobs| && HasSignalled(x, h[j], p);
      assert HasSignalled(x, h[j - 1], p) || h[j].terminate;
    }
  }

  // Without synchronised iterations, whatever ends the loops: from a moment when every benchmark is bound to
  // stop, because it has an iteration limit, or its time is up, or the flag is set, only a bounded number of
  // steps changes anything, and when none is left all are done.

  predicate IsStopping(job: Job, c: Client, s: System) {
    HasLeftLoop(c) || s.terminate || (c.phase in {Head, Work} && TimeIsUp(job, c, s.now))
  }

  predicate IsBound(job: Job, c: Client, s: System) { job.maxIterations > 0 || IsStopping(job, c, s) }

  // No more than these iterations will be completed.
  function Most(job: Job, c: Client): nat {
    if job.maxIterations > c.iters + 1 then job.maxIterations else c.iters + 1
  }

  lemma {:induction false} StaysStopping(x: Setup, h: seq<System>, k: nat, j: nat, p: nat)
    requires IsHistory(x, h) && k <= j < |h| && p < |x.jobs| && Fits(x, h[k])
    requires IsStopping(x.jobs[p], h[k].clients[p], h[k])
    ensures Fits(x, h[j]) && IsStopping(x.jobs[p], h[j].clients[p], h[j])
    ensures h[j].clients[p].iters <= h[k].clients[p].iters + 1
    ensures h[j].clients[p].phase == Work ==> h[j].clients[p].iters <= h[k].clients[p].iters
  {
    hide IsHistory;
    if k < j {
      StaysStopping(x, h, k, j - 1, p);
      OneStep(x, h, j, p);
    }
  }

  lemma ItersBounded(x: Setup, h: seq<System>, k: nat, j: nat, p: nat)
    requires IsHistory(x, h) && k <= j < |h| && p < |x.jobs| && Fits(x, h[k])
    requires IsBound(x.jobs[p], h[k].clients[p], h[k])
    ensures Fits(x, h[j]) && h[j].clients[p].iters <= Most(x.jobs[p], h[k].clients[p])
  {
    HistoryInv(x, h, j);
    assert ClientOk(x, h[j].clients[p], h[j].bar.procs[p], x.jobs[p]);
    if IsStopping(x.jobs[p], h[k].clients[p], h[k]) { StaysStopping(x, h, k, j, p); }
  }

  function EffortLeft(x: Setup, s: System, n: nat): nat
    requires n <= |x.jobs| == |s.clients|
  {
    if n == 0 then 0 else EffortLeft(x, s, n - 1) + 2 * Most(x.jobs[n - 1], s.clients[n - 1]) + 12
  }

  lemma {:induction false} EffortBounded(x: Setup, h: seq<System>, k: nat, j: nat, n: nat)
    requires IsHistory(x, h) && k <= j < |h| && n <= |x.jobs| && !x.sync && Fits(x, h[k])
    requires forall p | 0 <= p < |x.jobs| :: IsBound(x.jobs[p], h[k].clients[p], h[k])
    ensures Fits(x, h[j]) && TotalEffort(h[j], n) <= EffortLeft(x, h[k], n)
  {
    HistoryInv(x, h, j);
    if n > 0 {
      EffortBounded(x, h, k, j, n - 1);
      ItersBounded(x, h, k, j, n - 1);
      assert ClientOk(x, h[j].clients[n - 1], h[j].bar.procs[n - 1], x.jobs[n - 1]);
    }
  }

  lemma NobodyWaitsUnsynchronised(x: Setup, h: seq<System>, i: nat)
    requires IsHistory(x, h) && i < |h| && !x.sync
    ensures Fits(x, h[i])
    ensures AllDone(h[i]) || exists p | 0 <= p < |x.jobs| :: CanAct(h[i], p)
  {
    HistoryInv(x, h, i);
    var s := h[i];
    if p: nat :| p < |x.jobs| && s.clients[p].phase != Done && !CanAct(s, p) {
      assert ClientOk(x, s.clients[p], s.bar.procs[p], x.jobs[p]);
      var q := SomebodyMoves(s.bar, p);
      assert ClientOk(x, s.clients[q], s.bar.procs[q], x.jobs[q]);
      assert CanAct(s, q);
    }
  }

  lemma AllFinishUnsynchronised(x: Setup, h: seq<System>, k: nat, j: nat)
    requires IsHistory(x, h) && k <= j < |h| && !x.sync && Fits(x, h[k])
    requires forall p | 0 <= p < |x.jobs| :: IsBound(x.jobs[p], h[k].clients[p], h[k])
    ensures Changes(h, j) <= EffortLeft(x, h[k], |x.jobs|)
    ensures Fits(x, h[j])
    ensures (forall p | 0 <= p < |x.jobs| :: !CanAct(h[j], p)) ==> AllDone(h[j])
  {
    ChangesTakeEffort(x, h, j);
    EffortBounded(x, h, k, j, |x.jobs|);
    NobodyWaitsUnsynchronised(x, h, j);
  }

  // A terminator that has signalled makes all others stop.
  lemma TerminatorStopsAll(x: Setup, h: seq<System>, k: nat, q: nat)
    requires IsHistory(x, h) && k < |h| && q < |x.jobs| && Fits(x, h[k]) && HasSignalled(x, h[k], q)
    ensures forall p | 0 <= p < |x.jobs| :: IsBound(x.jobs[p], h[k].clients[p], h[k])
  {
    FlagMeans(x, h, k);
  }
}
