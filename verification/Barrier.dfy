// The sense-reversing barrier as a protocol: every access to shared memory is one atomic step of
// one process, and steps of different processes interleave in any order.
module Barrier {

  // Where a process stands in BarrierWait().
  datatype Pc =
    | Out       // not in a call
    | Flipped   // has flipped its local sense
    | Resetting // found the counter at 1
    | Releasing // has reset the counter
    | Spinning  // reads the shared sense until it equals the local one

  // `begun` counts the calls that the process has begun.
  datatype Proc = Proc(pc: Pc, local: bool, begun: nat) {
    function Returned(): int { if pc == Out then begun else begun - 1 }
  }

  // `episode` counts the writes to the shared sense; it is not part of the program's state.
  datatype State = State(remaining: int, sense: bool, procs: seq<Proc>, episode: nat) {
    function With(p: nat, proc: Proc): State
      requires p < |procs|
    {
      this.(procs := procs[p := proc])
    }
  }

  // BarrierCreate() for `n` processes, each with a zero local sense.
  predicate Created(s: State, n: nat) {
    && s.remaining == n == |s.procs| && !s.sense && s.episode == 0
    && forall p | 0 <= p < n :: s.procs[p] == Proc(Out, false, 0)
  }

  // The next step of process `p`.
  function Step(s: State, p: nat): State
    requires p < |s.procs|
  {
    var me := s.procs[p];
    match me.pc
    case Out => s.With(p, Proc(Flipped, !me.local, me.begun + 1))
    case Flipped =>
      s.(remaining := s.remaining - 1).With(p, me.(pc := if s.remaining == 1 then Resetting else Spinning))
    case Resetting => s.(remaining := |s.procs|).With(p, me.(pc := Releasing))
    case Releasing => s.(sense := me.local, episode := s.episode + 1).With(p, me.(pc := Out))
    case Spinning => if s.sense == me.local then s.With(p, me.(pc := Out)) else s
  }

  ghost predicate IsStep(s: State, s': State) { exists p: nat | p < |s.procs| :: s' == Step(s, p) }

  ghost predicate IsRun(run: seq<State>, n: nat) {
    && |run| > 0 && Created(run[0], n)
    && forall i | 0 <= i < |run| - 1 :: IsStep(run[i], run[i + 1])
  }

  // The invariant.

  predicate Odd(n: nat) { n % 2 == 1 }

  // Arrived in the current episode and not released yet.
  predicate Waits(me: Proc, episode: nat) { me.pc == Spinning && me.begun == episode + 1 }

  function Waiting(procs: seq<Proc>, episode: nat): (n: nat)
    ensures n <= |procs|
  {
    if procs == [] then 0
    else Waiting(procs[..|procs| - 1], episode) + if Waits(procs[|procs| - 1], episode) then 1 else 0
  }

  predicate ProcOk(me: Proc, episode: nat) {
    && me.local == Odd(me.begun)
    && (me.begun == episode || me.begun == episode + 1)
    && (me.pc == Out ==> me.begun == episode)
    && (me.pc in {Flipped, Resetting, Releasing} ==> me.begun == episode + 1)
  }

  predicate IsLast(me: Proc) { me.pc == Resetting || me.pc == Releasing }

  // While the last process to arrive resets and releases, everybody else waits for it.
  ghost predicate OthersWait(s: State, p: nat) {
    forall q | 0 <= q < |s.procs| && q != p :: Waits(s.procs[q], s.episode)
  }

  ghost predicate Inv(s: State) {
    && s.sense == Odd(s.episode)
    && (forall p | 0 <= p < |s.procs| :: ProcOk(s.procs[p], s.episode))
    && (forall p | 0 <= p < |s.procs| && IsLast(s.procs[p]) ::
          OthersWait(s, p) && s.remaining == if s.procs[p].pc == Resetting then 0 else |s.procs|)
    && ((forall p | 0 <= p < |s.procs| :: !IsLast(s.procs[p])) ==>
          s.remaining == |s.procs| - Waiting(s.procs, s.episode) && (|s.procs| > 0 ==> s.remaining > 0))
  }

  lemma {:induction false} WaitingUpdate(procs: seq<Proc>, episode: nat, p: nat, me: Proc)
    requires p < |procs|
    ensures Waiting(procs[p := me], episode) ==
      Waiting(procs, episode) + (if Waits(me, episode) then 1 else 0) - (if Waits(procs[p], episode) then 1 else 0)
  {
    var k := |procs| - 1;
    if p < k {
      WaitingUpdate(procs[..k], episode, p, me);
      assert procs[p := me][..k] == procs[..k][p := me];
    } else {
      assert procs[p := me][..k] == procs[..k];
    }
  }

  lemma {:induction false} WaitingAll(procs: seq<Proc>, episode: nat)
    ensures Waiting(procs, episode) == |procs| <==> forall q | 0 <= q < |procs| :: Waits(procs[q], episode)
    ensures (forall q | 0 <= q < |procs| :: !Waits(procs[q], episode)) ==> Waiting(procs, episode) == 0
  {
    if procs != [] {
      var k := |procs| - 1;
      WaitingAll(procs[..k], episode);
      assert procs == procs[..k] + [procs[k]];
    }
  }

  // When all but one process wait, the count says so.
  lemma LastArrives(procs: seq<Proc>, episode: nat, p: nat)
    requires p < |procs| && !Waits(procs[p], episode)
    ensures Waiting(procs, episode) < |procs|
    ensures Waiting(procs, episode) == |procs| - 1 ==>
      forall q | 0 <= q < |procs| && q != p :: Waits(procs[q], episode)
  {
    WaitingAll(procs, episode);
    var me := Proc(Spinning, false, episode + 1);
    WaitingUpdate(procs, episode, p, me);
    WaitingAll(procs[p := me], episode);
    if Waiting(procs, episode) == |procs| - 1 {
      forall q | 0 <= q < |procs| && q != p
        ensures Waits(procs[q], episode)
      {
        assert procs[p := me][q] == procs[q];
      }
    }
  }

  // A process that neither waits nor is the last one knows that nobody is the last one.
  lemma NobodyLast(s: State, p: nat)
    requires Inv(s) && p < |s.procs| && !Waits(s.procs[p], s.episode) && !IsLast(s.procs[p])
    ensures forall q | 0 <= q < |s.procs| :: !IsLast(s.procs[q])
  {
    assert forall q | 0 <= q < |s.procs| && OthersWait(s, q) :: q == p;
  }

  // Replacing the record of one process that stays short of resetting.
  lemma OneMoves(s: State, p: nat, me: Proc, remaining: int)
    requires Inv(s) && p < |s.procs| && !Waits(s.procs[p], s.episode) && !IsLast(s.procs[p])
    requires ProcOk(me, s.episode) && !IsLast(me)
    requires remaining == s.remaining - (if Waits(me, s.episode) then 1 else 0) && remaining > 0
    ensures Inv(s.(remaining := remaining).With(p, me))
  {
    NobodyLast(s, p);
    WaitingUpdate(s.procs, s.episode, p, me);
  }

  lemma ArriveLast(s: State, p: nat)
    requires Inv(s) && p < |s.procs| && s.procs[p].pc == Flipped && s.remaining == 1
    ensures Inv(Step(s, p))
  {
    NobodyLast(s, p);
    LastArrives(s.procs, s.episode, p);
    assert OthersWait(Step(s, p), p);
  }

  lemma LastResets(s: State, p: nat)
    requires Inv(s) && p < |s.procs| && s.procs[p].pc == Resetting
    ensures Inv(Step(s, p))
  {
    assert OthersWait(s, p);
    assert OthersWait(Step(s, p), p);
  }

  lemma LastReleases(s: State, p: nat)
    requires Inv(s) && p < |s.procs| && s.procs[p].pc == Releasing
    ensures Inv(Step(s, p))
  {
    assert OthersWait(s, p);
    var s' := Step(s, p);
    forall q | 0 <= q < |s'.procs|
      ensures ProcOk(s'.procs[q], s'.episode) && !Waits(s'.procs[q], s'.episode) && !IsLast(s'.procs[q])
    {
      if q != p { assert Waits(s.procs[q], s.episode); }
    }
    WaitingAll(s'.procs, s'.episode);
  }

  lemma StepKeepsInv(s: State, p: nat)
    requires Inv(s) && p < |s.procs|
    ensures Inv(Step(s, p))
  {
    var me, s' := s.procs[p], Step(s, p);
    assert ProcOk(me, s.episode);
    hide Waiting;
    match me.pc
    case Out =>
      NobodyLast(s, p);
      OneMoves(s, p, s'.procs[p], s.remaining);
    case Flipped =>
      NobodyLast(s, p);
      if s.remaining == 1 {
        ArriveLast(s, p);
      } else {
        OneMoves(s, p, s'.procs[p], s.remaining - 1);
      }
    case Resetting =>
      LastResets(s, p);
    case Releasing =>
      LastReleases(s, p);
    case Spinning =>
      if s.sense == me.local {
        NobodyLast(s, p);
        OneMoves(s, p, s'.procs[p], s.remaining);
      }
  }

  lemma CreatedInv(s: State, n: nat)
    requires Created(s, n)
    ensures Inv(s)
  {
    WaitingAll(s.procs, 0);
  }

  lemma {:induction false} RunInv(run: seq<State>, n: nat, i: nat)
    requires IsRun(run, n) && i < |run|
    ensures Inv(run[i]) && |run[i].procs| == n
  {
    if i == 0 {
      CreatedInv(run[0], n);
    } else {
      RunInv(run, n, i - 1);
      assert IsStep(run[i - 1], run[i - 1 + 1]);
      var p: nat :| p < |run[i - 1].procs| && run[i] == Step(run[i - 1], p);
      StepKeepsInv(run[i - 1], p);
    }
  }

  // Main results, for every number of processes, every run and every moment `i` of it.

  // Nobody has returned from its k-th call before everybody has begun its k-th call.
  lemma NoEarlyReturn(run: seq<State>, n: nat, i: nat, p: nat, q: nat)
    requires IsRun(run, n) && i < |run| && p < n && q < n
    ensures |run[i].procs| == n && run[i].procs[p].Returned() <= run[i].procs[q].begun
  {
    RunInv(run, n, i);
    var s := run[i];
    assert ProcOk(s.procs[p], s.episode) && ProcOk(s.procs[q], s.episode);
  }

  lemma CounterInRange(run: seq<State>, n: nat, i: nat)
    requires IsRun(run, n) && i < |run|
    ensures 0 <= run[i].remaining <= n
  {
    RunInv(run, n, i);
  }

  // The shared sense changes only when every other process waits for that very change: nobody is
  // still inside an earlier episode's spin loop, nor outside.
  lemma SenseFlipsForAll(run: seq<State>, n: nat, i: nat, p: nat)
    requires IsRun(run, n) && i < |run| && p < n && |run[i].procs| == n
    requires Step(run[i], p).sense != run[i].sense
    ensures forall q | 0 <= q < n && q != p ::
      run[i].procs[q].pc == Spinning && run[i].procs[q].begun == run[i].procs[p].begun
      && run[i].procs[q].local != run[i].sense
  {
    RunInv(run, n, i);
    var s := run[i];
    assert OthersWait(s, p);
    forall q | 0 <= q < n && q != p
      ensures s.procs[q].pc == Spinning && s.procs[q].begun == s.procs[p].begun && s.procs[q].local != s.sense
    {
      assert Waits(s.procs[q], s.episode) && ProcOk(s.procs[q], s.episode) && ProcOk(s.procs[p], s.episode);
    }
  }

  // Never stuck. A step is idle if it only finds that the shared sense has not changed.

  predicate IsIdle(s: State, p: nat)
    requires p < |s.procs|
  {
    s.procs[p].pc == Spinning && s.procs[p].local != s.sense
  }

  // As long as somebody waits, somebody else has not arrived: it is still outside, or it is
  // inside and its next step is not idle.
  lemma SomebodyMoves(s: State, p: nat) returns (q: nat)
    requires Inv(s) && p < |s.procs| && IsIdle(s, p)
    ensures q < |s.procs| && !IsIdle(s, q)
    ensures s.procs[q].pc == Out ==> s.procs[q].begun == s.episode && s.procs[p].begun == s.episode + 1
  {
    assert ProcOk(s.procs[p], s.episode);
    WaitingAll(s.procs, s.episode);
    if r: nat :| r < |s.procs| && IsLast(s.procs[r]) {
      q := r;
    } else {
      q :| 0 <= q < |s.procs| && !Waits(s.procs[q], s.episode);
      assert ProcOk(s.procs[q], s.episode);
    }
  }

  lemma NeverAllSpinning(run: seq<State>, n: nat, i: nat)
    requires IsRun(run, n) && i < |run| && n > 0
    ensures |run[i].procs| == n && exists q | 0 <= q < n :: !IsIdle(run[i], q)
  {
    RunInv(run, n, i);
    if IsIdle(run[i], 0) { var q := SomebodyMoves(run[i], 0); }
  }

  // Everybody wants to make `k` calls. A step is busy if it is not idle and begins no further call.

  predicate IsBusy(s: State, p: nat, k: nat)
    requires p < |s.procs|
  {
    !IsIdle(s, p) && (s.procs[p].pc == Out ==> s.procs[p].begun < k)
  }

  ghost predicate Within(s: State, k: nat) { forall p | 0 <= p < |s.procs| :: s.procs[p].begun <= k }

  ghost predicate Completed(s: State, k: nat) {
    forall p | 0 <= p < |s.procs| :: s.procs[p].pc == Out && s.procs[p].begun == k
  }

  lemma BusyOrCompleted(s: State, k: nat)
    requires Inv(s) && Within(s, k)
    ensures Completed(s, k) || exists p | 0 <= p < |s.procs| :: IsBusy(s, p, k)
  {
    if p: nat :| p < |s.procs| && !(s.procs[p].pc == Out && s.procs[p].begun == k) && !IsBusy(s, p, k) {
      var q := SomebodyMoves(s, p);
      assert IsBusy(s, q, k);
    }
  }

  // Every busy step adds to the progress of its process.
  function Progress(me: Proc): int {
    4 * me.begun - match me.pc
      case Out => 0
      case Flipped => 3
      case Resetting => 2
      case Spinning => 2
      case Releasing => 1
  }

  function TotalProgress(procs: seq<Proc>): int {
    if procs == [] then 0 else TotalProgress(procs[..|procs| - 1]) + Progress(procs[|procs| - 1])
  }

  lemma {:induction false} TotalUpdate(procs: seq<Proc>, p: nat, me: Proc)
    requires p < |procs|
    ensures TotalProgress(procs[p := me]) == TotalProgress(procs) + Progress(me) - Progress(procs[p])
  {
    var k := |procs| - 1;
    if p < k {
      TotalUpdate(procs[..k], p, me);
      assert procs[p := me][..k] == procs[..k][p := me];
    } else {
      assert procs[p := me][..k] == procs[..k];
    }
  }

  lemma {:induction false} TotalBounds(procs: seq<Proc>, k: nat)
    requires forall p | 0 <= p < |procs| :: procs[p].begun <= k
    ensures TotalProgress(procs) <= 4 * (k * |procs|)
  {
    if procs != [] {
      TotalBounds(procs[..|procs| - 1], k);
      assert k * |procs| == k * (|procs| - 1) + k;
    }
  }

  lemma BusyAdds(s: State, p: nat, k: nat)
    requires p < |s.procs| && IsBusy(s, p, k)
    ensures TotalProgress(Step(s, p).procs) > TotalProgress(s.procs)
  {
    TotalUpdate(s.procs, p, Step(s, p).procs[p]);
  }

  ghost predicate IsBusyStep(s: State, s': State, k: nat) {
    exists p: nat | p < |s.procs| :: IsBusy(s, p, k) && s' == Step(s, p)
  }

  ghost predicate IsBusyRun(run: seq<State>, k: nat) {
    && |run| > 0 && Inv(run[0]) && Within(run[0], k)
    && forall i | 0 <= i < |run| - 1 :: IsBusyStep(run[i], run[i + 1], k)
  }

  lemma BusyKeepsWithin(s: State, p: nat, k: nat)
    requires Within(s, k) && p < |s.procs| && IsBusy(s, p, k)
    ensures Within(Step(s, p), k)
  {
  }

  lemma BusyStep(s: State, s': State, k: nat)
    requires Inv(s) && Within(s, k) && IsBusyStep(s, s', k)
    ensures Inv(s') && Within(s', k) && |s'.procs| == |s.procs|
    ensures TotalProgress(s'.procs) > TotalProgress(s.procs)
  {
    var p: nat :| p < |s.procs| && IsBusy(s, p, k) && s' == Step(s, p);
    hide Inv, Within, TotalProgress, Waiting;
    StepKeepsInv(s, p);
    BusyAdds(s, p, k);
    BusyKeepsWithin(s, p, k);
  }

  lemma {:induction false} BusyRunAt(run: seq<State>, k: nat, i: nat)
    requires IsBusyRun(run, k) && i < |run|
    ensures Inv(run[i]) && Within(run[i], k) && |run[i].procs| == |run[0].procs|
    ensures i <= TotalProgress(run[i].procs) - TotalProgress(run[0].procs)
  {
    if i > 0 {
      BusyRunAt(run, k, i - 1);
      assert IsBusyStep(run[i - 1], run[i - 1 + 1], k);
      BusyStep(run[i - 1], run[i], k);
    }
  }

  // However the busy steps are scheduled, a barrier that was just created makes at most 4 * n * k
  // of them, and when none is left every process has returned from its k-th call.
  lemma BusyRunsEnd(run: seq<State>, n: nat, k: nat)
    requires IsBusyRun(run, k) && Created(run[0], n)
    ensures |run| - 1 <= 4 * (k * n)
    ensures var last := run[|run| - 1];
            (forall p | 0 <= p < |last.procs| :: !IsBusy(last, p, k)) ==> Completed(last, k)
  {
    var last := run[|run| - 1];
    BusyRunAt(run, k, |run| - 1);
    TotalBounds(last.procs, k);
    NothingDone(run[0].procs);
    BusyOrCompleted(last, k);
  }

  lemma {:induction false} NothingDone(procs: seq<Proc>)
    requires forall p | 0 <= p < |procs| :: procs[p] == Proc(Out, false, 0)
    ensures TotalProgress(procs) == 0
  {
    if procs != [] { NothingDone(procs[..|procs| - 1]); }
  }
}
