// Timelines of running threads: the sweep over the block times of one kernel, and the merge of
// the timelines of all kernels.
module Timelines {
  import opened Wrappers

  // Block times alternate between start and end.
  datatype Kernel = Kernel(blockTimes: seq<real>, threadCount: nat)

  datatype Timeline = Timeline(times: seq<real>, values: seq<int>)

  // The number of times at or before `t`.
  function CountLe(times: seq<real>, t: real): nat {
    if times == [] then 0
    else CountLe(times[..|times| - 1], t) + if times[|times| - 1] <= t then 1 else 0
  }

  // The value of the last entry at or before `t`.
  function ValueAt(times: seq<real>, values: seq<int>, t: real): int
    requires |times| == |values|
  {
    if times == [] then 0
    else if times[|times| - 1] <= t then values[|values| - 1]
    else ValueAt(times[..|times| - 1], values[..|values| - 1], t)
  }

  predicate Ascending(s: seq<real>) { forall i, j | 0 <= i < j < |s| :: s[i] <= s[j] }

  predicate Descending(s: seq<real>) { forall i, j | 0 <= i < j < |s| :: s[i] >= s[j] }

  predicate IsTimeline(l: Timeline) { |l.times| == |l.values| && Ascending(l.times) }

  // Changes are abrupt: drawn with straight lines between its entries, starting from 0, the timeline is a step
  // function.
  predicate IsAbrupt(l: Timeline) {
    && |l.times| == |l.values| && (|l.values| > 0 ==> l.values[0] == 0)
    && forall i, j | 0 <= i && j == i + 1 < |l.times| && l.times[i] < l.times[j] :: l.values[i] == l.values[j]
  }

  // The blocks of a kernel that run at time `t`.
  function Running(blockTimes: seq<real>, t: real): nat {
    if |blockTimes| < 2 then 0
    else
      var runs := blockTimes[|blockTimes| - 2] <= t < blockTimes[|blockTimes| - 1];
      Running(blockTimes[..|blockTimes| - 2], t) + if runs then 1 else 0
  }

  predicate IsKernel(k: Kernel) {
    && |k.blockTimes| % 2 == 0
    && forall i | 0 <= i < |k.blockTimes| && i % 2 == 0 :: 0.0 <= k.blockTimes[i] <= k.blockTimes[i + 1]
  }

  // Counting.

  function Starts(b: seq<real>): seq<real> {
    if |b| < 2 then [] else Starts(b[..|b| - 2]) + [b[|b| - 2]]
  }

  function Ends(b: seq<real>): seq<real> {
    if |b| < 2 then [] else Ends(b[..|b| - 2]) + [b[|b| - 1]]
  }

  lemma CountLePush(s: seq<real>, x: real, t: real)
    ensures CountLe(s + [x], t) == CountLe(s, t) + if x <= t then 1 else 0
  {
    assert (s + [x])[..|s|] == s;
  }

  lemma WithoutLastBlock(k: Kernel)
    requires IsKernel(k) && |k.blockTimes| >= 2
    ensures var b := k.blockTimes;
            IsKernel(k.(blockTimes := b[..|b| - 2])) && 0.0 <= b[|b| - 2] <= b[|b| - 1]
  {
    var b := k.blockTimes;
    assert (|b| - 2) % 2 == 0 && b[|b| - 2] <= b[|b| - 2 + 1];
  }

  // As many blocks run at `t` as have started minus those that have ended; at no time have more
  // blocks ended than started.
  lemma {:induction false} RunningIsDifference(k: Kernel, t: real)
    requires IsKernel(k)
    ensures Running(k.blockTimes, t) == CountLe(Starts(k.blockTimes), t) - CountLe(Ends(k.blockTimes), t)
    decreases |k.blockTimes|
  {
    var b := k.blockTimes;
    if |b| >= 2 {
      var rest := k.(blockTimes := b[..|b| - 2]);
      WithoutLastBlock(k);
      hide IsKernel;
      RunningIsDifference(rest, t);
      CountLePush(Starts(rest.blockTimes), b[|b| - 2], t);
      CountLePush(Ends(rest.blockTimes), b[|b| - 1], t);
    }
  }

  // Sorting, as list.sort(reverse = True) does it. Two lists hold the same times if they have
  // the same number of times at or before every `t`.

  ghost predicate SameTimes(a: seq<real>, b: seq<real>) {
    |a| == |b| && forall t :: CountLe(a, t) == CountLe(b, t)
  }

  predicate AllGe(s: seq<real>, b: real) { forall i | 0 <= i < |s| :: s[i] >= b }

  function Insert(x: real, s: seq<real>): seq<real> {
    if s == [] || s[|s| - 1] >= x then s + [x] else Insert(x, s[..|s| - 1]) + [s[|s| - 1]]
  }

  lemma {:induction false} InsertCount(x: real, s: seq<real>, t: real)
    ensures |Insert(x, s)| == |s| + 1 && CountLe(Insert(x, s), t) == CountLe(s, t) + if x <= t then 1 else 0
    decreases |s|
  {
    if s == [] || s[|s| - 1] >= x {
      CountLePush(s, x, t);
    } else {
      InsertCount(x, s[..|s| - 1], t);
      CountLePush(Insert(x, s[..|s| - 1]), s[|s| - 1], t);
    }
  }

  lemma {:induction false} InsertGe(x: real, s: seq<real>, b: real)
    requires AllGe(s, b) && x >= b
    ensures AllGe(Insert(x, s), b)
    decreases |s|
  {
    if !(s == [] || s[|s| - 1] >= x) { InsertGe(x, s[..|s| - 1], b); }
  }

  lemma {:induction false} InsertDescends(x: real, s: seq<real>)
    requires Descending(s)
    ensures Descending(Insert(x, s))
    decreases |s|
  {
    if !(s == [] || s[|s| - 1] >= x) {
      InsertDescends(x, s[..|s| - 1]);
      InsertGe(x, s[..|s| - 1], s[|s| - 1]);
    }
  }

  function SortDescending(s: seq<real>): seq<real> {
    if s == [] then [] else Insert(s[|s| - 1], SortDescending(s[..|s| - 1]))
  }

  lemma {:induction false} SortSorts(s: seq<real>)
    ensures Descending(SortDescending(s)) && SameTimes(SortDescending(s), s)
  {
    if s != [] {
      SortSorts(s[..|s| - 1]);
      forall t
        ensures CountLe(SortDescending(s), t) == CountLe(s, t)
      {
        InsertCount(s[|s| - 1], SortDescending(s[..|s| - 1]), t);
      }
      InsertCount(s[|s| - 1], SortDescending(s[..|s| - 1]), 0.0);
      InsertDescends(s[|s| - 1], SortDescending(s[..|s| - 1]));
    }
  }

  // In a descending list the times at or before `t` are the last ones.

  lemma {:induction false} CountLeSplit(s: seq<real>, k: nat, t: real)
    requires Descending(s) && k <= |s|
    requires k > 0 ==> s[k - 1] > t
    requires k < |s| ==> s[k] <= t
    ensures CountLe(s, t) == |s| - k
  {
    if k < |s| {
      CountLeSplit(s[..|s| - 1], k, t);
    } else if s != [] {
      CountLeSplit(s[..|s| - 1], k - 1, t);
    }
  }

  lemma {:induction false} CountLeAtLeast(s: seq<real>, k: nat, t: real)
    requires Descending(s) && k < |s| && s[k] <= t
    ensures CountLe(s, t) >= |s| - k
  {
    if k < |s| - 1 { CountLeAtLeast(s[..|s| - 1], k, t); }
  }

  // The sweep.

  datatype Sweep = Sweep(k: Kernel, starts: seq<real>, ends: seq<real>) {
    function Value(t: real): int { k.threadCount * (CountLe(starts, t) - CountLe(ends, t)) }
  }

  ghost predicate IsSweep(w: Sweep) {
    && Descending(w.starts) && Descending(w.ends) && |w.starts| == |w.ends|
    && AllGe(w.starts, 0.0) && AllGe(w.ends, 0.0)
    && forall t :: CountLe(w.starts, t) >= CountLe(w.ends, t)
  }

  ghost predicate Before(w: Sweep, a: nat, b: nat, t: real)
    requires a <= |w.starts| && b <= |w.ends|
  {
    (a > 0 ==> t < w.starts[a - 1]) && (b > 0 ==> t < w.ends[b - 1])
  }

  // `a` starts and `b` ends are left; `now` is the time of the last event.
  ghost predicate Shape(w: Sweep, a: nat, b: nat, now: real, l: Timeline, count: int) {
    && IsSweep(w) && a <= b <= |w.ends|
    && (a > 0 ==> w.starts[a - 1] >= now) && (a < |w.starts| ==> w.starts[a] <= now)
    && (b > 0 ==> w.ends[b - 1] >= now) && (b < |w.ends| ==> w.ends[b] <= now)
    && count == w.k.threadCount * (b - a)
    && IsTimeline(l) && |l.times| > 0 && l.times[|l.times| - 1] <= now
    && (forall i | 0 <= i < |l.values| :: l.values[i] >= 0)
  }

  ghost predicate Swept(w: Sweep, a: nat, b: nat, now: real, l: Timeline, count: int) {
    && Shape(w, a, b, now, l, count)
    && (forall t | Before(w, a, b, t) :: ValueAt(l.times, l.values, t) == w.Value(t))
  }

  function Push(l: Timeline, t: real, v: int): Timeline { Timeline(l.times + [t], l.values + [v]) }

  lemma AbruptPush(l: Timeline, t: real, before: int, now: int)
    requires IsAbrupt(l) && |l.values| > 0 && l.values[|l.values| - 1] == before
    ensures IsAbrupt(Push(Push(l, t, before), t, now))
    ensures |l.times| == |l.values|
  {
  }

  lemma AbruptStart()
    ensures IsAbrupt(Timeline([0.0], [0])) && IsAbrupt(Timeline([], []))
  {
  }

  lemma ValueAtPush(l: Timeline, now: real, v: int, t: real)
    requires IsTimeline(l)
    ensures ValueAt(Push(l, now, v).times, Push(l, now, v).values, t)
      == if now <= t then v else ValueAt(l.times, l.values, t)
  {
    assert Push(l, now, v).times[..|l.times|] == l.times && Push(l, now, v).values[..|l.values|] == l.values;
  }

  // Past the last event nothing changes until the next one.
  lemma Plateau(w: Sweep, a: nat, b: nat, now: real, t: real)
    requires IsSweep(w) && a <= |w.starts| && b <= |w.ends| && Before(w, a, b, t) && now <= t
    requires (a < |w.starts| ==> w.starts[a] <= now) && (b < |w.ends| ==> w.ends[b] <= now)
    ensures w.Value(t) == w.k.threadCount * (b - a)
  {
    CountLeSplit(w.starts, a, t);
    CountLeSplit(w.ends, b, t);
  }

  // An end is never taken before the start that goes with it.
  lemma EndHasStart(w: Sweep, a: nat, b: nat, now: real)
    requires IsSweep(w) && a <= |w.starts| && 0 < b <= |w.ends| && w.ends[b - 1] >= now
    requires (a < |w.starts| ==> w.starts[a] <= now) && (a > 0 ==> w.starts[a - 1] > w.ends[b - 1])
    ensures a < b
  {
    var e := w.ends[b - 1];
    CountLeSplit(w.starts, a, e);
    CountLeAtLeast(w.ends, b - 1, e);
  }

  // `t` is the time of the earliest start or end that is left, taken off one list or both.
  ghost predicate Takes(w: Sweep, a: nat, b: nat, a': nat, b': nat, t: real)
    requires a <= |w.starts| && b <= |w.ends|
  {
    || (a > 0 && a' == a - 1 && b' == b && t == w.starts[a - 1] && (b > 0 ==> t <= w.ends[b - 1]))
    || (b > 0 && a' == a && b' == b - 1 && t == w.ends[b - 1] && (a > 0 ==> t < w.starts[a - 1]))
    || (a > 0 && b > 0 && a' == a - 1 && b' == b - 1 && t == w.starts[a - 1] == w.ends[b - 1])
  }

  lemma SweepValue(w: Sweep, a: nat, b: nat, now: real, l: Timeline, count: int, a': nat, b': nat, t: real, u: real)
    requires Swept(w, a, b, now, l, count) && Takes(w, a, b, a', b', t) && Before(w, a', b', u)
    ensures var count' := w.k.threadCount * (b' - a');
            var l' := Push(Push(l, t, count), t, count');
            ValueAt(l'.times, l'.values, u) == w.Value(u)
  {
    var count' := w.k.threadCount * (b' - a');
    assert IsTimeline(Push(l, t, count));
    ValueAtPush(l, t, count, u);
    ValueAtPush(Push(l, t, count), t, count', u);
    hide ValueAt, CountLe;
    if t <= u {
      Plateau(w, a', b', t, u);
    } else {
      assert Before(w, a, b, u);
    }
  }

  lemma Product(x: nat, y: int)
    requires y >= 0
    ensures x * y >= 0
  {
  }

  lemma PushShape(l: Timeline, t: real, v: int)
    requires IsTimeline(l) && (l.times == [] || l.times[|l.times| - 1] <= t) && v >= 0
    requires forall i | 0 <= i < |l.values| :: l.values[i] >= 0
    ensures var l' := Push(l, t, v);
            IsTimeline(l') && (forall i | 0 <= i < |l'.values| :: l'.values[i] >= 0) && l'.times[|l.times|] == t
            && |l'.times| == |l.times| + 1
  {
  }

  lemma ShapeStep(w: Sweep, a: nat, b: nat, now: real, l: Timeline, count: int, a': nat, b': nat, t: real)
    requires Shape(w, a, b, now, l, count) && Takes(w, a, b, a', b', t)
    ensures var count' := w.k.threadCount * (b' - a');
            Shape(w, a', b', t, Push(Push(l, t, count), t, count'), count')
  {
    var count' := w.k.threadCount * (b' - a');
    if a' == a && b' == b - 1 { EndHasStart(w, a, b, now); }
    Product(w.k.threadCount, b - a);
    Product(w.k.threadCount, b' - a');
    hide CountLe, IsSweep;
    PushShape(l, t, count);
    PushShape(Push(l, t, count), t, count');
    hide Push, IsTimeline;
  }

  lemma SweepStep(w: Sweep, a: nat, b: nat, now: real, l: Timeline, count: int, a': nat, b': nat, t: real)
    requires Swept(w, a, b, now, l, count) && Takes(w, a, b, a', b', t)
    ensures var count' := w.k.threadCount * (b' - a');
            Swept(w, a', b', t, Push(Push(l, t, count), t, count'), count')
  {
    var count' := w.k.threadCount * (b' - a');
    ShapeStep(w, a, b, now, l, count, a', b', t);
    var l' := Push(Push(l, t, count), t, count');
    hide Push, Shape, ValueAt, CountLe, Sweep.Value;
    forall u | Before(w, a', b', u)
      ensures ValueAt(l'.times, l'.values, u) == w.Value(u)
    {
      SweepValue(w, a, b, now, l, count, a', b', t, u);
    }
  }

  lemma {:induction false} SplitTimes(b: seq<real>)
    requires |b| % 2 == 0
    ensures |Starts(b)| == |Ends(b)|
    ensures (forall i | 0 <= i < |b| :: b[i] >= 0.0) ==> AllGe(Starts(b), 0.0) && AllGe(Ends(b), 0.0)
    decreases |b|
  {
    if |b| >= 2 { SplitTimes(b[..|b| - 2]); }
  }

  lemma {:induction false} SortGe(s: seq<real>, b: real)
    requires AllGe(s, b)
    ensures AllGe(SortDescending(s), b)
  {
    if s != [] {
      SortGe(s[..|s| - 1], b);
      InsertGe(s[|s| - 1], SortDescending(s[..|s| - 1]), b);
    }
  }

  lemma KernelTimesGe(k: Kernel, i: nat)
    requires IsKernel(k) && i < |k.blockTimes|
    ensures k.blockTimes[i] >= 0.0
  {
    assert 0.0 <= k.blockTimes[i / 2 * 2] <= k.blockTimes[i / 2 * 2 + 1];
  }

  function SweepOf(k: Kernel): Sweep {
    Sweep(k, SortDescending(Starts(k.blockTimes)), SortDescending(Ends(k.blockTimes)))
  }

  lemma SweepCounts(k: Kernel, t: real)
    requires IsKernel(k)
    ensures CountLe(SweepOf(k).starts, t) - CountLe(SweepOf(k).ends, t) == Running(k.blockTimes, t)
  {
    SortSorts(Starts(k.blockTimes));
    SortSorts(Ends(k.blockTimes));
    RunningIsDifference(k, t);
  }

  lemma SweepIs(k: Kernel)
    requires IsKernel(k)
    ensures IsSweep(SweepOf(k))
  {
    var b := k.blockTimes;
    SortSorts(Starts(b));
    SortSorts(Ends(b));
    forall i | 0 <= i < |b| ensures b[i] >= 0.0 { KernelTimesGe(k, i); }
    SplitTimes(b);
    SortGe(Starts(b), 0.0);
    SortGe(Ends(b), 0.0);
    hide Starts, Ends, SortDescending, CountLe;
    forall t
      ensures CountLe(SweepOf(k).starts, t) >= CountLe(SweepOf(k).ends, t)
    {
      SweepCounts(k, t);
    }
  }

  lemma SweepStart(k: Kernel)
    requires IsKernel(k)
    ensures var w := SweepOf(k);
            && Swept(w, |w.starts|, |w.ends|, 0.0, Timeline([0.0], [0]), 0)
            && forall t :: w.Value(t) == k.threadCount * Running(k.blockTimes, t)
  {
    var w := SweepOf(k);
    SweepIs(k);
    StartShape(w);
    hide Starts, Ends, SortDescending, CountLe, Running, ValueAt, Shape;
    forall t
      ensures w.Value(t) == k.threadCount * Running(k.blockTimes, t)
    {
      SweepCounts(k, t);
    }
    forall t | Before(w, |w.starts|, |w.ends|, t)
      ensures ValueAt([0.0], [0], t) == w.Value(t)
    {
      StartValue(w, t);
    }
  }

  lemma StartShape(w: Sweep)
    requires IsSweep(w)
    ensures Shape(w, |w.starts|, |w.ends|, 0.0, Timeline([0.0], [0]), 0)
  {
  }

  lemma StartValue(w: Sweep, t: real)
    requires Descending(w.starts) && Descending(w.ends) && Before(w, |w.starts|, |w.ends|, t)
    ensures ValueAt([0.0], [0], t) == w.Value(t) == 0
  {
    CountLeSplit(w.starts, |w.starts|, t);
    CountLeSplit(w.ends, |w.ends|, t);
    assert [0.0][..0] == [] && [0][..0] == [];
  }

  lemma SweptCounts(w: Sweep, a: nat, b: nat, now: real, l: Timeline, count: int)
    requires Swept(w, a, b, now, l, count)
    ensures a <= b && count == w.k.threadCount * (b - a)
    ensures w.k.threadCount * (b - (a - 1)) == count + w.k.threadCount
    ensures w.k.threadCount * (b - 1 - a) == count - w.k.threadCount
    ensures w.k.threadCount * ((b - 1) - (a - 1)) == count
  {
  }

  lemma SweptEnd(w: Sweep, now: real, l: Timeline, count: int)
    requires Swept(w, 0, 0, now, l, count)
    ensures IsTimeline(l) && (forall i | 0 <= i < |l.values| :: l.values[i] >= 0)
    ensures forall t :: ValueAt(l.times, l.values, t) == w.Value(t)
  {
    hide ValueAt, Sweep.Value;
    forall t
      ensures ValueAt(l.times, l.values, t) == w.Value(t)
    {
      assert Before(w, 0, 0, t);
    }
  }

  method SplitBlockTimes(b: seq<real>) returns (startTimes: seq<real>, endTimes: seq<real>)
    ensures |b| % 2 == 0 ==> startTimes == Starts(b) && endTimes == Ends(b)
  {
    startTimes, endTimes := [], [];
    var i := 0;
    while i < |b|
      invariant 0 <= i <= |b|
      invariant i % 2 == 0 ==> startTimes == Starts(b[..i]) && endTimes == Ends(b[..i])
      invariant i % 2 == 1 ==> startTimes == Starts(b[..i - 1]) + [b[i - 1]] && endTimes == Ends(b[..i - 1])
    {
      if i % 2 == 0 {
        startTimes := startTimes + [b[i]];
      } else {
        endTimes := endTimes + [b[i]];
        assert b[..i + 1][..i - 1] == b[..i - 1];
      }
      i := i + 1;
    }
    assert b[..i] == b;
  }

  // The result is None if the program exits with an error.
  method GetKernelTimeline(k: Kernel) returns (r: Option<Timeline>)
    ensures r.Some? ==> IsAbrupt(r.value)
    // the error branch is unreachable for real block times, and the timeline says how many
    // threads run at any time
    ensures IsKernel(k) ==>
      && r.Some? && IsTimeline(r.value) && (forall i | 0 <= i < |r.value.values| :: r.value.values[i] >= 0)
      && forall t :: ValueAt(r.value.times, r.value.values, t) == k.threadCount * Running(k.blockTimes, t)
  {
    var startTimes, endTimes := SplitBlockTimes(k.blockTimes);
    hide Starts, Ends, SortDescending, ValueAt, Running, Swept, Sweep.Value, Ascending;
    if IsKernel(k) { SweepStart(k); }
    r := SweepTimes(k, SortDescending(startTimes), SortDescending(endTimes));
  }

  method SweepTimes(k: Kernel, startTimes_: seq<real>, endTimes_: seq<real>) returns (r: Option<Timeline>)
    ensures r.Some? ==> IsAbrupt(r.value)
    ensures var w := Sweep(k, startTimes_, endTimes_);
      Swept(w, |w.starts|, |w.ends|, 0.0, Timeline([0.0], [0]), 0) ==>
      && r.Some? && IsTimeline(r.value) && (forall i | 0 <= i < |r.value.values| :: r.value.values[i] >= 0)
      && forall t :: ValueAt(r.value.times, r.value.values, t) == w.Value(t)
  {
    var startTimes, endTimes := startTimes_, endTimes_;
    ghost var w := Sweep(k, startTimes, endTimes);
    ghost var isReal := Swept(w, |w.starts|, |w.ends|, 0.0, Timeline([0.0], [0]), 0);
    ghost var now := 0.0;
    var l := Timeline([0.0], [0]);
    var current := 0;
    hide Swept, IsAbrupt, ValueAt, Sweep.Value, Ascending;
    AbruptStart();
    while |startTimes| != 0 || |endTimes| != 0
      invariant startTimes <= w.starts && endTimes <= w.ends
      invariant IsAbrupt(l) && |l.values| > 0 && l.values[|l.values| - 1] == current
      invariant isReal ==> Swept(w, |startTimes|, |endTimes|, now, l, current)
      decreases |startTimes| + |endTimes|
    {
      ghost var a, b, before := |startTimes|, |endTimes|, l;
      if isReal { SweptCounts(w, a, b, now, l, current); }
      if |endTimes| == 0 {
        return None;
      }
      var currentTime := endTimes[|endTimes| - 1];
      var previous := current;
      if |startTimes| != 0 && startTimes[|startTimes| - 1] == currentTime {
        startTimes, endTimes := startTimes[..|startTimes| - 1], endTimes[..|endTimes| - 1];
      } else if |startTimes| != 0 && startTimes[|startTimes| - 1] <= currentTime {
        currentTime := startTimes[|startTimes| - 1];
        startTimes := startTimes[..|startTimes| - 1];
        current := current + k.threadCount;
      } else {
        endTimes := endTimes[..|endTimes| - 1];
        current := current - k.threadCount;
      }
      AbruptPush(l, currentTime, previous, current);
      hide Push;
      l := Push(Push(l, currentTime, previous), currentTime, current);
      if isReal { SweepStep(w, a, b, now, before, previous, |startTimes|, |endTimes|, currentTime); }
      now := currentTime;
    }
    if isReal { SweptEnd(w, now, l, current); }
    return Some(l);
  }

  // Merging.

  function Reverse<T>(s: seq<T>): seq<T> { if s == [] then [] else Reverse(s[1..]) + [s[0]] }

  lemma {:induction false} ValueAtIndex(l: Timeline, i: nat, t: real)
    requires IsTimeline(l) && i <= |l.times|
    requires (i > 0 ==> l.times[i - 1] <= t) && (i < |l.times| ==> t < l.times[i])
    ensures ValueAt(l.times, l.values, t) == if i == 0 then 0 else l.values[i - 1]
    decreases |l.times|
  {
    var n := |l.times|;
    if i < n { ValueAtIndex(Timeline(l.times[..n - 1], l.values[..n - 1]), i, t); }
  }

  predicate NonNegative(l: Timeline) { forall i | 0 <= i < |l.values| :: l.values[i] >= 0 }

  ghost predicate BeforeNext(a: Timeline, b: Timeline, i: nat, j: nat, t: real)
    requires i <= |a.times| && j <= |b.times|
  {
    (i < |a.times| ==> t < a.times[i]) && (j < |b.times| ==> t < b.times[j])
  }

  function Last(l: Timeline, i: nat): int
    requires i <= |l.values|
  {
    if i == 0 then 0 else l.values[i - 1]
  }

  // The first `i` entries of `a` and `j` entries of `b` have been merged into `l`.
  ghost predicate Merged(a: Timeline, b: Timeline, i: nat, j: nat, l: Timeline) {
    && IsTimeline(a) && IsTimeline(b) && IsTimeline(l) && i <= |a.times| && j <= |b.times|
    && (|l.times| == 0 ==> i == j == 0)
    && (|l.times| > 0 ==>
         var now := l.times[|l.times| - 1];
         && (i > 0 ==> a.times[i - 1] <= now) && (j > 0 ==> b.times[j - 1] <= now)
         && (i < |a.times| ==> now <= a.times[i]) && (j < |b.times| ==> now <= b.times[j]))
    && (NonNegative(a) && NonNegative(b) ==> NonNegative(l))
    && (forall t | BeforeNext(a, b, i, j, t) ::
          ValueAt(l.times, l.values, t) == ValueAt(a.times, a.values, t) + ValueAt(b.times, b.values, t))
  }

  // `t` is the earlier of the two next times; the entries at `t` are taken.
  ghost predicate Merges(a: Timeline, b: Timeline, i: nat, j: nat, i': nat, j': nat, t: real)
    requires i <= |a.times| && j <= |b.times|
  {
    && (i' == if i < |a.times| && a.times[i] == t then i + 1 else i)
    && (j' == if j < |b.times| && b.times[j] == t then j + 1 else j)
    && (i < |a.times| ==> t <= a.times[i]) && (j < |b.times| ==> t <= b.times[j])
    && i + j < i' + j'
  }

  lemma MergeValue(a: Timeline, b: Timeline, i: nat, j: nat, l: Timeline, i': nat, j': nat, t: real, u: real)
    requires Merged(a, b, i, j, l) && Merges(a, b, i, j, i', j', t)
    requires i' <= |a.times| && j' <= |b.times| && BeforeNext(a, b, i', j', u)
    ensures var l' := Push(l, t, Last(a, i') + Last(b, j'));
            ValueAt(l'.times, l'.values, u) == ValueAt(a.times, a.values, u) + ValueAt(b.times, b.values, u)
  {
    ValueAtPush(l, t, Last(a, i') + Last(b, j'), u);
    hide ValueAt;
    if t <= u {
      ValueAtIndex(a, i', u);
      ValueAtIndex(b, j', u);
    } else {
      assert BeforeNext(a, b, i, j, u);
    }
  }

  lemma MergeStep(a: Timeline, b: Timeline, i: nat, j: nat, l: Timeline, i': nat, j': nat, t: real)
    requires Merged(a, b, i, j, l) && Merges(a, b, i, j, i', j', t)
    ensures i' <= |a.times| && j' <= |b.times| && Merged(a, b, i', j', Push(l, t, Last(a, i') + Last(b, j')))
  {
    var l' := Push(l, t, Last(a, i') + Last(b, j'));
    hide ValueAt;
    forall u | BeforeNext(a, b, i', j', u)
      ensures ValueAt(l'.times, l'.values, u) == ValueAt(a.times, a.values, u) + ValueAt(b.times, b.values, u)
    {
      MergeValue(a, b, i, j, l, i', j', t, u);
    }
  }

  // Abrupt changes stay abrupt, as long as the last entry is the sum of the last values taken.
  ghost predicate MergedAbruptly(a: Timeline, b: Timeline, i: nat, j: nat, l: Timeline) {
    && Merged(a, b, i, j, l) && |a.values| == |a.times| && |b.values| == |b.times|
    && (IsAbrupt(a) && IsAbrupt(b) ==>
          IsAbrupt(l) && (|l.values| > 0 ==> l.values[|l.values| - 1] == Last(a, i) + Last(b, j)))
  }

  lemma NextIsLevel(a: Timeline, i: nat, i': nat, now: real, t: real)
    requires IsAbrupt(a) && i <= |a.times| && now < t && (i > 0 ==> a.times[i - 1] <= now)
    requires i' == if i < |a.times| && a.times[i] == t then i + 1 else i
    ensures Last(a, i') == Last(a, i)
  {
  }

  lemma MergeAbruptly(a: Timeline, b: Timeline, i: nat, j: nat, l: Timeline, i': nat, j': nat, t: real)
    requires MergedAbruptly(a, b, i, j, l) && Merges(a, b, i, j, i', j', t)
    ensures i' <= |a.times| && j' <= |b.times| && MergedAbruptly(a, b, i', j', Push(l, t, Last(a, i') + Last(b, j')))
  {
    MergeStep(a, b, i, j, l, i', j', t);
    if IsAbrupt(a) && IsAbrupt(b) {
      var n := |l.times|;
      if n > 0 && l.times[n - 1] < t {
        NextIsLevel(a, i, i', l.times[n - 1], t);
        NextIsLevel(b, j, j', l.times[n - 1], t);
      }
      hide ValueAt;
    }
  }

  lemma MergeStart(a: Timeline, b: Timeline)
    requires IsTimeline(a) && IsTimeline(b)
    ensures MergedAbruptly(a, b, 0, 0, Timeline([], []))
  {
    forall t | BeforeNext(a, b, 0, 0, t)
      ensures ValueAt(a.times, a.values, t) == ValueAt(b.times, b.values, t) == 0
    {
      ValueAtIndex(a, 0, t);
      ValueAtIndex(b, 0, t);
    }
  }

  ghost predicate IsSum(a: Timeline, b: Timeline, l: Timeline)
    requires |a.times| == |a.values| && |b.times| == |b.values|
  {
    && IsTimeline(l) && (NonNegative(a) && NonNegative(b) ==> NonNegative(l))
    && (IsAbrupt(a) && IsAbrupt(b) ==> IsAbrupt(l))
    && forall t :: ValueAt(l.times, l.values, t) == ValueAt(a.times, a.values, t) + ValueAt(b.times, b.values, t)
  }

  lemma MergeEnd(a: Timeline, b: Timeline, l: Timeline)
    requires MergedAbruptly(a, b, |a.times|, |b.times|, l)
    ensures IsSum(a, b, l)
  {
    hide ValueAt;
    forall t
      ensures ValueAt(l.times, l.values, t) == ValueAt(a.times, a.values, t) + ValueAt(b.times, b.values, t)
    {
      assert BeforeNext(a, b, |a.times|, |b.times|, t);
    }
  }

  // What is left of a list that is popped from its reversed copy.
  ghost predicate IsRest<T>(rest: seq<T>, all: seq<T>) {
    |rest| <= |all| && forall i | 0 <= i < |rest| :: rest[i] == all[|all| - 1 - i]
  }

  lemma {:induction false} ReversedIsRest<T>(s: seq<T>)
    ensures |Reverse(s)| == |s| && IsRest(Reverse(s), s)
  {
    if s != [] { ReversedIsRest(s[1..]); }
  }

  // A reversed timeline without its first `i` entries, the value of the last of which is `current`.
  ghost predicate IsLeft(times: seq<real>, values: seq<int>, current: int, l: Timeline, i: nat) {
    && |l.times| == |l.values| && i + |times| == |l.times| && |values| == |times|
    && IsRest(times, l.times) && IsRest(values, l.values) && current == Last(l, i)
  }

  // Takes the entry at time `t` off a reversed timeline, if it is the next one.
  method PopAt(times: seq<real>, values: seq<int>, current: int, t: real, ghost l: Timeline, ghost i: nat)
    returns (times': seq<real>, values': seq<int>, current': int, ghost i': nat)
    requires IsLeft(times, values, current, l, i)
    ensures i' == if i < |l.times| && l.times[i] == t then i + 1 else i
    ensures IsLeft(times', values', current', l, i') && |times'| - |times| == i - i' && |values'| == |times'|
  {
    if |times| != 0 && times[|times| - 1] == t {
      return times[..|times| - 1], values[..|values| - 1], values[|values| - 1], i + 1;
    }
    return times, values, current, i;
  }

  lemma NextIs(timesA: seq<real>, timesB: seq<real>, a: Timeline, b: Timeline, i: nat, j: nat)
    requires IsRest(timesA, a.times) && IsRest(timesB, b.times) && |timesA| + |timesB| > 0
    requires i + |timesA| == |a.times| && j + |timesB| == |b.times|
    ensures var t := NextTime(timesA, timesB);
            && (i < |a.times| ==> t <= a.times[i]) && (j < |b.times| ==> t <= b.times[j])
            && ((i < |a.times| && t == a.times[i]) || (j < |b.times| && t == b.times[j]))
  {
  }

  lemma StartLeft(l: Timeline)
    requires |l.times| == |l.values|
    ensures |Reverse(l.times)| == |l.times| && IsLeft(Reverse(l.times), Reverse(l.values), 0, l, 0)
  {
    ReversedIsRest(l.times);
    ReversedIsRest(l.values);
  }

  // One round of the merge.
  method MergeRound(timesA: seq<real>, valuesA: seq<int>, currentA: int, ghost a: Timeline, ghost i: nat,
                    timesB: seq<real>, valuesB: seq<int>, currentB: int, ghost b: Timeline, ghost j: nat,
                    l: Timeline, ghost sorted: bool)
    returns (timesA': seq<real>, valuesA': seq<int>, currentA': int, ghost i': nat,
             timesB': seq<real>, valuesB': seq<int>, currentB': int, ghost j': nat, l': Timeline)
    requires IsLeft(timesA, valuesA, currentA, a, i) && IsLeft(timesB, valuesB, currentB, b, j)
    requires |timesA| + |timesB| > 0 && |l.times| == |l.values| && (sorted ==> MergedAbruptly(a, b, i, j, l))
    ensures IsLeft(timesA', valuesA', currentA', a, i') && IsLeft(timesB', valuesB', currentB', b, j')
    ensures |timesA'| + |timesB'| < |timesA| + |timesB| && |l'.times| == |l'.values|
    ensures sorted ==> MergedAbruptly(a, b, i', j', l')
  {
    var t := NextTime(timesA, timesB);
    NextIs(timesA, timesB, a, b, i, j);
    timesA', valuesA', currentA', i' := PopAt(timesA, valuesA, currentA, t, a, i);
    timesB', valuesB', currentB', j' := PopAt(timesB, valuesB, currentB, t, b, j);
    l' := Push(l, t, currentA' + currentB');
    hide MergedAbruptly, IsRest, Last;
    if sorted { MergeAbruptly(a, b, i, j, l, i', j', t); }
  }

  method MergeTimelines(a: Timeline, b: Timeline) returns (l: Timeline)
    requires |a.times| == |a.values| && |b.times| == |b.values|
    ensures |l.times| == |l.values|
    ensures IsTimeline(a) && IsTimeline(b) ==> IsSum(a, b, l)
  {
    var timesA, valuesA, timesB, valuesB := Reverse(a.times), Reverse(a.values), Reverse(b.times), Reverse(b.values);
    var currentA, currentB := 0, 0;
    l := Timeline([], []);
    ghost var sorted := IsTimeline(a) && IsTimeline(b);
    ghost var i: nat, j: nat := 0, 0;
    StartLeft(a);
    StartLeft(b);
    if sorted { MergeStart(a, b); }
    hide MergedAbruptly, IsSum, IsTimeline, IsRest, Last;
    while |timesA| > 0 || |timesB| > 0
      invariant IsLeft(timesA, valuesA, currentA, a, i) && IsLeft(timesB, valuesB, currentB, b, j)
      invariant |l.times| == |l.values| && (sorted ==> MergedAbruptly(a, b, i, j, l))
      decreases |timesA| + |timesB|
    {
      timesA, valuesA, currentA, i, timesB, valuesB, currentB, j, l :=
        MergeRound(timesA, valuesA, currentA, a, i, timesB, valuesB, currentB, b, j, l, sorted);
    }
    if sorted { MergeEnd(a, b, l); }
  }

  function NextTime(timesA: seq<real>, timesB: seq<real>): real
    requires |timesA| > 0 || |timesB| > 0
  {
    if |timesA| == 0 then timesB[|timesB| - 1]
    else if |timesB| == 0 then timesA[|timesA| - 1]
    else if timesA[|timesA| - 1] <= timesB[|timesB| - 1] then timesA[|timesA| - 1]
    else timesB[|timesB| - 1]
  }

  // All kernels of a benchmark.

  datatype Record = CpuTimes | KernelTimes(k: Kernel)

  // The threads that run at time `t`, over all kernels.
  function Threads(records: seq<Record>, t: real): int {
    if records == [] then 0
    else
      var r := records[|records| - 1];
      Threads(records[..|records| - 1], t) + if r.CpuTimes? then 0 else r.k.threadCount * Running(r.k.blockTimes, t)
  }

  // The timeline of a benchmark's records, the first of which is an empty object.
  method GetThreadTimeline(records: seq<Record>) returns (r: Option<Timeline>)
    ensures (forall i | 0 < i < |records| && records[i].KernelTimes? :: IsKernel(records[i].k)) ==>
      && r.Some? && IsTimeline(r.value) && NonNegative(r.value) && IsAbrupt(r.value)
      && forall t :: ValueAt(r.value.times, r.value.values, t) == Threads(if records == [] then [] else records[1..], t)
  {
    var kernels := if records == [] then [] else records[1..];
    ghost var good := forall i | 0 < i < |records| && records[i].KernelTimes? :: IsKernel(records[i].k);
    var l := Timeline([], []);
    var i := 0;
    while i < |kernels|
      invariant 0 <= i <= |kernels| && |l.times| == |l.values|
      invariant good ==> IsTimeline(l) && NonNegative(l) && IsAbrupt(l)
      invariant good ==> forall t :: ValueAt(l.times, l.values, t) == Threads(kernels[..i], t)
    {
      assert kernels[..i + 1][..i] == kernels[..i];
      assert kernels[i] == records[i + 1];
      hide ValueAt, Running, IsKernel;
      if kernels[i].KernelTimes? {
        var k := GetKernelTimeline(kernels[i].k);
        if k.None? {
          return None;
        }
        l := MergeTimelines(l, k.value);
      }
      i := i + 1;
    }
    assert kernels[..i] == kernels;
    return Some(l);
  }
}
