// Which TPCs a kernel launch may use: the next, stream, global and supreme masks of a process,
// and the callback that writes them into a launch's task metadata (TMD). A mask is the set of
// the positions of its set bits, and a set bit disables a TPC.
module LaunchMasks {
  import opened Wrappers
  import opened TpcLists

  type Mask64 = m: Mask | forall b | b in m :: b < 64
  type Mask128 = m: Mask | forall b | b in m :: b < 128

  // Bits `from` to `below` - 1.
  function Part(m: Mask, from: nat, below: nat): Mask { set b | b in m && from <= b < below }

  function Low(m: Mask128): Mask64 { Part(m, 0, 64) }

  function Ones(from: nat, below: nat): (r: Mask)
    requires from <= below
    ensures forall b: nat :: b in r <==> from <= b < below
    decreases below - from
  {
    if from == below then {} else {from} + Ones(from + 1, below)
  }

  lemma Halves(m: Mask)
    ensures Part(m, 0, 32) + Part(m, 32, 64) == Part(m, 0, 64)
    ensures (forall b | b in m :: b < 64) ==> Part(m, 0, 64) == m
  {
  }

  lemma Regroup(lower: Mask, upper: Mask, m: Mask128)
    ensures (lower + Part(m, 0, 32)) + (upper + Part(m, 32, 64)) == (lower + upper) + Low(m)
  {
    Halves(m);
  }

  lemma OnesAbsorb(m: Mask, from: nat, below: nat)
    requires from <= below
    ensures Ones(from, below) + Part(m, from, below) == Ones(from, below)
  {
  }

  lemma FromAbove64(m: Mask)
    ensures Ones(64, 96) + Ones(96, 128) == Ones(64, 128)
    ensures (forall b | b in m :: b < 64) ==> forall b | b in m + Ones(64, 128) :: b < 128
  {
  }

  lemma WideStream(m: Mask64)
    ensures Part(Ones(64, 128) + m, 0, 64) == m && Part(Ones(64, 128) + m, 64, 128) == Ones(64, 128)
  {
  }

  // The calls made in one process, and writes of the supreme mask by nvtaskset, oldest first.
  datatype Event =
    | SetGlobal(mask: Mask64)
    | SetNext(thread: nat, mask: Mask64)
    | SetStream(stream: nat, wide: Mask128)
    | SetSupreme(wide: Mask128)
    | Launch(thread: nat, stream: nat, disabled: Mask128)

  type History = seq<Event>

  // Masks in force after a history, each read off the last relevant event.

  function GlobalOf(h: History): Mask64 {
    if h == [] then {}
    else match h[|h| - 1]
      case SetGlobal(m) => m
      case _ => GlobalOf(h[..|h| - 1])
  }

  // A next mask is spent by the first launch of its thread.
  function NextOf(h: History, thread: nat): Mask64 {
    if h == [] then {}
    else match h[|h| - 1]
      case SetNext(t, m) => if t == thread then m else NextOf(h[..|h| - 1], thread)
      case Launch(t, _, _) => if t == thread then {} else NextOf(h[..|h| - 1], thread)
      case _ => NextOf(h[..|h| - 1], thread)
  }

  function StreamOf(h: History, stream: nat): Mask128 {
    if h == [] then {}
    else match h[|h| - 1]
      case SetStream(s, m) => if s == stream then m else StreamOf(h[..|h| - 1], stream)
      case _ => StreamOf(h[..|h| - 1], stream)
  }

  function SupremeOf(h: History): Option<Mask128> {
    if h == [] then None
    else match h[|h| - 1]
      case SetSupreme(m) => Some(m)
      case _ => SupremeOf(h[..|h| - 1])
  }

  // Next before stream before global, and supreme on top.
  function Combine(next: Mask64, stream: Mask64, global: Mask64, supreme: Option<Mask128>): Mask64 {
    var chosen := if next != {} then next else if stream != {} then stream else global;
    match supreme
    case None => chosen
    case Some(m) => chosen + Low(m)
  }

  // The mask that a launch has to get: the TPCs from 64 on are always disabled.
  function Due(h: History, thread: nat, stream: nat): Mask128 {
    Combine(NextOf(h, thread), Low(StreamOf(h, stream)), GlobalOf(h), SupremeOf(h)) + Ones(64, 128)
  }

  ghost predicate IsDue(h: History) {
    forall i | 0 <= i < |h| && h[i].Launch? :: h[i].disabled == Due(h[..i], h[i].thread, h[i].stream)
  }

  lemma Extends(h: History, e: Event)
    requires IsDue(h) && (e.Launch? ==> e.disabled == Due(h, e.thread, e.stream))
    ensures IsDue(h + [e]) && (h + [e])[..|h|] == h
  {
    var h' := h + [e];
    assert h'[..|h|] == h;
    forall i | 0 <= i < |h'| && h'[i].Launch?
      ensures h'[i].disabled == Due(h'[..i], h'[i].thread, h'[i].stream)
    {
      if i < |h| { assert h'[..i] == h[..i]; }
    }
  }

  // What one more event does to the masks in force.
  lemma Appended(h: History, e: Event)
    ensures var h' := h + [e];
      && GlobalOf(h') == (if e.SetGlobal? then e.mask else GlobalOf(h))
      && SupremeOf(h') == (if e.SetSupreme? then Some(e.wide) else SupremeOf(h))
      && (forall s :: StreamOf(h', s) == if e.SetStream? && s == e.stream then e.wide else StreamOf(h, s))
      && forall t :: NextOf(h', t) ==
           if e.SetNext? && t == e.thread then e.mask else if e.Launch? && t == e.thread then {} else NextOf(h, t)
  {
    assert (h + [e])[..|h|] == h;
  }

  // What a launch gets, read off the events before it: the last mask set for the next launch of its thread, if
  // it is still unused and not empty; else the last one set for its stream, if its low half is not empty; else
  // the last global one; in each case together with the last supreme mask.

  datatype Scope = OfThread(thread: nat) | OfStream(stream: nat) | OfAll | OfSupreme {
    predicate Has(e: Event) {
      match this
      case OfThread(t) => (e.SetNext? || e.Launch?) && e.thread == t
      case OfStream(s) => e.SetStream? && e.stream == s
      case OfAll => e.SetGlobal?
      case OfSupreme => e.SetSupreme?
    }
  }

  // Of the events before position `j` that belong to the scope, `e` is the last one.
  ghost predicate LastIs(h: History, j: nat, scope: Scope, e: Event)
    requires j <= |h|
  {
    exists i | 0 <= i < j :: h[i] == e && forall k | i < k < j :: !scope.Has(h[k])
  }

  lemma LastStep(h: History, j: nat, scope: Scope, e: Event)
    requires 0 < j <= |h| && scope.Has(e)
    ensures LastIs(h, j, scope, e) <==> if scope.Has(h[j - 1]) then h[j - 1] == e else LastIs(h, j - 1, scope, e)
  {
  }

  lemma {:induction false} NextMeans(h: History, j: nat, thread: nat, m: Mask64)
    requires j <= |h| && m != {}
    ensures NextOf(h[..j], thread) == m <==> LastIs(h, j, OfThread(thread), SetNext(thread, m))
  {
    if j > 0 {
      NextMeans(h, j - 1, thread, m);
      assert h[..j][..j - 1] == h[..j - 1];
      LastStep(h, j, OfThread(thread), SetNext(thread, m));
      hide LastIs;
    }
  }

  lemma {:induction false} StreamMeans(h: History, j: nat, stream: nat, m: Mask128)
    requires j <= |h| && m != {}
    ensures StreamOf(h[..j], stream) == m <==> LastIs(h, j, OfStream(stream), SetStream(stream, m))
  {
    if j > 0 {
      StreamMeans(h, j - 1, stream, m);
      assert h[..j][..j - 1] == h[..j - 1];
      LastStep(h, j, OfStream(stream), SetStream(stream, m));
      hide LastIs;
    }
  }

  lemma {:induction false} GlobalMeans(h: History, j: nat, m: Mask64)
    requires j <= |h| && m != {}
    ensures GlobalOf(h[..j]) == m <==> LastIs(h, j, OfAll, SetGlobal(m))
  {
    if j > 0 {
      GlobalMeans(h, j - 1, m);
      assert h[..j][..j - 1] == h[..j - 1];
      LastStep(h, j, OfAll, SetGlobal(m));
      hide LastIs;
    }
  }

  lemma {:induction false} SupremeMeans(h: History, j: nat, m: Mask128)
    requires j <= |h|
    ensures SupremeOf(h[..j]) == Some(m) <==> LastIs(h, j, OfSupreme, SetSupreme(m))
  {
    if j > 0 {
      SupremeMeans(h, j - 1, m);
      assert h[..j][..j - 1] == h[..j - 1];
      LastStep(h, j, OfSupreme, SetSupreme(m));
      hide LastIs;
    }
  }

  // The last supreme mask, the last global mask, disables TPC `b`.

  ghost predicate BySupreme(h: History, j: nat, b: nat)
    requires j <= |h|
  {
    exists m :: LastIs(h, j, OfSupreme, SetSupreme(m)) && b in m
  }

  ghost predicate ByGlobal(h: History, j: nat, b: nat)
    requires j <= |h|
  {
    exists m :: LastIs(h, j, OfAll, SetGlobal(m)) && b in m
  }

  // The mask of the next launch is in force, or the low half of that of the stream.

  ghost predicate NextIsSet(h: History, j: nat, thread: nat)
    requires j <= |h|
  {
    exists m :: LastIs(h, j, OfThread(thread), SetNext(thread, m)) && m != {}
  }

  ghost predicate StreamIsSet(h: History, j: nat, stream: nat)
    requires j <= |h|
  {
    exists m, b :: LastIs(h, j, OfStream(stream), SetStream(stream, m)) && b in m && b < 64
  }

  lemma SupremeIn(h: History, j: nat, b: nat)
    requires j <= |h|
    ensures SupremeOf(h[..j]).Some? && b in SupremeOf(h[..j]).value <==> BySupreme(h, j, b)
  {
    hide LastIs;
    if SupremeOf(h[..j]).Some? { SupremeMeans(h, j, SupremeOf(h[..j]).value); }
    if m :| LastIs(h, j, OfSupreme, SetSupreme(m)) && b in m { SupremeMeans(h, j, m); }
  }

  lemma GlobalIn(h: History, j: nat, b: nat)
    requires j <= |h|
    ensures b in GlobalOf(h[..j]) <==> ByGlobal(h, j, b)
  {
    hide LastIs;
    if b in GlobalOf(h[..j]) { GlobalMeans(h, j, GlobalOf(h[..j])); }
    if m :| LastIs(h, j, OfAll, SetGlobal(m)) && b in m { GlobalMeans(h, j, m); }
  }

  lemma NextIn(h: History, j: nat, thread: nat)
    requires j <= |h|
    ensures NextOf(h[..j], thread) != {} <==> NextIsSet(h, j, thread)
  {
    hide LastIs;
    if NextOf(h[..j], thread) != {} { NextMeans(h, j, thread, NextOf(h[..j], thread)); }
    if m :| LastIs(h, j, OfThread(thread), SetNext(thread, m)) && m != {} { NextMeans(h, j, thread, m); }
  }

  lemma StreamIn(h: History, j: nat, stream: nat)
    requires j <= |h|
    ensures Low(StreamOf(h[..j], stream)) != {} <==> StreamIsSet(h, j, stream)
  {
    hide LastIs;
    if b :| b in Low(StreamOf(h[..j], stream)) { StreamMeans(h, j, stream, StreamOf(h[..j], stream)); }
    if m, b :| LastIs(h, j, OfStream(stream), SetStream(stream, m)) && b in m && b < 64 {
      StreamMeans(h, j, stream, m);
      assert b in Low(m);
    }
  }

  lemma DueBits(h: History, j: nat, b: nat)
    requires IsDue(h) && j < |h| && h[j].Launch? && b < 64
    ensures var next, stream := NextOf(h[..j], h[j].thread), Low(StreamOf(h[..j], h[j].stream));
      b in h[j].disabled <==>
        BySupreme(h, j, b) || if next != {} then b in next else if stream != {} then b in stream else ByGlobal(h, j, b)
  {
    SupremeIn(h, j, b);
    GlobalIn(h, j, b);
    assert h[j].disabled == Due(h[..j], h[j].thread, h[j].stream);
    hide BySupreme, ByGlobal, NextOf, StreamOf, GlobalOf, SupremeOf, IsDue;
  }

  lemma NextDecides(h: History, j: nat, m: Mask64, b: nat)
    requires IsDue(h) && j < |h| && h[j].Launch? && b < 64
    requires LastIs(h, j, OfThread(h[j].thread), SetNext(h[j].thread, m)) && m != {}
    ensures b in h[j].disabled <==> b in m || BySupreme(h, j, b)
  {
    hide LastIs, BySupreme, ByGlobal, IsDue;
    NextMeans(h, j, h[j].thread, m);
    DueBits(h, j, b);
  }

  lemma StreamDecides(h: History, j: nat, m: Mask128, b: nat)
    requires IsDue(h) && j < |h| && h[j].Launch? && b < 64 && !NextIsSet(h, j, h[j].thread)
    requires LastIs(h, j, OfStream(h[j].stream), SetStream(h[j].stream, m)) && exists c | c in m :: c < 64
    ensures b in h[j].disabled <==> b in m || BySupreme(h, j, b)
  {
    hide LastIs, BySupreme, ByGlobal, IsDue, NextIsSet, NextOf, StreamOf;
    NextIn(h, j, h[j].thread);
    StreamMeans(h, j, h[j].stream, m);
    var c :| c in m && c < 64;
    assert c in Low(m);
    DueBits(h, j, b);
  }

  lemma GlobalDecides(h: History, j: nat, b: nat)
    requires IsDue(h) && j < |h| && h[j].Launch? && b < 64
    requires !NextIsSet(h, j, h[j].thread) && !StreamIsSet(h, j, h[j].stream)
    ensures b in h[j].disabled <==> ByGlobal(h, j, b) || BySupreme(h, j, b)
  {
    hide LastIs, BySupreme, ByGlobal, IsDue, NextIsSet, StreamIsSet;
    NextIn(h, j, h[j].thread);
    StreamIn(h, j, h[j].stream);
    DueBits(h, j, b);
  }

  // The TPCs from 64 on are disabled in any case.
  lemma UpperIsDisabled(h: History, j: nat, b: nat)
    requires IsDue(h) && j < |h| && h[j].Launch? && 64 <= b < 128
    ensures b in h[j].disabled
  {
    assert h[j].disabled == Due(h[..j], h[j].thread, h[j].stream);
  }

  // The 32-bit words of the TMD that hold masks, each with the TPC numbers that its bits stand for.
  class Tmd {
    const version: nat
    var enabled: bool
    var lower: Mask    // TPCs 0-31
    var upper: Mask    // TPCs 32-63
    var extLower: Mask // TPCs 64-95
    var extUpper: Mask // TPCs 96-127

    constructor (version: nat)
      ensures this.version == version
    {
      this.version := version;
    }

    function Mask(): TpcLists.Mask
      reads this
    {
      lower + upper
    }

    // The TPCs that a launch with this TMD may not use. A TMD without words for those from 64 on cannot
    // have a launch use them.
    function Disabled(): TpcLists.Mask
      reads this
    {
      Mask() + if version >= 0x40 then extLower + extUpper else Ones(64, 128)
    }
  }

  class Process {
    var globalMask: Mask64
    var nextMask: map<nat, Mask64>     // per thread
    var streamMask: map<nat, Mask128>  // in CUDA's stream structures
    var supreme: Option<Mask128>
    ghost var history: History

    ghost predicate Valid()
      reads this
    {
      && globalMask == GlobalOf(history) && supreme == SupremeOf(history)
      && (forall t :: Next(t) == NextOf(history, t))
      && (forall s :: Stream(s) == StreamOf(history, s))
      && IsDue(history)
    }

    function Next(t: nat): Mask64
      reads this
    {
      if t in nextMask then nextMask[t] else {}
    }

    function Stream(s: nat): Mask128
      reads this
    {
      if s in streamMask then streamMask[s] else {}
    }

    constructor ()
      ensures Valid() && history == []
    {
      globalMask, nextMask, streamMask, supreme, history := {}, map[], map[], None, [];
    }

    method SetGlobalMask(mask: Mask64)
      requires Valid()
      modifies this
      ensures Valid() && history == old(history) + [SetGlobal(mask)]
    {
      hide NextOf, StreamOf, GlobalOf, SupremeOf, IsDue;
      globalMask := mask;
      Extends(history, SetGlobal(mask));
      Appended(history, SetGlobal(mask));
      history := history + [SetGlobal(mask)];
    }

    method SetNextMask(thread: nat, mask: Mask64)
      requires Valid()
      modifies this
      ensures Valid() && history == old(history) + [SetNext(thread, mask)]
    {
      hide NextOf, StreamOf, GlobalOf, SupremeOf, IsDue;
      nextMask := nextMask[thread := mask];
      Extends(history, SetNext(thread, mask));
      Appended(history, SetNext(thread, mask));
      history := history + [SetNext(thread, mask)];
    }

    method SetStreamMaskExt(stream: nat, mask: Mask128)
      requires Valid()
      modifies this
      ensures Valid() && history == old(history) + [SetStream(stream, mask)]
    {
      hide NextOf, StreamOf, GlobalOf, SupremeOf, IsDue;
      streamMask := streamMask[stream := mask];
      Extends(history, SetStream(stream, mask));
      Appended(history, SetStream(stream, mask));
      history := history + [SetStream(stream, mask)];
    }

    // The 64-bit call disables all TPCs from number 64 on.
    method SetStreamMask(stream: nat, mask: Mask64)
      requires Valid()
      modifies this
      ensures Valid() && |history| == |old(history)| + 1 && history[..|old(history)|] == old(history)
      ensures var e := history[|old(history)|];
              e.SetStream? && e.stream == stream && Low(e.wide) == mask && Part(e.wide, 64, 128) == Ones(64, 128)
    {
      var full := Ones(64, 128) + mask;
      WideStream(mask);
      hide NextOf, StreamOf, GlobalOf, SupremeOf, IsDue, Ones, Part;
      SetStreamMaskExt(stream, full);
    }

    // By the wrapper's setup(), and by nvtaskset through shared memory.
    method SetSupremeMask(mask: Mask128)
      requires Valid()
      modifies this
      ensures Valid() && history == old(history) + [SetSupreme(mask)]
    {
      hide NextOf, StreamOf, GlobalOf, SupremeOf, IsDue;
      supreme := Some(mask);
      Extends(history, SetSupreme(mask));
      Appended(history, SetSupreme(mask));
      history := history + [SetSupreme(mask)];
    }

    // control_callback_v2() for a launch from `thread`, whose stream mask CUDA has put into the
    // TMD. False stands for the abort on a TMD too old to hold masks.
    method ControlCallback(tmd: Tmd, thread: nat) returns (ok: bool)
      requires forall b | b in tmd.Mask() :: b < 64
      modifies this`nextMask, tmd
      ensures ok <==> tmd.version >= 0x16
      ensures tmd.Mask() ==
        if ok then Combine(old(Next(thread)), old(tmd.Mask()), globalMask, supreme) else old(tmd.Mask())
      // a next mask is used once
      ensures nextMask == if ok && old(Next(thread)) != {} then old(nextMask)[thread := {}] else old(nextMask)
      // TMDs with room for more than 64 TPCs: those above are all disabled, and masking is enabled
      ensures tmd.version >= 0x40 ==>
        tmd.extLower == Ones(64, 96) && tmd.extUpper == Ones(96, 128) && tmd.enabled
      ensures tmd.version < 0x40 ==>
        tmd.extLower == old(tmd.extLower) && tmd.extUpper == old(tmd.extUpper) && tmd.enabled == old(tmd.enabled)
    {
      Halves(Next(thread));
      Halves(globalMask);
      hide Part, Ones;
      if tmd.version >= 0x40 {
        tmd.extLower, tmd.extUpper, tmd.enabled := Ones(64, 96), Ones(96, 128), true;
      } else if tmd.version < 0x16 {
        return false;
      }
      if Next(thread) != {} {
        tmd.lower, tmd.upper := Part(Next(thread), 0, 32), Part(Next(thread), 32, 64);
        nextMask := nextMask[thread := {}];
      } else if tmd.lower == {} && tmd.upper == {} {
        tmd.lower, tmd.upper := Part(globalMask, 0, 32), Part(globalMask, 32, 64);
      }
      if supreme.Some? {
        ApplySupreme(tmd, supreme.value);
      }
      return true;
    }

    // No one may override the supreme mask.
    static method ApplySupreme(tmd: Tmd, m: Mask128)
      requires tmd.version >= 0x40 ==> tmd.extLower == Ones(64, 96) && tmd.extUpper == Ones(96, 128)
      modifies tmd`lower, tmd`upper, tmd`extLower, tmd`extUpper
      ensures tmd.Mask() == old(tmd.Mask()) + Low(m)
      ensures tmd.extLower == old(tmd.extLower) && tmd.extUpper == old(tmd.extUpper)
    {
      hide Part, Ones, Low;
      if tmd.version >= 0x40 {
        OnesAbsorb(m, 64, 96);
        OnesAbsorb(m, 96, 128);
        tmd.extLower, tmd.extUpper := tmd.extLower + Part(m, 64, 96), tmd.extUpper + Part(m, 96, 128);
      }
      ApplyLow(tmd, m);
    }

    static method ApplyLow(tmd: Tmd, m: Mask128)
      modifies tmd`lower, tmd`upper
      ensures tmd.Mask() == old(tmd.Mask()) + Low(m)
    {
      Regroup(tmd.lower, tmd.upper, m);
      hide Part, Low;
      tmd.lower, tmd.upper := tmd.lower + Part(m, 0, 32), tmd.upper + Part(m, 32, 64);
    }

    // A launch: CUDA prepares the TMD with the mask of the stream and runs the callback.
    method LaunchKernel(tmd: Tmd, thread: nat, stream: nat) returns (ok: bool)
      requires Valid()
      modifies this`nextMask, this`history, tmd
      ensures Valid() && ok == (tmd.version >= 0x16)
      ensures ok ==> forall b | b in tmd.Disabled() :: b < 128
      ensures history == if ok then old(history) + [Launch(thread, stream, tmd.Disabled())] else old(history)
    {
      hide Ones, Combine, NextOf, StreamOf, GlobalOf, SupremeOf;
      var mask := Low(Stream(stream));
      ghost var due := Due(history, thread, stream);
      tmd.lower, tmd.upper := Part(mask, 0, 32), Part(mask, 32, 64);
      assert tmd.Mask() == mask;
      ok := ControlCallback(tmd, thread);
      if ok {
        FromAbove64(tmd.Mask());
        ghost var e := Launch(thread, stream, tmd.Disabled());
        assert e.disabled == due;
        Extends(history, e);
        Appended(history, e);
        history := history + [e];
      }
    }
  }

  // Isolation.

  // No launch uses a TPC that the supreme mask in force disables.
  lemma SupremeWins(h: History, i: nat)
    requires IsDue(h) && i < |h| && h[i].Launch? && SupremeOf(h[..i]).Some?
    ensures SupremeOf(h[..i]).value <= h[i].disabled
  {
    assert h[i].disabled == Due(h[..i], h[i].thread, h[i].stream);
  }

  ghost predicate WasSet(h: History, m: Mask128) { exists i | 0 <= i < |h| :: h[i] == SetSupreme(m) }

  lemma {:induction false} SupremeWasSet(h: History, k: nat)
    requires k <= |h| && SupremeOf(h[..k]).Some?
    ensures WasSet(h, SupremeOf(h[..k]).value)
  {
    assert h[..k][..k - 1] == h[..k - 1];
    if h[k - 1].SetSupreme? {
      assert h[k - 1] == SetSupreme(SupremeOf(h[..k]).value);
    } else {
      SupremeWasSet(h, k - 1);
    }
  }

  // Two processes never share an enabled TPC if all the enable masks they were ever given, as
  // complements of supreme masks, are disjoint, and they launch nothing before they have one.
  lemma PartitionsIsolate(a: History, b: History, i: nat, j: nat, tpc: nat)
    requires IsDue(a) && IsDue(b) && i < |a| && j < |b| && a[i].Launch? && b[j].Launch?
    requires SupremeOf(a[..i]).Some? && SupremeOf(b[..j]).Some?
    requires forall m, n | WasSet(a, m) && WasSet(b, n) :: forall t: nat | t < 128 :: t in m || t in n
    requires tpc < 128
    ensures tpc in a[i].disabled || tpc in b[j].disabled
  {
    SupremeWins(a, i);
    SupremeWins(b, j);
    SupremeWasSet(a, i);
    SupremeWasSet(b, j);
  }
}
