// Switching a runlist to one timeslice group (TSG): the walk over the length-prefixed list that
// enables the channels of that group and disables all others.
module Runlists {

  const EIO: int := -5
  const ERANGE: int := -34
  const MAX_TSGID: nat := 4096
  const AMPERE: nat := 0x170

  // An entry is the header of a TSG, followed by `length` channels, or a channel.
  datatype Entry = Tsg(id: nat, length: nat) | Chan(id: nat)

  datatype Group = Group(id: nat, chans: seq<nat>)

  function ChanEntries(chans: seq<nat>): seq<Entry> { seq(|chans|, i requires 0 <= i < |chans| => Chan(chans[i])) }

  // The runlist that lists some groups one after the other.
  function Layout(gs: seq<Group>): seq<Entry> {
    if gs == [] then []
    else
      var g := gs[|gs| - 1];
      Layout(gs[..|gs| - 1]) + [Tsg(g.id, |g.chans|)] + ChanEntries(g.chans)
  }

  // Control registers. Only what a write to them affects is told apart from the other fields.
  datatype Control = Control(rest: nat, enabled: bool, pbdmaFaulted: bool, engFaulted: bool)

  // Words that are written to them: before Ampere `enableSet` and `enableClear` switch the channel, and
  // a set fault bit resets that fault; since then set bits are set, or cleared if `clears`.
  datatype Word =
    | Pccsr(rest: nat, enable: bool, enableSet: bool, enableClear: bool, pbdmaFaulted: bool, engFaulted: bool)
    | Chram(clears: bool, enableBit: bool, pbdmaBit: bool, engBit: bool)

  // What a read before Ampere returns: the write-only bits read as zero.
  function Load(r: Control): Word { Pccsr(r.rest, r.enabled, false, false, r.pbdmaFaulted, r.engFaulted) }

  function Store(r: Control, w: Word): Control {
    match w
    case Pccsr(rest, _, set_, clear, pbdma, eng) =>
      Control(rest, set_ || (r.enabled && !clear), r.pbdmaFaulted && !pbdma, r.engFaulted && !eng)
    case Chram(clears, enable, pbdma, eng) =>
      Control(r.rest, After(r.enabled, enable, clears),
              After(r.pbdmaFaulted, pbdma, clears), After(r.engFaulted, eng, clears))
  }

  function After(was: bool, written: bool, clears: bool): bool { if written then !clears else was }

  type Registers = map<nat, Control>

  function Reg(regs: Registers, c: nat): Control { if c in regs then regs[c] else Control(0, false, false, false) }

  // The group to switch to, and whether writing a register resets its pending faults.
  datatype Goal = Goal(tsg: nat, resets: bool)

  // The register writes of a switch, in order.
  datatype Write = Write(chan: nat, enable: bool, resets: bool) {
    function On(r: Control): Control {
      Control(r.rest, enable, r.pbdmaFaulted && !resets, r.engFaulted && !resets)
    }
  }

  function GroupWrites(g: Group, target: Goal): seq<Write> {
    seq(|g.chans|, i requires 0 <= i < |g.chans| => Write(g.chans[i], g.id == target.tsg, target.resets))
  }

  function Writes(gs: seq<Group>, target: Goal): seq<Write> {
    if gs == [] then [] else Writes(gs[..|gs| - 1], target) + GroupWrites(gs[|gs| - 1], target)
  }

  function Apply(regs: Registers, ws: seq<Write>): Registers {
    if ws == [] then regs
    else
      var before, w := Apply(regs, ws[..|ws| - 1]), ws[|ws| - 1];
      before[w.chan := w.On(Reg(before, w.chan))]
  }

  // Nothing but enablement changes, or the pending faults are gone as well.
  predicate KeepsFields(before: Control, after: Control, resets: bool) {
    && after.rest == before.rest
    && after.pbdmaFaulted == (!resets && before.pbdmaFaulted) && after.engFaulted == (!resets && before.engFaulted)
  }

  // What the switch is for: of the listed channels exactly those of the target group end up
  // enabled, and no other channel changes. It needs that no channel is listed both in the target
  // group and in another one.

  ghost predicate Lists(gs: seq<Group>, c: nat) { exists g | g in gs :: c in g.chans }

  ghost predicate TargetLists(gs: seq<Group>, target: Goal, c: nat) {
    exists g | g in gs :: g.id == target.tsg && c in g.chans
  }

  ghost predicate NoOverlap(gs: seq<Group>, target: Goal) {
    forall g, h, c | g in gs && h in gs && g.id == target.tsg && h.id != target.tsg && c in g.chans :: c !in h.chans
  }

  lemma {:induction false} ApplyConcat(regs: Registers, a: seq<Write>, b: seq<Write>)
    ensures Apply(regs, a + b) == Apply(Apply(regs, a), b)
    decreases |b|
  {
    if b == [] {
      assert a + b == a;
    } else {
      assert (a + b)[..|a + b| - 1] == a + b[..|b| - 1];
      ApplyConcat(regs, a, b[..|b| - 1]);
    }
  }

  lemma {:induction false} ApplySame(regs: Registers, ws: seq<Write>, c: nat, flag: bool, resets: bool)
    requires forall w | w in ws :: w.enable == flag && w.resets == resets
    ensures var r := Apply(regs, ws);
            if exists w | w in ws :: w.chan == c
            then c in r && r[c].enabled == flag && KeepsFields(Reg(regs, c), r[c], resets)
            else (c in r <==> c in regs) && (c in r ==> r[c] == regs[c])
  {
    if ws != [] {
      var front := ws[..|ws| - 1];
      ApplySame(regs, front, c, flag, resets);
      assert ws == front + [ws[|ws| - 1]];
    }
  }

  lemma GroupApplied(regs: Registers, g: Group, target: Goal, c: nat)
    ensures var r := Apply(regs, GroupWrites(g, target));
            if c in g.chans
            then c in r && r[c].enabled == (g.id == target.tsg) && KeepsFields(Reg(regs, c), r[c], target.resets)
            else (c in r <==> c in regs) && (c in r ==> r[c] == regs[c])
  {
    var ws := GroupWrites(g, target);
    ApplySame(regs, ws, c, g.id == target.tsg, target.resets);
    if c in g.chans {
      var i :| 0 <= i < |g.chans| && g.chans[i] == c;
      assert ws[i] in ws && ws[i].chan == c;
    }
  }

  lemma {:induction false} SwitchIsExact(regs: Registers, gs: seq<Group>, target: Goal, c: nat)
    requires NoOverlap(gs, target)
    ensures var r := Apply(regs, Writes(gs, target));
            if Lists(gs, c)
            then c in r && r[c].enabled == TargetLists(gs, target, c) && KeepsFields(Reg(regs, c), r[c], target.resets)
            else (c in r <==> c in regs) && (c in r ==> r[c] == regs[c])
  {
    if gs != [] {
      var front, g := gs[..|gs| - 1], gs[|gs| - 1];
      assert gs == front + [g];
      SwitchIsExact(regs, front, target, c);
      ApplyConcat(regs, Writes(front, target), GroupWrites(g, target));
      GroupApplied(Apply(regs, Writes(front, target)), g, target, c);
    }
  }

  // Without that condition, the last group that lists a channel decides; so the switch is exact for
  // a channel if and only if the target group, when it lists the channel, is the last to do so.

  ghost predicate LastLister(gs: seq<Group>, c: nat, id: nat) {
    exists i | 0 <= i < |gs| :: gs[i].id == id && c in gs[i].chans && forall j | i < j < |gs| :: c !in gs[j].chans
  }

  lemma {:induction false} LastListerDecides(regs: Registers, gs: seq<Group>, target: Goal, c: nat)
    requires Lists(gs, c)
    ensures var r := Apply(regs, Writes(gs, target)); c in r && r[c].enabled == LastLister(gs, c, target.tsg)
  {
    var front, g := gs[..|gs| - 1], gs[|gs| - 1];
    assert gs == front + [g];
    ApplyConcat(regs, Writes(front, target), GroupWrites(g, target));
    GroupApplied(Apply(regs, Writes(front, target)), g, target, c);
    if c in g.chans {
      assert g.id == target.tsg ==> gs[|gs| - 1].id == target.tsg && c in gs[|gs| - 1].chans;
    } else {
      LastListerDecides(regs, front, target, c);
      assert LastLister(front, c, target.tsg) ==> LastLister(gs, c, target.tsg);
    }
  }

  lemma SwitchIsExactIff(regs: Registers, gs: seq<Group>, target: Goal, c: nat)
    requires Lists(gs, c)
    ensures var r, wanted := Apply(regs, Writes(gs, target)), TargetLists(gs, target, c);
      c in r && (r[c].enabled == wanted <==> (wanted ==> LastLister(gs, c, target.tsg)))
  {
    LastListerDecides(regs, gs, target, c);
    if LastLister(gs, c, target.tsg) {
      var i :| 0 <= i < |gs| && gs[i].id == target.tsg && c in gs[i].chans;
      assert gs[i] in gs;
    }
  }

  lemma {:induction false} LayoutPrefix(gs: seq<Group>, n: nat)
    requires n <= |gs|
    ensures Layout(gs[..n]) <= Layout(gs)
    decreases |gs|
  {
    if n < |gs| {
      LayoutPrefix(gs[..|gs| - 1], n);
      assert gs[..|gs| - 1][..n] == gs[..n];
    } else {
      assert gs[..n] == gs;
    }
  }

  // The entries of `g` are at `pos`.
  ghost predicate GroupAt(runlist: seq<Entry>, pos: nat, g: Group) {
    && pos + |g.chans| < |runlist| && runlist[pos] == Tsg(g.id, |g.chans|)
    && forall j | 0 <= j < |g.chans| :: runlist[pos + 1 + j] == Chan(g.chans[j])
  }

  lemma GroupHeader(runlist: seq<Entry>, pos: nat, g: Group)
    requires GroupAt(runlist, pos, g)
    ensures pos < |runlist| && runlist[pos] == Tsg(g.id, |g.chans|)
  {
  }

  lemma GroupAtConcat(before: seq<Entry>, g: Group, rest: seq<Entry>)
    ensures GroupAt(before + [Tsg(g.id, |g.chans|)] + ChanEntries(g.chans) + rest, |before|, g)
  {
  }

  lemma LayoutGrows(gs: seq<Group>, n: nat)
    requires n < |gs|
    ensures var pos := |Layout(gs[..n])|;
      pos + 1 + |gs[n].chans| == |Layout(gs[..n + 1])| <= |Layout(gs)| && GroupAt(Layout(gs), pos, gs[n])
  {
    var upTo := gs[..n + 1];
    assert upTo[..n] == gs[..n] && upTo[n] == gs[n];
    LayoutPrefix(gs, n + 1);
    var before, g, rest := Layout(gs[..n]), gs[n], Layout(gs)[|Layout(upTo)|..];
    assert Layout(upTo) == before + [Tsg(g.id, |g.chans|)] + ChanEntries(g.chans);
    assert Layout(gs) == Layout(upTo) + rest;
    hide Layout, ChanEntries, GroupAt;
    GroupAtConcat(before, g, rest);
  }

  lemma {:induction false} WritesGrow(gs: seq<Group>, target: Goal, n: nat)
    requires n < |gs|
    ensures var a := Writes(gs[..n], target);
      && Writes(gs[..n + 1], target) == a + GroupWrites(gs[n], target)
      && |a| + |gs[n].chans| <= |Writes(gs, target)|
      && Writes(gs, target)[..|a| + |gs[n].chans|] == a + GroupWrites(gs[n], target)
    decreases |gs|
  {
    assert gs[..n + 1][..n] == gs[..n];
    if n < |gs| - 1 {
      var front := gs[..|gs| - 1];
      WritesGrow(front, target, n);
      assert front[..n] == gs[..n] && front[..n + 1] == gs[..n + 1];
    } else {
      assert gs[..n + 1] == gs;
    }
  }

  lemma LayoutEnds(gs: seq<Group>, n: nat)
    requires n <= |gs|
    ensures |Layout(gs[..n])| < |Layout(gs)| <==> n < |gs|
  {
    if n < |gs| { LayoutGrows(gs, n); } else { assert gs[..n] == gs; }
  }

  // The walk has dealt with the first `n` groups, which took the first `done` writes.
  ghost predicate Walked(gs: seq<Group>, target: Goal, n: nat, done: nat, before: Registers, now: Registers) {
    && n <= |gs| && done <= |Writes(gs, target)| && Writes(gs, target)[..done] == Writes(gs[..n], target)
    && now == Apply(before, Writes(gs, target)[..done])
  }

  lemma WalkStarts(gs: seq<Group>, target: Goal, before: Registers)
    ensures Walked(gs, target, 0, 0, before, before)
  {
    assert gs[..0] == [] && Writes(gs, target)[..0] == [];
  }

  // `k` more writes, all of the next group if the walk goes on.
  lemma WalkGoesOn(gs: seq<Group>, target: Goal, n: nat, done: nat, before: Registers, now: Registers, k: nat)
    requires Walked(gs, target, n, done, before, now) && n < |gs| && k <= |gs[n].chans|
    ensures var now' := Apply(now, GroupWrites(gs[n], target)[..k]);
      && done + k <= |Writes(gs, target)| && now' == Apply(before, Writes(gs, target)[..done + k])
      && (k == |gs[n].chans| ==> Walked(gs, target, n + 1, done + k, before, now'))
  {
    WritesGrow(gs, target, n);
    var all, ws := Writes(gs, target), GroupWrites(gs[n], target);
    assert all[..done + k] == all[..done] + ws[..k];
    ApplyConcat(before, all[..done], ws[..k]);
    assert k == |gs[n].chans| ==> ws[..k] == ws;
  }

  lemma WalkEnds(gs: seq<Group>, target: Goal, done: nat, before: Registers, now: Registers)
    requires Walked(gs, target, |gs|, done, before, now)
    ensures now == Apply(before, Writes(gs, target)) && done <= |Writes(gs, target)|
    ensures now == Apply(before, Writes(gs, target)[..done])
  {
    assert gs[..|gs|] == gs;
  }

  ghost predicate NoneListed(dead: set<nat>, gs: seq<Group>) { forall c | c in dead :: !Lists(gs, c) }

  lemma NoneListedGrows(dead: set<nat>, gs: seq<Group>, n: nat)
    requires n < |gs| && NoneListed(dead, gs[..n])
    ensures (forall c | c in gs[n].chans :: c !in dead) ==> NoneListed(dead, gs[..n + 1])
    ensures (exists c | c in gs[n].chans :: c in dead) ==> !NoneListed(dead, gs)
  {
    assert gs[..n + 1] == gs[..n] + [gs[n]];
    assert gs[n] in gs;
  }

  class Channels {
    const chipId: nat
    const dead: set<nat> // channels whose control register cannot be read
    var regs: Registers

    function ToGoal(target: nat): Goal { Goal(target, chipId < AMPERE) }

    // Before Ampere the register is read, updated and written, which resets its pending faults; since
    // then it is just written.
    method SetEnable(c: nat, enable: bool) returns (ok: bool, ghost written: Word)
      modifies this
      ensures ok <==> chipId >= 0x170 || c !in dead
      ensures regs == if ok then Apply(old(regs), [Write(c, enable, chipId < 0x170)]) else old(regs)
      // the word that is written: what was read and the bit that sets or clears, or that bit alone
      ensures var r := Reg(old(regs), c); ok && chipId < 0x170 ==>
        written == Pccsr(r.rest, r.enabled, enable, !enable, r.pbdmaFaulted, r.engFaulted)
      ensures chipId >= 0x170 ==> written == Chram(!enable, true, false, false)
    {
      ghost var ws := [Write(c, enable, chipId < AMPERE)];
      assert ws[..0] == [];
      if chipId < AMPERE {
        if c in dead {
          return false, Load(Reg(regs, c));
        }
        var chanCtl := Load(Reg(regs, c));
        if enable {
          chanCtl := chanCtl.(enableSet := true);
        } else {
          chanCtl := chanCtl.(enableClear := true);
        }
        regs := regs[c := Store(Reg(regs, c), chanCtl)];
        written := chanCtl;
      } else {
        var chanCtl := Chram(false, false, false, false);
        chanCtl := chanCtl.(clears := !enable);
        chanCtl := chanCtl.(enableBit := true);
        regs := regs[c := Store(Reg(regs, c), chanCtl)];
        written := chanCtl;
      }
      ok := true;
    }

    // One group: stops at the first channel that cannot be read.
    method SwitchGroup(runlist: seq<Entry>, pos: nat, target: nat, ghost g: Group) returns (ok: bool, ghost k: nat)
      requires GroupAt(runlist, pos, g)
      modifies this
      ensures k <= |g.chans| && regs == Apply(old(regs), GroupWrites(g, ToGoal(target))[..k])
      ensures forall j | 0 <= j < k :: chipId >= AMPERE || g.chans[j] !in dead
      ensures if ok then k == |g.chans| else k < |g.chans| && chipId < AMPERE && g.chans[k] in dead
    {
      var enable := runlist[pos].id == target;
      ghost var ws := GroupWrites(g, ToGoal(target));
      assert ws[..0] == [];
      k := 0;
      var chan := pos + 1;
      while chan < pos + 1 + runlist[pos].length
        invariant k <= |g.chans| && chan == pos + 1 + k && regs == Apply(old(regs), ws[..k])
        invariant forall j | 0 <= j < k :: chipId >= AMPERE || g.chans[j] !in dead
      {
        assert runlist[chan] == Chan(g.chans[k]);
        ghost var written;
        ok, written := SetEnable(runlist[chan].id, enable);
        if !ok {
          return;
        }
        assert ws[..k + 1] == ws[..k] + [ws[k]];
        ApplyConcat(old(regs), ws[..k], [ws[k]]);
        chan := chan + 1;
        k := k + 1;
      }
      ok := true;
    }

    // One round of the walk, at the header of group `n`.
    method WalkGroup(runlist: seq<Entry>, pos: nat, target: nat, ghost gs: seq<Group>, ghost n: nat,
                     ghost done: nat, ghost start: Registers) returns (ok: bool, next: nat, ghost done': nat)
      requires runlist == Layout(gs) && n < |gs| && pos == |Layout(gs[..n])|
      requires Walked(gs, ToGoal(target), n, done, start, regs) && (chipId < AMPERE ==> NoneListed(dead, gs[..n]))
      modifies this
      ensures var ws := Writes(gs, ToGoal(target)); done' <= |ws| && regs == Apply(start, ws[..done'])
      ensures !ok ==> chipId < AMPERE && !NoneListed(dead, gs)
      ensures ok ==> next == |Layout(gs[..n + 1])| && Walked(gs, ToGoal(target), n + 1, done', start, regs)
      ensures ok && chipId < AMPERE ==> NoneListed(dead, gs[..n + 1])
    {
      LayoutGrows(gs, n);
      GroupHeader(runlist, pos, gs[n]);
      ghost var k, before := 0, regs;
      ok, k := SwitchGroup(runlist, pos, target, gs[n]);
      hide Layout, Writes, Apply, NoneListed, GroupWrites, Walked, GroupAt;
      WalkGoesOn(gs, ToGoal(target), n, done, start, before, k);
      if chipId < AMPERE { NoneListedGrows(dead, gs, n); }
      done' := done + k;
      next := pos + 1 + runlist[pos].length;
    }

    // The loop of switch_to_tsg_file_write() over a runlist that consists of whole groups.
    method SwitchToTsg(runlist: seq<Entry>, target: nat, ghost gs: seq<Group>) returns (ret: int, ghost done: nat)
      requires runlist == Layout(gs)
      modifies this
      ensures ret == if target > 4096 then ERANGE
                     else if chipId < 0x170 && !NoneListed(dead, gs) then EIO else 0
      ensures var ws := Writes(gs, ToGoal(target)); done <= |ws| && regs == Apply(old(regs), ws[..done])
      ensures ret == 0 ==> regs == Apply(old(regs), Writes(gs, ToGoal(target)))
      ensures ret == ERANGE ==> regs == old(regs)
    {
      WalkStarts(gs, ToGoal(target), regs);
      done := 0;
      if target > MAX_TSGID {
        return ERANGE, 0;
      }
      var pos := 0;
      ghost var n := 0;
      assert gs[..0] == [];
      LayoutEnds(gs, 0);
      hide Layout, Writes, Apply, NoneListed, Walked;
      while pos < |runlist|
        invariant Walked(gs, ToGoal(target), n, done, old(regs), regs)
        invariant n <= |gs| && pos == |Layout(gs[..n])| && (pos < |runlist| <==> n < |gs|)
        invariant chipId < AMPERE ==> NoneListed(dead, gs[..n])
        decreases |gs| - n
      {
        var ok;
        ok, pos, done := WalkGroup(runlist, pos, target, gs, n, done, old(regs));
        if !ok {
          return EIO, done;
        }
        n := n + 1;
        LayoutEnds(gs, n);
      }
      WalkEnds(gs, ToGoal(target), done, old(regs), regs);
      assert gs[..n] == gs;
      return 0, done;
    }
  }
}
