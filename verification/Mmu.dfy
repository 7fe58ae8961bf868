// The page-table engine: dereferencing through the movable PRAMIN window, forward translation,
// reverse search, mapping, and collection of the directories that mapping allocated.
module Mmu {
  import opened GpuMemory
  import opened PageTable
  import opened Translation
  import opened Mapping
  import opened Search
  import opened Collection

  class Gpu {
    const chipId: nat
    const iommu: bool
    var mem: Mem
    var window: Window
    var dmaMapped: set<nat>
    var pdAllocs: seq<PdPage>
    ghost var tree: Tree

    // On these chips the window register has moved and its target must stay VID_MEM.
    predicate WindowIsVidOnly() { HOPPER <= chipId < ADA || chipId >= BLACKWELL }

    // These are the Hopper chips and all from Blackwell on.
    lemma VidOnlyChips()
      ensures WindowIsVidOnly() <==> 0x180 <= chipId <= 0x18F || chipId >= 0x1A0
    {
    }

    // The register reads as all ones if it is inaccessible.
    static lemma DeadMeans(w: Window)
      ensures w.IsDead() <==> w.Raw() == 0xFFFF_FFFF
    {
    }

    // The addresses that PRAMIN can show are those in the 64 KiB at some base of the window.
    static lemma ShowableExactly(addr: nat)
      ensures addr < PRAMIN_SPACE <==> exists base: U24 :: ShowsAt(base, addr)
    {
      if addr < PRAMIN_SPACE { assert ShowsAt(addr / 0x1_0000, addr); }
    }

    static predicate ShowsAt(base: U24, addr: nat) { 0x1_0000 * base <= addr < 0x1_0000 * base + 0x1_0000 }

    function TheEnv(): Env
      reads this
    {
      Env(!window.IsDead() && (WindowIsVidOnly() ==> window.target == VID_MEM), iommu, dmaMapped)
    }

    // An access of 8 bytes through `k` is inside PRAMIN and hits `l`.
    ghost predicate Hits(k: Kva, l: Loc)
      reads `window
    {
      match k
      case Pramin(off) => 0 <= off && off + 8 <= PRAMIN_LEN && window.Behind(off) == l
      case Sys(a) => a >= 0 && Loc(false, a) == l
      case _ => false
    }

    // As Hits, for every word of the 4 KiB page around `l`.
    ghost predicate HitsPage(k: Kva, l: Loc)
      reads `window
    {
      forall n: int | 0 <= l.addr % PAGE + n <= PAGE - 8 :: Hits(k.Plus(n), Loc(l.vid, l.addr + n))
    }

    method AddrToPraminMut(addr: U64, target: U2) returns (off: int)
      modifies `window
      ensures off == EINVAL <==> addr >= PRAMIN_SPACE
      ensures addr < PRAMIN_SPACE ==>
        (off == EOPNOTSUPP <==>
          old(window).IsDead() || (WindowIsVidOnly() && old(window).target != target))
      ensures off < 0 ==> off in {EINVAL, EOPNOTSUPP} && window == old(window)
      // the offset shows the address, and the 64 KiB around it lie inside the window
      ensures off >= 0 ==>
        && window.Behind(off) == Loc(target == VID_MEM, addr) && window.target == target
        && window.rest == old(window).rest
        && 0 <= off - addr % 0x1_0000 && off - addr % 0x1_0000 + 0x1_0000 <= PRAMIN_LEN
      ensures old(window).target == target && 0 <= addr - 0x1_0000 * old(window).base < PRAMIN_LEN
        ==> window == old(window)
    {
      if addr >= PRAMIN_SPACE {
        return EINVAL;
      }
      if window.IsDead() {
        return EOPNOTSUPP;
      }
      if window.target != target {
        if WindowIsVidOnly() {
          return EOPNOTSUPP;
        }
      } else {
        var praminBase := 0x1_0000 * window.base;
        if praminBase <= addr < praminBase + PRAMIN_LEN {
          return addr - praminBase;
        }
      }
      window := window.(base := addr / 0x1_0000, target := target);
      return addr % 0x1_0000;
    }

    // A window that shows `addr` together with the 64 KiB around it shows the whole page.
    lemma WindowShowsPage(off: int, addr: nat)
      requires off >= 0 && window.Behind(off) == Loc(true, addr)
      requires 0 <= off - addr % 0x1_0000 && off - addr % 0x1_0000 + 0x1_0000 <= PRAMIN_LEN
      ensures HitsPage(Pramin(off), Loc(true, addr))
    {
      Nested(addr);
    }

    method PdDeref(addr: U64, target: U3) returns (k: Kva)
      modifies `window
      ensures TheEnv() == old(TheEnv())
      ensures match Resolve(TheEnv(), addr, target)
              case Fails(err) => k == Bad(err)
              case Unmapped => k == Null
              case At(l) => (k.Pramin? || k.Sys?) && HitsPage(k, l)
    {
      if target % 2 == 1 || target == 0 || addr == 0 {
        return Bad(EINVAL);
      }
      if target == 2 {
        var off := AddrToPraminMut(addr, VID_MEM);
        if off < 0 {
          return Bad(off);
        }
        WindowShowsPage(off, addr);
        return Pramin(off);
      }
      if iommu && addr / PAGE !in dmaMapped {
        return Null;
      }
      return Sys(addr);
    }

    // Where entry `i` of the directory at `next` can be accessed.
    lemma EntryHits(k: Kva, vid: bool, next: nat, level: Level, i: nat)
      requires next % PAGE == 0 && i < Entries(level) && HitsPage(k, Loc(vid, TableBase(next, level)))
      ensures Hits(k.Plus(EntrySize(level) * i), Slot(Loc(vid, next), level, i))
      ensures level == 3 ==> Hits(k.Plus(16 * i).Plus(-8), Loc(vid, next + 16 * i))
    {
      EntryInPage(next, level, i);
      hide Hits, Slot, TableBase;
      assert level == 3 ==> k.Plus(16 * i).Plus(-8) == k.Plus(16 * i - 8);
    }

    method EntryKva(next: U64, target: U3, level: Level, i: nat) returns (k: Kva)
      requires next % PAGE == 0 && i < Entries(level)
      modifies `window
      ensures TheEnv() == old(TheEnv())
      ensures match Resolve(TheEnv(), TableBase(next, level), target)
              case Fails(err) => k == Bad(err)
              case Unmapped => k == Null
              case At(l) =>
                && Hits(k, Slot(Loc(l.vid, next), level, i))
                && (level == 3 ==> Hits(k.Plus(-8), Loc(l.vid, next + 16 * i)))
    {
      hide Slot;
      EntryInPage(next, level, i);
      var base := if EntrySize(level) == 16 then next + 8 else next;
      assert base < 0x1_0000_0000_0000_0000 && base == TableBase(next, level);
      k := PdDeref(base, target);
      hide HitsPage, Hits;
      if !k.Bad? && !k.Null? {
        EntryHits(k, target == 2, next, level, i);
      }
      k := k.Plus(EntrySize(level) * i);
    }

    method Readq(k: Kva, ghost l: Loc) returns (e: Entry)
      requires Hits(k, l)
      ensures e == Read(mem, l)
    {
      match k
      case Pramin(off) => e := Read(mem, window.Behind(off));
      case Sys(a) => e := Read(mem, Loc(false, a));
    }

    method Writeq(e: Entry, k: Kva, ghost l: Loc)
      requires Hits(k, l)
      modifies `mem
      ensures mem == old(mem)[l := e]
    {
      match k
      case Pramin(off) => mem := mem[window.Behind(off) := e];
      case Sys(a) => mem := mem[Loc(false, a) := e];
    }

    method TranslatePageDirectory(pd: PdConfig, v: U64) returns (ret: int, addr: nat, aperture: U2)
      requires pd.pageDir < 0x10_0000_0000_0000
      modifies `window
      ensures TheEnv() == old(TheEnv())
      ensures Translated(ret, addr, aperture) == Translate(mem, TheEnv(), pd, v)
    {
      hide WalkFrom, Resolve, Slot, Read, Index;
      addr, aperture := 0, INVALID;
      if v % PAGE != 0 {
        return EINVAL, addr, aperture;
      }
      var next: nat := pd.Next();
      var nextTarget := ToPdTarget(pd.target);
      var level := 0;
      while level < 5
        invariant level <= 5 && next % PAGE == 0 && next < 0x1_0000_0000_0000_0000
        invariant TheEnv() == old(TheEnv())
        invariant WalkFrom(mem, TheEnv(), next, nextTarget, level, v) == Walk(mem, TheEnv(), pd, v)
      {
        var idx := Index(v, level);
        TranslateStep(mem, TheEnv(), next, nextTarget, level, v);
        var kva := EntryKva(next, nextTarget, level, idx);
        if kva.Bad? {
          return kva.err, addr, aperture;
        }
        if kva.Null? {
          return 0, addr, aperture;
        }
        ghost var at := Resolve(TheEnv(), TableBase(next, level), nextTarget).loc;
        var entry := Readq(kva, Slot(Loc(at.vid, next), level, idx));
        if entry.IsInvalid() {
          return ENXIO, addr, aperture;
        }
        if entry.IsPte() {
          return 0, PAGE * entry.addr, entry.Aperture();
        }
        next, nextTarget, level := PAGE * entry.addr, entry.target, level + 1;
      }
      TranslateEnd(mem, TheEnv(), next, nextTarget, v);
      return 0, addr, aperture;
    }

    ghost predicate Valid()
      reads this
    {
      Sound(mem, tree, pdAllocs)
    }

    // The driver is loaded: whatever tables it finds, it has not allocated anything yet.
    constructor (chipId: nat, iommu: bool, mem: Mem, window: Window, dmaMapped: set<nat>, ghost tree: Tree)
      requires WellFormed(mem, tree)
      ensures this.chipId == chipId && this.iommu == iommu && this.mem == mem && this.window == window
      ensures this.dmaMapped == dmaMapped && this.tree == tree && pdAllocs == []
      ensures Valid() && AllAttached(mem, tree, pdAllocs) && ParentsReach(TheEnv(), pdAllocs)
    {
      this.chipId, this.iommu, this.mem, this.window, this.dmaMapped := chipId, iommu, mem, window, dmaMapped;
      this.pdAllocs := [];
      this.tree := tree;
    }

    // Reverse search.

    method ReadPde(pdeAddr: nat, target: U3, level: Level, ghost p: Place, ghost i: nat) returns (e: Entry)
      requires p.Ok() && level == p.level && target == p.target && i < Entries(level)
      requires pdeAddr == p.next + EntrySize(level) * i
      modifies `window
      ensures TheEnv() == old(TheEnv())
      ensures e == p.EntryAt(mem, TheEnv(), i)
    {
      hide Resolve;
      var addr := if EntrySize(level) == 16 then pdeAddr + 8 else pdeAddr;
      assert addr == EntryAddr(p.next, level, i) < 0x1_0000_0000_0000_0000;
      var pdeKern := PdDeref(addr, target);
      if pdeKern.Bad? || pdeKern.Null? {
        return ZERO;
      }
      ghost var at := Resolve(TheEnv(), addr, target).loc;
      AtItself(addr, target);
      EntryInPage(p.next, level, i);
      Digit(addr, PAGE, addr - p.next, p.next / PAGE);
      assert Hits(pdeKern.Plus(0), at);
      e := Readq(pdeKern, at);
    }

    lemma AtItself(addr: nat, target: U3)
      ensures var at := Resolve(TheEnv(), addr, target); at.At? ==> at.loc.addr == addr
    {
    }

    method SearchSubtree(pdeAddr: nat, target: U3, find: nat, ap: U2, level: Level, ghost p: Place, ghost i: nat)
      returns (res: nat)
      requires p.Ok() && level == p.level && target == p.target && i < Entries(level)
      requires pdeAddr == p.next + EntrySize(level) * i
      requires NoneTooDeep(mem, TheEnv(), p, p.Start(i), p.Start(i) + Span(level))
      modifies `window
      ensures TheEnv() == old(TheEnv())
      ensures LeastHit(mem, TheEnv(), p, i, Found(find, ap), res)
      decreases 5 - level
    {
      hide LeastHit, NoHit, NoneTooDeep, Index, Cover, Span, Read, Place.EntryAt, Place.Sees, Place.Ok, Place.Start;
      ghost var m, env, hit := mem, TheEnv(), Found(find, ap);
      var entry := ReadPde(pdeAddr, target, level, p, i);
      if entry.IsInvalid() {
        LeafHit(m, env, p, i, hit, 0);
        return 0;
      }
      if entry.IsPte() {
        res := if PAGE * entry.addr == find && entry.Aperture() == ap then 1 else 0;
        LeafHit(m, env, p, i, hit, res);
        return res;
      }
      BelowEntry(m, env, p, i);
      ghost var c := p.Below(entry, i);
      NoHitBefore(m, env, c, c.base, hit);
      ChildRange(c);
      var j := 0;
      while j < Entries(level + 1)
        invariant j <= Entries(level + 1) && TheEnv() == env
        invariant NoHit(m, env, c, c.base, c.Start(j), hit)
      {
        var next := PAGE * entry.addr + EntrySize(level + 1) * j;
        ChildNotTooDeep(m, env, p, i, j);
        res := SearchSubtree(next, entry.target, find, ap, level + 1, c, j);
        ChildHit(m, env, p, i, j, hit, res);
        if res > 0 {
          return OrDisjoint(res, j * Span(level + 1), Span(level + 1));
        }
        j := j + 1;
      }
      NoChildHit(m, env, p, i, hit);
      return 0;
    }

    // The answer is about what translation sees, for any table that the search does not read beyond.
    method SearchPageDirectory(pd: PdConfig, find: U64, ap: U2) returns (res: nat)
      requires IsSearchable(mem, TheEnv(), pd) && pd.pageDir < 0x10_0000_0000_0000
      modifies `window
      ensures TheEnv() == old(TheEnv())
      ensures IsAnswer(mem, TheEnv(), pd, find, ap, res)
    {
      hide IsAnswer, IsSearchable, NoHit, NoneTooDeep, LeastHit, Seen, Read, Place.Ok, Place.Start;
      if find % PAGE != 0 {
        NoAnswer(mem, TheEnv(), pd, find, ap);
        return 0;
      }
      ghost var m, env, p, hit := mem, TheEnv(), RootPlace(pd), Found(find, ap);
      NoHitBefore(m, env, p, 0, hit);
      var i := 0;
      while i < Entries(0)
        invariant i <= Entries(0) && TheEnv() == env
        invariant NoHit(m, env, p, 0, i * Span(0), hit)
      {
        RootEntry(m, env, pd, i);
        var r := SearchSubtree(pd.Next() + EntrySize(0) * i, ToPdTarget(pd.target), find, ap, 0, p, i);
        if r > 0 {
          TopHit(m, env, pd, i, r, find, ap);
          return OrDisjoint(r - r % PAGE, i * Span(0), Span(0));
        }
        TopMiss(m, env, pd, i, hit);
        i := i + 1;
      }
      NothingFound(m, env, pd, find, ap);
      return 0;
    }

    // Mapping.

    // Allocates the zeroed page `frame` as the directory below entry `idx` of the one at `next`.
    method LinkNew(kva: Kva, entry: Entry, next: nat, target: U3, level: Level, idx: nat, frame: nat, ghost d: Loc)
      returns (e: Entry)
      requires Sound(mem, tree, pdAllocs) && IsFresh(tree, frame)
      requires d in tree && d.addr == next && tree[d].level == level < 4 && idx < Entries(level)
      requires TargetFits(target, d) && Hits(kva, Slot(d, level, idx))
      requires entry == EntryAt(mem, tree, d, idx) && entry.IsInvalid()
      modifies `mem, `dmaMapped, `pdAllocs, `tree
      ensures Sound(mem, tree, pdAllocs)
      ensures TheEnv() == old(TheEnv()).(mapped := old(TheEnv()).mapped + {frame})
      ensures IsPde(e) && e.target == 4 && e.vol && e.noAts && e.Child() == Loc(false, PAGE * frame)
      ensures mem == ZeroPage(old(mem), e.Child())[Slot(d, level, idx) := e]
      ensures tree == old(tree)[e.Child() := ChildNode(d, old(tree)[d], idx)]
      ensures |pdAllocs| > 0 && pdAllocs[1..] == old(pdAllocs)
      ensures pdAllocs[0].ParentSlot() == Slot(d, level, idx) && pdAllocs[0].dmaAddr == PAGE * frame
      ensures Links(old(mem), mem, old(tree), d, idx, e.Child())
    {
      hide Sound, Links, IsFresh, Read, EmptyDir, PageOf, Reaches;
      LinkIsSound(mem, tree, pdAllocs, d, idx, target, frame);
      NewEntryChild(entry, frame);
      var dma := PAGE * frame;
      mem := ZeroPage(mem, Loc(false, dma));
      dmaMapped := dmaMapped + {frame};
      var parentAddr := (if EntrySize(level) == 16 then next + 8 else next) + EntrySize(level) * idx;
      pdAllocs := [PdPage(parentAddr, target, dma)] + pdAllocs;
      e := NewEntry(entry, dma / PAGE);
      tree := tree[e.Child() := ChildNode(d, tree[d], idx)];
      Writeq(e, kva, Slot(d, level, idx));
    }

    // As LinkNew, as a step of the mapping loop.
    method LinkOnWalk(kva: Kva, entry: Entry, next: nat, target: U3, level: Level, idx: nat, frame: nat,
                      ghost d: Loc, ghost s: Start, ghost k: nat, ghost env0: Env) returns (e: Entry)
      requires Sound(mem, tree, pdAllocs) && Walking(s, mem, tree, pdAllocs, k, d) && level < s.q.Last()
      requires WalkReach(s, env0, TheEnv(), mem, tree, pdAllocs, k, d) && Reaches(TheEnv(), d)
      requires k < |s.pool| && s.pool[k] == Page(frame)
      requires d.addr == next && tree[d].level == level && idx == Index(s.q.v, level)
      requires TargetFits(target, d) && Hits(kva, Slot(d, level, idx))
      requires entry == EntryAt(mem, tree, d, idx) && entry.IsInvalid()
      modifies `mem, `dmaMapped, `pdAllocs, `tree
      ensures Sound(mem, tree, pdAllocs)
      ensures IsPde(e) && TargetFits(e.target, e.Child()) && e.Child().addr == NextAddr(e)
      ensures Walking(s, mem, tree, pdAllocs, k + 1, e.Child())
      ensures WalkReach(s, env0, TheEnv(), mem, tree, pdAllocs, k + 1, e.Child())
      ensures e.Child() in tree && tree[e.Child()].level == level + 1
    {
      ghost var m, t, ps, env := mem, tree, pdAllocs, TheEnv();
      WalkingEnd(s, m, t, ps, k, d);
      assert IsFresh(tree, s.pool[k..][0].frame);
      hide Walking, WalkReach, IsFresh, Index, Reaches;
      e := LinkNew(kva, entry, next, target, level, idx, frame, d);
      WalkingLink(s, m, t, ps, k, d, mem, tree, pdAllocs);
      ReachLink(s, env0, env, m, t, ps, k, d, mem, tree, pdAllocs);
    }

    // Writes the leaf; a 2 MiB page needs it in both halves of the 16-byte entry.
    method WriteLeaf(kva: Kva, leaf: Entry, level: Level, idx: nat,
                     ghost d: Loc, ghost s: Start, ghost k: nat, ghost env0: Env)
      requires d in tree && level == tree[d].level == s.q.Last() && idx == Index(s.q.v, level) && !s.q.IsBad()
      requires Sound(mem, tree, pdAllocs) && Walking(s, mem, tree, pdAllocs, k, d)
      requires WalkReach(s, env0, TheEnv(), mem, tree, pdAllocs, k, d) && Reaches(TheEnv(), d)
      requires Hits(kva, Slot(d, level, idx)) && (level == 3 ==> Hits(kva.Plus(-8), Loc(d.vid, d.addr + 16 * idx)))
      requires EntryAt(mem, tree, d, idx).IsInvalid() && leaf == s.q.Leaf(EntryAt(mem, tree, d, idx))
      modifies `mem
      ensures Sound(mem, tree, pdAllocs) && TheEnv() == old(TheEnv())
      ensures MapCalled(s, env0, 0, TheEnv(), mem, tree, pdAllocs)
    {
      ghost var m, t, ps := mem, tree, pdAllocs;
      hide Walking, WalkReach, MapDone, MapCalled, WellFormed, AllTracked, Index, Slot, Request.Leaf, Hits, Kva.Plus;
      hide Reaches, EntryOk, GrowsList, Request.IsBad, AllocReturn, MapReturn, StopFrom, EntryReturn, Read;
      WalkingEnd(s, m, t, ps, k, d);
      if level == 3 {
        Writeq(leaf, kva.Plus(-8), Loc(d.vid, d.addr + 16 * idx));
      }
      Writeq(leaf, kva, Slot(d, level, idx));
      LeafWritten(s, env0, TheEnv(), m, t, ps, k, d, mem);
    }

    method OccupiedReturn(q: Request, entry: Entry) returns (ret: int)
      requires entry.IsPte() && q.paddr % PAGE == 0 && q.target != INVALID
      ensures ret == if entry.Aperture() == q.target && entry.Frame() == q.paddr then 1 else EADDRINUSE
    {
      if entry.Aperture() != q.target {
        return EADDRINUSE;
      }
      if entry.Aperture() == VID_MEM {
        return if entry.addr == q.paddr / PAGE then 1 else EADDRINUSE;
      }
      return if entry.Wide() == q.paddr / PAGE then 1 else EADDRINUSE;
    }

    method MapPageDirectory(pd: PdConfig, q: Request, pool: seq<Outcome>) returns (ret: int)
      requires Valid() && IsRoot(tree, pd.Root()) && pd.target != INVALID && FreshPool(tree, pool)
      requires pd.pageDir < 0x10_0000_0000_0000
      modifies `mem, `window, `dmaMapped, `pdAllocs, `tree
      ensures Valid()
      ensures var before := Start(old(mem), old(tree), old(pdAllocs), pd.Root(), q, pool);
              MapCalled(before, old(TheEnv()), ret, TheEnv(), mem, tree, pdAllocs)
    {
      hide Walking, WalkReach, MapDone, MapCalled, Sound, IsFresh, FreshPool, Index, WellFormed, Resolve;
      hide NextAddr, Slot, Read, TableBase, Request.IsBad, Request.Leaf, Entry.Frame, Entry.Wide, StopFrom, AllocReturn;
      hide Reaches, DirAt;
      ghost var s, env0 := Start(mem, tree, pdAllocs, pd.Root(), q, pool), TheEnv();
      if q.IsBad() {
        BadCall(s, env0);
        return EINVAL;
      }
      ghost var d := pd.Root();
      WalkingStart(s);
      ReachStart(s, env0);
      GoodRequest(q);
      RootTarget(pd);
      hide TargetFits;
      var next: nat, nextTarget, level: nat, k := pd.Next(), ToPdTarget(pd.target), 0, 0;
      while level < 5
        invariant Sound(mem, tree, pdAllocs) && Walking(s, mem, tree, pdAllocs, k, d)
        invariant WalkReach(s, env0, TheEnv(), mem, tree, pdAllocs, k, d)
        invariant d.addr == next <= TOP_PAGE && TargetFits(nextTarget, d) && d in tree && level == tree[d].level
      {
        WalkingLook(s, TheEnv(), mem, tree, pdAllocs, k, d, nextTarget);
        var idx := Index(q.v, level);
        var kva := EntryKva(next, nextTarget, level, idx);
        if kva.Bad? || kva.Null? {
          CutOffCall(s, env0, TheEnv(), mem, tree, pdAllocs, k, d);
          return ENOTRECOVERABLE;
        }
        var entry := Readq(kva, Slot(d, level, idx));
        if entry.IsInvalid() {
          if level == 4 || (q.huge && level == 3) {
            WriteLeaf(kva, q.Leaf(entry), level, idx, d, s, k, env0);
            return 0;
          }
          if k == |pool| || !pool[k].Page? {
            ret := if k < |pool| && pool[k].DmaError? then pool[k].err else ENOMEM;
            StoppedCall(s, env0, TheEnv(), mem, tree, pdAllocs, k, d, ret);
            return;
          }
          entry := LinkOnWalk(kva, entry, next, nextTarget, level, idx, pool[k].frame, d, s, k, env0);
          k := k + 1;
        } else if entry.IsPte() {
          ret := OccupiedReturn(q, entry);
          StoppedCall(s, env0, TheEnv(), mem, tree, pdAllocs, k, d, ret);
          return;
        } else {
          if q.huge && level == 3 {
            ret := EADDRINUSE;
            StoppedCall(s, env0, TheEnv(), mem, tree, pdAllocs, k, d, ret);
            return;
          }
          StepDown(s, env0, TheEnv(), mem, tree, pdAllocs, k, d);
        }
        NextIsChild(entry);
        next := NextAddr(entry);
        nextTarget := entry.target;
        d := entry.Child();
        level := level + 1;
      }
      assert false; // the ENOTRECOVERABLE after the loop is unreachable
    }

    // Unmaps, zeroes, untracks and frees the page at list position `i`.
    method FreePage(i: nat)
      requires i < |pdAllocs|
      modifies `mem, `dmaMapped, `pdAllocs
      ensures mem == ZeroPage(old(mem), old(pdAllocs)[i].Dir())
      ensures TheEnv() == old(TheEnv()).(mapped := old(TheEnv()).mapped - {old(pdAllocs)[i].dmaAddr / PAGE})
      ensures pdAllocs == old(pdAllocs)[..i] + old(pdAllocs)[i + 1..]
    {
      var page := pdAllocs[i];
      dmaMapped := dmaMapped - {page.dmaAddr / PAGE};
      mem := ZeroPage(mem, page.Dir());
      pdAllocs := pdAllocs[..i] + pdAllocs[i + 1..];
    }

    // The recorded parent entry of a tracked page, or zero if its page is no longer mapped.
    method ReadParent(page: PdPage) returns (kva: Kva, entry: Entry)
      requires page.parentAddr < 0x1_0000_0000_0000_0000 && page.parentAddr % PAGE <= PAGE - 8
      modifies `window
      ensures TheEnv() == old(TheEnv())
      ensures entry == SeenEntry(TheEnv(), mem, page)
      ensures match Resolve(TheEnv(), page.parentAddr, page.parentAperture)
              case Fails(err) => kva == Bad(err)
              case Unmapped => kva == Null
              case At(l) => l == page.ParentSlot() && !kva.Bad? && Hits(kva, l)
    {
      AtParent(TheEnv(), page);
      hide Resolve;
      kva := PdDeref(page.parentAddr, page.parentAperture);
      entry := ZERO;
      if !kva.Null? && !kva.Bad? {
        assert Hits(kva.Plus(0), page.ParentSlot());
        entry := Readq(kva, page.ParentSlot());
      }
    }

    // Frees the tracked pages that are no longer in use, or with `force` all of them, from the oldest on
    // up to one whose parent entry cannot be resolved.
    method GcPageDirectory(force: bool) returns (ret: int)
      requires Valid()
      modifies `mem, `window, `dmaMapped, `pdAllocs, `tree
      ensures var before := Pass(old(TheEnv()), old(mem), old(tree), old(pdAllocs), force);
              && PassRan(before, ret, TheEnv(), mem, tree, pdAllocs)
              && (before.Good() ==> Valid() && PassDone(before, ret, TheEnv(), mem, tree, pdAllocs))
    {
      ghost var s := Pass(TheEnv(), mem, tree, pdAllocs, force);
      hide PassDone, PassRan, WellFormed, AllTracked, Pass.MemAt, Pass.EnvAt, Pass.Survivors, Pass.List, Resolve;
      hide Names, PointsTo, Cleared, PageOf, Read, ZeroPage, Pass.TreeAfter, Pass.Survives, Pass.Done;
      hide Pass.Keeps, Pass.Points, Pass.Fails, Pass.Good, SeenEntry, Hits, HitsPage, Kva.Plus, Entry.Wide;
      hide PdPage.ParentSlot, PdPage.Dir;
      var freedPages := 0;
      var i := |pdAllocs|;
      PassStart(s);
      while i > 0
        invariant s.Done() <= i <= |s.ps| && pdAllocs == s.List(i)
        invariant freedPages == |s.ps| - |pdAllocs|
        invariant s.MemAt(i, mem) && s.EnvAt(i, TheEnv()) && tree == s.t
      {
        i := i - 1;
        Decide(s, i, TheEnv(), mem);
        var page := pdAllocs[i];
        var parentKva, parentEntry := ReadParent(page);
        if parentKva.Bad? {
          tree := s.TreeAfter();
          PassEnds(s, TheEnv(), mem);
          return ENOTRECOVERABLE;
        }
        if parentEntry.Wide() == page.dmaAddr / PAGE && !force {
          RoundKeeps(s, i, TheEnv(), mem);
          continue;
        }
        RoundFrees(s, i, TheEnv(), mem);
        if parentEntry.Wide() == page.dmaAddr / PAGE {
          Writeq(ZERO, parentKva, page.ParentSlot());
        }
        FreePage(i);
        freedPages := freedPages + 1;
      }
      tree := s.TreeAfter();
      PassEnds(s, TheEnv(), mem);
      return freedPages;
    }
  }
}
