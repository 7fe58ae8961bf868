// Mapping and collection: what they are asked for, what they return, and the effect of their
// single steps on the tree and on every translation.
module Mapping {
  import opened Wrappers
  import opened GpuMemory
  import opened PageTable
  import opened Translation

  // A request to map one 4 KiB or 2 MiB page.
  datatype Request = Request(v: U64, paddr: U64, target: U2, huge: bool) {
    function Last(): Level { if huge then 3 else 4 }

    function Size(): nat { Span(Last()) }

    predicate IsBad() {
      || v % PAGE != 0 || paddr % PAGE != 0
      || (huge && (v % Span(3) != 0 || paddr % Span(3) != 0))
      || v >= VSPACE
      || (target == VID_MEM && paddr >= NARROW)
      || (target >= 2 && paddr >= 0x400_0000_0000_0000)
      || target == INVALID
    }

    // The leaf entry for this request, made out of an invalid entry.
    function Leaf(entry: Entry): Entry
      requires paddr < 0x400_0000_0000_0000
    {
      var e := entry.(target := 1 + 2 * target, vol := true);
      if target == VID_MEM then e.(addr := paddr / PAGE % 0x100_0000) else e.WithWide(paddr / PAGE)
    }
  }

  lemma GoodRequest(q: Request)
    requires !q.IsBad()
    ensures q.paddr < 0x400_0000_0000_0000 && q.paddr % PAGE == 0 && q.target != INVALID
  {
  }

  lemma LeafMaps(q: Request, e: Entry)
    requires !q.IsBad() && e.IsInvalid()
    ensures q.Leaf(e).IsPte() && q.Leaf(e).Frame() == q.paddr && q.Leaf(e).Aperture() == q.target && q.Leaf(e).vol
  {
  }

  // Conversely, what some page entry can hold is what a request may ask for: an aperture, and a frame as wide
  // as entries with that aperture have.

  ghost predicate IsPageEntry(e: Entry, paddr: nat, target: U2) {
    e.IsPte() && e.Aperture() == target && target != INVALID && e.Frame() == paddr
  }

  ghost predicate HasPageEntry(paddr: nat, target: U2) { exists e: Entry :: IsPageEntry(e, paddr, target) }

  // The pages asked for are whole pages, in the 49 bits of the virtual address space.
  predicate IsAligned(q: Request) {
    var size := if q.huge then 0x20_0000 else 0x1000;
    q.v % size == 0 && q.paddr % size == 0 && q.v < 0x2_0000_0000_0000
  }

  lemma GoodExactly(q: Request)
    ensures !q.IsBad() <==> IsAligned(q) && HasPageEntry(q.paddr, q.target)
  {
    AlignedPages(q.v);
    AlignedPages(q.paddr);
    hide Entry.Frame;
    if !q.IsBad() {
      LeafMaps(q, ZERO);
      assert IsPageEntry(q.Leaf(ZERO), q.paddr, q.target);
    }
    if e: Entry :| IsPageEntry(e, q.paddr, q.target) {
      FrameRange(e);
    }
  }

  lemma AlignedPages(a: nat)
    ensures a % 0x20_0000 == 0 ==> a % 0x1000 == 0
  {
    var k := a / 0x20_0000;
    if a == 0x20_0000 * k { Digit(a, PAGE, 0, 512 * k); }
  }

  lemma FrameRange(e: Entry)
    requires e.Aperture() != INVALID
    ensures e.Frame() % PAGE == 0 && e.Frame() < if e.Aperture() == VID_MEM then NARROW else 0x400_0000_0000_0000
  {
  }

  // Where the walk for `v` ends when it may go no deeper than level `last`.
  datatype Stop = Stop(level: Level, entry: Entry)

  function StopFrom(m: Mem, d: Loc, l: Level, v: nat, last: Level): (s: Stop)
    requires l <= last
    ensures l <= s.level <= last
    decreases last - l
  {
    var e := Read(m, Slot(d, l, Index(v, l)));
    if IsPde(e) && l < last then StopFrom(m, e.Child(), l + 1, v, last) else Stop(l, e)
  }

  // What the kernel answers to the requests for a new, bus-addressable page, in order.
  type Errno = e: int | e < 0 witness EINVAL

  datatype Outcome = OutOfMemory | DmaError(err: Errno) | Page(frame: nat)

  function AllocReturn(pool: seq<Outcome>, n: nat): int {
    if n == 0 then 0
    else if pool == [] then ENOMEM
    else match pool[0]
      case OutOfMemory => ENOMEM
      case DmaError(err) => err
      case Page(_) => AllocReturn(pool[1..], n - 1)
  }

  function EntryReturn(q: Request, s: Stop, pool: seq<Outcome>): int
    requires s.level <= q.Last()
  {
    if s.entry.IsInvalid() then AllocReturn(pool, q.Last() - s.level)
    else if s.entry.IsPte() && s.entry.Aperture() == q.target && s.entry.Frame() == q.paddr then 1
    else EADDRINUSE
  }

  function MapReturn(m: Mem, root: Loc, q: Request, pool: seq<Outcome>): int {
    if q.IsBad() then EINVAL
    else EntryReturn(q, StopFrom(m, root, 0, q.v, q.Last()), pool)
  }

  // What the return value says about the translation of the requested address.

  lemma {:induction false} StopLookup(m: Mem, t: Tree, d: Loc, v: nat, last: Level)
    requires WellFormed(m, t) && d in t && InDir(t, d, v) && t[d].level <= last
    ensures var s, r := StopFrom(m, d, t[d].level, v, last), LookupFrom(m, d, t[d].level, v);
            && (s.entry.IsInvalid() ==> r == NotMapped)
            && (s.entry.IsPte() ==> r == Mapped(s.entry.Frame(), s.entry.Aperture(), s.level))
            && (IsPde(s.entry) ==> s.level == last && last < 4)
    decreases 4 - t[d].level
  {
    hide Index, Span, Cover, InDir, InEntry, NodeOk;
    WalkStep(m, t, d, v);
    var e := EntryAt(m, t, d, Index(v, t[d].level));
    if IsPde(e) && t[d].level < last {
      StopLookup(m, t, e.Child(), v, last);
    }
  }

  // The walk stops at the deepest directory on the path that it may look at.
  lemma {:induction false} StopIsOnPath(m: Mem, root: Loc, v: nat, l: Level, last: Level)
    requires l <= last && DirAt(m, root, v, l).Some?
    ensures var s := StopFrom(m, DirAt(m, root, v, l).value, l, v, last);
            && DirAt(m, root, v, s.level).Some? && (IsPde(s.entry) ==> s.level == last)
            && (s.level < 4 ==> (DirAt(m, root, v, s.level + 1).Some? <==> IsPde(s.entry)))
    decreases last - l
  {
    hide Index, Slot, Read, Entry.Child;
    var d := DirAt(m, root, v, l).value;
    if IsPde(Read(m, Slot(d, l, Index(v, l)))) && l < last { StopIsOnPath(m, root, v, l + 1, last); }
  }

  lemma {:induction false} PathAbove(m: Mem, root: Loc, v: nat, l: Level, k: Level)
    requires k <= l && DirAt(m, root, v, l).Some?
    ensures DirAt(m, root, v, k).Some?
    decreases l
  {
    if k < l { PathAbove(m, root, v, l - 1, k); }
  }

  // The deepest directory that exists for a request is at level `l`.
  ghost predicate Deepest(m: Mem, root: Loc, q: Request, l: Level) {
    l <= q.Last() && DirAt(m, root, q.v, l).Some? && (l < q.Last() ==> DirAt(m, root, q.v, l + 1).None?)
  }

  // What a request on a well-formed table returns: it depends on how the address translates now, on
  // whether small pages were ever mapped around a 2 MiB page, and on how many directories are missing.
  lemma ReturnMeans(m: Mem, t: Tree, root: Loc, q: Request, pool: seq<Outcome>)
    requires WellFormed(m, t) && IsRoot(t, root) && !q.IsBad()
    ensures var ret, r := MapReturn(m, root, q, pool), Lookup(m, root, q.v);
      if q.huge && DirAt(m, root, q.v, 4).Some? then ret == EADDRINUSE
      else if r.Mapped? then ret == if r.frame == q.paddr && r.aperture == q.target then 1 else EADDRINUSE
      else exists l: Level :: Deepest(m, root, q, l) && ret == AllocReturn(pool, q.Last() - l)
  {
    RootIn(m, t, root, q.v);
    hide WellFormed, InDir, Index, Slot, Read, NodeOk, LookupFrom, StopFrom, AllocReturn;
    StopLookup(m, t, root, q.v, q.Last());
    StopIsOnPath(m, root, q.v, 0, q.Last());
    var s := StopFrom(m, root, 0, q.v, q.Last());
    if q.huge && DirAt(m, root, q.v, 4).Some? {
      PathAbove(m, root, q.v, 4, s.level + 1);
    } else if s.entry.IsInvalid() {
      assert Deepest(m, root, q, s.level);
    }
  }

  // The answers 1 and -EADDRINUSE are about the page's frame, not about the address in it. They are
  // right (1 if the address denotes what was asked for, else -EADDRINUSE) unless the address lies past
  // the start of a 2 MiB page, and either that page's frame or the true address in it was asked for.
  lemma ReturnExact(m: Mem, t: Tree, root: Loc, q: Request, pool: seq<Outcome>)
    requires WellFormed(m, t) && IsRoot(t, root) && !q.IsBad() && Lookup(m, root, q.v).Mapped?
    requires !(q.huge && DirAt(m, root, q.v, 4).Some?)
    ensures var ret, r := MapReturn(m, root, q, pool), Lookup(m, root, q.v);
      ret == (if Physical(r, q.v) == q.paddr && r.aperture == q.target then 1 else EADDRINUSE) <==>
        !(q.v % Span(r.level) > 0 && r.aperture == q.target && q.paddr in {r.frame, Physical(r, q.v)})
  {
    assert Span(Lookup(m, root, q.v).level) > 0;
    hide WellFormed, Lookup, MapReturn, Span;
    ReturnMeans(m, t, root, q, pool);
  }

  // The kernel hands out `i` pages, and then none.
  predicate FailsFirst(pool: seq<Outcome>, i: nat) {
    && i <= |pool| && (forall j | 0 <= j < i :: pool[j].Page?)
    && (i < |pool| ==> !pool[i].Page?)
  }

  // Allocation succeeds exactly if the kernel hands out as many pages as directories are missing.
  // Otherwise it yields what the first failure says.
  lemma {:induction false} AllocSucceeds(pool: seq<Outcome>, n: nat)
    ensures AllocReturn(pool, n) <= 0
    ensures AllocReturn(pool, n) == 0 <==> n <= |pool| && forall i | 0 <= i < n :: pool[i].Page?
    ensures forall i | 0 <= i < n && FailsFirst(pool, i) ::
      AllocReturn(pool, n) == if i < |pool| && pool[i].DmaError? then pool[i].err else ENOMEM
  {
    if n > 0 && pool != [] && pool[0].Page? {
      AllocSucceeds(pool[1..], n - 1);
      forall i | 0 <= i < n && FailsFirst(pool, i)
        ensures AllocReturn(pool, n) == if i < |pool| && pool[i].DmaError? then pool[i].err else ENOMEM
      {
        assert forall j | 0 <= j < i - 1 :: pool[1..][j] == pool[j + 1];
        assert FailsFirst(pool[1..], i - 1);
      }
      assert forall i | 1 <= i < n && n <= |pool| :: pool[i] == pool[1..][i - 1];
      assert forall i | 0 <= i < n - 1 && n <= |pool| :: pool[1..][i] == pool[i + 1];
    }
  }

  // Directories allocated by mapping, as recorded in struct page. The list is newest first.
  datatype PdPage = PdPage(parentAddr: nat, parentAperture: U3, dmaAddr: nat) {
    function ParentSlot(): Loc { Loc(parentAperture == 2, parentAddr) }

    function Dir(): Loc { Loc(false, dmaAddr) }
  }

  ghost predicate IsTracked(t: Tree, p: PdPage) {
    && p.dmaAddr % PAGE == 0 && p.dmaAddr > 0
    && p.Dir() in t && t[p.Dir()].parent == Some(p.ParentSlot())
    && PageOf(p.ParentSlot()) != p.Dir()
    && p.parentAperture in {2, 4, 6} && 0 < p.parentAddr < 0x1_0000_0000_0000_0000
    && p.parentAddr % PAGE <= PAGE - 8
  }

  // No directory is listed twice, and parents are always older than children.
  ghost predicate OldestLast(ps: seq<PdPage>) {
    forall i, j | 0 <= i < j < |ps| ::
      ps[i].dmaAddr != ps[j].dmaAddr && PageOf(ps[j].ParentSlot()) != ps[i].Dir()
  }

  ghost predicate AllTracked(t: Tree, ps: seq<PdPage>) {
    (forall p | p in ps :: IsTracked(t, p)) && OldestLast(ps)
  }

  // The directories that hold the recorded parent entries can be accessed.
  ghost predicate ParentsReach(env: Env, ps: seq<PdPage>) {
    forall p | p in ps :: Reaches(env, PageOf(p.ParentSlot()))
  }

  // Those of them in system memory that are still part of the tree can.
  ghost predicate ParentsMapped(env: Env, t: Tree, ps: seq<PdPage>) {
    forall p | p in ps && !p.ParentSlot().vid && PageOf(p.ParentSlot()) in t :: Reaches(env, PageOf(p.ParentSlot()))
  }

  // The recorded parent entry of `p` points to it.
  predicate IsLinked(m: Mem, p: PdPage) {
    IsPde(Read(m, p.ParentSlot())) && Read(m, p.ParentSlot()).Child() == p.Dir()
  }

  // A frame that the kernel can hand out: not a directory, and holding no directory's parent entry.
  ghost predicate IsFresh(t: Tree, frame: nat) {
    && 0 < frame < 0x4000_0000_0000
    && Loc(false, PAGE * frame) !in t
    && forall d | d in t && t[d].parent.Some? :: PageOf(t[d].parent.value) != Loc(false, PAGE * frame)
  }

  ghost predicate FreshPool(t: Tree, pool: seq<Outcome>) {
    && (forall i | 0 <= i < |pool| && pool[i].Page? :: IsFresh(t, pool[i].frame))
    && (forall i, j | 0 <= i < j < |pool| && pool[i].Page? && pool[j].Page? :: pool[i].frame != pool[j].frame)
  }

  // Effects on translations.

  ghost predicate SameLookups(m: Mem, m': Mem, t: Tree) {
    forall r, u: nat | IsRoot(t, r) && u < VSPACE :: Lookup(m', r, u) == Lookup(m, r, u)
  }

  // The path to directory `d` is the one that every address of the request takes.
  ghost predicate OnPath(m: Mem, t: Tree, root: Loc, d: Loc, q: Request) {
    && d in t && t[d].root == root && IsRoot(t, root) && t[d].level <= q.Last()
    && forall u | q.v <= u < q.v + q.Size() :: DirAt(m, root, u, t[d].level) == Some(d)
  }

  lemma SameSlice(q: Request, l: Level, u: nat)
    requires !q.IsBad() && l <= q.Last() && q.v <= u < q.v + q.Size()
    ensures Index(u, l) == Index(q.v, l) && u < VSPACE
  {
    var c := Span(l) / q.Size();
    assert q.Size() * c == Span(l) && c > 0 && q.v % q.Size() == 0;
    assert VSPACE % q.Size() == 0 && q.v < VSPACE;
    hide Request.IsBad, Request.Size, Span, Entries;
    SameQuotient(q.v, u, q.Size(), c);
    AlignedBelow(q.v, VSPACE, q.Size());
  }

  lemma AlignedBelow(a: nat, top: nat, z: nat)
    requires z > 0 && a % z == 0 && top % z == 0 && a < top
    ensures a + z <= top
  {
    var k, n := a / z, top / z;
    if n <= k { MulMono(n, k, z); }
    MulMono(k + 1, n, z);
  }

  lemma {:induction false} SameDirs(m: Mem, root: Loc, q: Request, v: nat, l: Level)
    requires !q.IsBad() && q.v <= v < q.v + q.Size() && l <= q.Last() + 1
    ensures DirAt(m, root, v, l) == DirAt(m, root, q.v, l)
  {
    if l > 0 {
      SameDirs(m, root, q, v, l - 1);
      SameSlice(q, l - 1, v);
    }
  }

  // A 2 MiB request where a page table for small pages hangs is answered -EADDRINUSE. That is right, in that
  // some address of the page is mapped to something else than requested, if and only if some entry of that
  // page table maps something else than the request would there.

  ghost predicate IsElsewhere(m: Mem, root: Loc, q: Request, u: nat) {
    var r := Lookup(m, root, u);
    q.v <= u < q.v + q.Size() && r.Mapped? && !(Physical(r, u) == q.paddr + (u - q.v) && r.aperture == q.target)
  }

  predicate HoldsOther(m: Mem, d: Loc, j: nat, q: Request) {
    var e := Read(m, Slot(d, 4, j));
    e.IsPte() && !(e.Frame() == q.paddr + PAGE * j && e.Aperture() == q.target)
  }

  lemma SmallPage(m: Mem, t: Tree, root: Loc, q: Request, d: Loc, j: nat, off: nat)
    requires WellFormed(m, t) && IsRoot(t, root) && !q.IsBad() && q.huge && DirAt(m, root, q.v, 4) == Some(d)
    requires j < 512 && off < PAGE
    ensures var u := q.v + PAGE * j + off;
      q.v <= u < q.v + q.Size() && (IsElsewhere(m, root, q, u) <==> HoldsOther(m, d, j, q))
  {
    var u := q.v + PAGE * j + off;
    assert q.v % Cover(4) == 0 && q.Size() == 512 * PAGE;
    IndexOf(4, q.v, j, u);
    Digit(u, PAGE, off, q.v / PAGE + j);
    SameDirs(m, root, q, u, 4);
    SameSlice(q, 0, u);
    RootIn(m, t, root, u);
    PathInTree(m, t, root, u, 4);
    WalkStep(m, t, d, u);
    LookupAlongPath(m, root, u, 4);
    hide WellFormed, Index, Slot, Read, DirAt, Entry.Frame, Lookup, InDir, InEntry, Request.IsBad;
  }

  lemma SmallPagesExact(m: Mem, t: Tree, root: Loc, q: Request, pool: seq<Outcome>, d: Loc)
    requires WellFormed(m, t) && IsRoot(t, root) && !q.IsBad() && q.huge && DirAt(m, root, q.v, 4) == Some(d)
    ensures MapReturn(m, root, q, pool) == EADDRINUSE
    ensures (exists u: nat :: IsElsewhere(m, root, q, u)) <==> exists j: nat :: j < 512 && HoldsOther(m, d, j, q)
  {
    ReturnMeans(m, t, root, q, pool);
    hide WellFormed, DirAt, HoldsOther, MapReturn, Request.IsBad;
    if u: nat :| IsElsewhere(m, root, q, u) {
      SmallPage(m, t, root, q, d, (u - q.v) / PAGE, (u - q.v) % PAGE);
    }
    if j: nat :| j < 512 && HoldsOther(m, d, j, q) {
      SmallPage(m, t, root, q, d, j, 0);
    }
  }

  lemma PathDir(m: Mem, t: Tree, root: Loc, d: Loc, q: Request)
    requires WellFormed(m, t) && !q.IsBad() && OnPath(m, t, root, d, q)
    ensures NodeOk(d, t[d]) && InDir(t, d, q.v) && Index(q.v, t[d].level) < Entries(t[d].level)
    ensures EntryOk(m, t, d, Index(q.v, t[d].level)) && InEntry(t, d, Index(q.v, t[d].level), q.v)
  {
    OwnPath(m, t, root, d, q);
    PathInTree(m, t, root, q.v, t[d].level);
    WalkStep(m, t, d, q.v);
  }

  lemma OwnPath(m: Mem, t: Tree, root: Loc, d: Loc, q: Request)
    requires OnPath(m, t, root, d, q)
    ensures DirAt(m, root, q.v, t[d].level) == Some(d)
  {
  }

  lemma PathDown(m: Mem, t: Tree, root: Loc, d: Loc, q: Request)
    requires WellFormed(m, t) && !q.IsBad() && OnPath(m, t, root, d, q) && t[d].level < q.Last()
    requires IsPde(EntryAt(m, t, d, Index(q.v, t[d].level)))
    ensures OnPath(m, t, root, EntryAt(m, t, d, Index(q.v, t[d].level)).Child(), q)
  {
    hide Index, Span, Cover, InDir, InEntry, NodeOk;
    PathDir(m, t, root, d, q);
    var l, c := t[d].level, EntryAt(m, t, d, Index(q.v, t[d].level)).Child();
    var k := t[c].level;
    forall u | q.v <= u < q.v + q.Size()
      ensures DirAt(m, root, u, k) == Some(c)
    {
      SameSlice(q, l, u);
      assert DirAt(m, root, u, l) == Some(d);
    }
  }

  lemma PathKept(m: Mem, m': Mem, t: Tree, root: Loc, d: Loc, i: nat, q: Request)
    requires WellFormed(m, t) && !q.IsBad() && OnPath(m, t, root, d, q) && OnlyEntry(m, m', t, d, i)
    ensures OnPath(m', t, root, d, q)
  {
    hide Index, Span, Cover, InDir, InEntry, NodeOk;
    forall u | q.v <= u < q.v + q.Size()
      ensures DirAt(m', root, u, t[d].level) == Some(d)
    {
      SameSlice(q, t[d].level, u);
      assert DirAt(m, root, u, t[d].level) == Some(d);
      PathAboveUnchanged(m, m', t, d, i, root, u, t[d].level);
    }
  }

  lemma LinkEffect(m: Mem, m': Mem, t: Tree, d: Loc, i: nat, q: Loc)
    requires WellFormed(m, t) && Links(m, m', t, d, i, q)
    ensures SameLookups(m, m', t)
  {
    hide Index, Span, Cover, InDir, InEntry, NodeOk;
    forall r, u: nat | IsRoot(t, r) && u < VSPACE
      ensures Lookup(m', r, u) == Lookup(m, r, u)
    {
      RootIn(m, t, r, u);
      LinkKeepsLookups(m, m', t, d, i, q, r, u);
    }
  }

  // The whole effect of a successful request: its page, which was free, now translates to the
  // requested frame, and no other address of any table translates differently.
  ghost predicate MapsPage(m: Mem, m': Mem, t: Tree, root: Loc, q: Request) {
    forall r, u: nat | IsRoot(t, r) && u < VSPACE ::
      if r == root && q.v <= u < q.v + q.Size()
      then Lookup(m, r, u) == NotMapped && Lookup(m', r, u) == Mapped(q.paddr, q.target, q.Last())
      else Lookup(m', r, u) == Lookup(m, r, u)
  }

  lemma SameMultiple(a: nat, v: nat, s: nat)
    requires s > 0 && a % s == 0 && v % s == 0 && a <= v < a + s
    ensures a == v
  {
    Digit(v, s, v - a, a / s);
  }

  lemma LeafRange(m: Mem, t: Tree, root: Loc, d: Loc, q: Request, u: nat)
    requires WellFormed(m, t) && !q.IsBad() && OnPath(m, t, root, d, q) && t[d].level == q.Last()
    ensures InEntry(t, d, Index(q.v, t[d].level), u) <==> q.v <= u < q.v + q.Size()
  {
    PathDir(m, t, root, d, q);
    LeafStart(t[d].base, Index(q.v, t[d].level), q.v, t[d].level);
  }

  lemma LookupOnPath(m: Mem, t: Tree, root: Loc, d: Loc, q: Request, u: nat)
    requires OnPath(m, t, root, d, q) && !q.IsBad() && q.v <= u < q.v + q.Size() && t[d].level == q.Last()
    requires !IsPde(EntryAt(m, t, d, Index(q.v, t[d].level)))
    ensures var e := EntryAt(m, t, d, Index(q.v, t[d].level));
            Lookup(m, root, u) == if e.IsInvalid() then NotMapped else Mapped(e.Frame(), e.Aperture(), t[d].level)
  {
    SameSlice(q, t[d].level, u);
    assert DirAt(m, root, u, t[d].level) == Some(d);
    hide Index;
    LookupAlongPath(m, root, u, t[d].level);
  }

  lemma LeafEffect(m: Mem, m': Mem, t: Tree, root: Loc, d: Loc, q: Request)
    requires WellFormed(m, t) && !q.IsBad() && OnPath(m, t, root, d, q) && t[d].level == q.Last()
    requires var i := Index(q.v, t[d].level);
      && i < Entries(t[d].level) && OnlyEntry(m, m', t, d, i) && EntryAt(m, t, d, i).IsInvalid()
      && EntryAt(m', t, d, i) == q.Leaf(EntryAt(m, t, d, i))
    ensures WellFormed(m', t) && OnPath(m', t, root, d, q) && MapsPage(m, m', t, root, q)
  {
    PathRoot(m, t, root, d, q);
    hide Index, Span, Cover, InDir, InEntry, NodeOk, OnPath, LookupFrom;
    var i := Index(q.v, t[d].level);
    LeafMaps(q, EntryAt(m, t, d, i));
    PteKeepsTree(m, m', t, d, i);
    PathKept(m, m', t, root, d, i, q);
    forall r, u: nat | IsRoot(t, r) && u < VSPACE
      ensures if r == root && q.v <= u < q.v + q.Size()
              then Lookup(m, r, u) == NotMapped && Lookup(m', r, u) == Mapped(q.paddr, q.target, q.Last())
              else Lookup(m', r, u) == Lookup(m, r, u)
    {
      RootIn(m, t, r, u);
      if r == root && q.v <= u < q.v + q.Size() {
        LookupOnPath(m, t, root, d, q, u);
        LookupOnPath(m', t, root, d, q, u);
      } else {
        LeafRange(m, t, root, d, q, u);
        OutsideEntryUnchanged(m, m', t, d, i, r, u);
      }
    }
  }

  lemma PathRoot(m: Mem, t: Tree, root: Loc, d: Loc, q: Request)
    requires OnPath(m, t, root, d, q)
    ensures d in t && t[d].root == root && IsRoot(t, root)
  {
  }

  lemma LeafStart(base: nat, i: nat, v: nat, l: Level)
    requires base % Cover(l) == 0 && v % Span(l) == 0
    requires base + i * Span(l) <= v < base + i * Span(l) + Span(l)
    ensures base + i * Span(l) == v
  {
    var c := base / Cover(l);
    Geometry(l);
    MulAssoc(Entries(l), Span(l), c);
    Digit(base + i * Span(l), Span(l), 0, Entries(l) * c + i);
    SameMultiple(base + i * Span(l), v, Span(l));
  }

  // A new directory: `p` records the page `frame`, linked from entry `i` of directory `d`.
  lemma TrackNew(t: Tree, ps: seq<PdPage>, d: Loc, i: nat, target: U3, frame: nat)
    requires AllTracked(t, ps) && IsFresh(t, frame)
    requires d in t && NodeOk(d, t[d]) && t[d].level < 4 && i < Entries(t[d].level) && TargetFits(target, d)
    ensures AllTracked(t[Loc(false, PAGE * frame) := ChildNode(d, t[d], i)],
                       [PdPage(Slot(d, t[d].level, i).addr, target, PAGE * frame)] + ps)
  {
    var q := Loc(false, PAGE * frame);
    var t' := t[q := ChildNode(d, t[d], i)];
    var p := PdPage(Slot(d, t[d].level, i).addr, target, PAGE * frame);
    Digit(PAGE * frame, PAGE, 0, frame);
    SlotInPage(d, t[d].level, i);
    SlotOffset(d, t[d].level, i);
    assert p.ParentSlot() == Slot(d, t[d].level, i);
    assert IsTracked(t', p);
    forall p' | p' in ps
      ensures IsTracked(t', p') && p'.Dir() != q && PageOf(p'.ParentSlot()) != q
    {
      assert IsTracked(t, p');
    }
    var ps' := [p] + ps;
    forall a, b | 0 <= a < b < |ps'|
      ensures ps'[a].dmaAddr != ps'[b].dmaAddr && PageOf(ps'[b].ParentSlot()) != ps'[a].Dir()
    {
      assert ps'[b] == ps[b - 1] && ps[b - 1] in ps;
      if a > 0 { assert ps'[a] == ps[a - 1]; }
    }
  }

  lemma SlotOffset(d: Loc, l: Level, i: nat)
    requires d.addr % PAGE == 0 && 0 < d.addr <= TOP_PAGE && i < Entries(l)
    ensures var a := Slot(d, l, i).addr; 0 < a < 0x1_0000_0000_0000_0000 && a % PAGE <= PAGE - 8
  {
    EntryInPage(d.addr, l, i);
    Digit(Slot(d, l, i).addr, PAGE, Slot(d, l, i).addr - d.addr, d.addr / PAGE);
  }

  lemma DirIsNode(m: Mem, t: Tree, d: Loc)
    requires WellFormed(m, t) && d in t
    ensures NodeOk(d, t[d])
  {
  }

  lemma FreshAfter(t: Tree, pool: seq<Outcome>, d: Loc, i: nat)
    requires FreshPool(t, pool) && pool != [] && pool[0].Page?
    requires d in t && NodeOk(d, t[d]) && t[d].level < 4 && i < Entries(t[d].level)
    ensures FreshPool(t[Loc(false, PAGE * pool[0].frame) := ChildNode(d, t[d], i)], pool[1..])
  {
    SlotInPage(d, t[d].level, i);
    var t' := t[Loc(false, PAGE * pool[0].frame) := ChildNode(d, t[d], i)];
    forall j | 0 <= j < |pool[1..]| && pool[1..][j].Page?
      ensures IsFresh(t', pool[1..][j].frame)
    {
      assert IsFresh(t, pool[j + 1].frame) && pool[0].frame != pool[j + 1].frame;
    }
  }

  // Linking the zeroed page `frame` writes one entry of the tree.
  lemma LinksFresh(m: Mem, m': Mem, t: Tree, d: Loc, i: nat, frame: nat, e: Entry)
    requires WellFormed(m, t) && IsFresh(t, frame)
    requires d in t && t[d].level < 4 && i < Entries(t[d].level) && EntryAt(m, t, d, i).IsInvalid()
    requires IsPde(e) && e.Child() == Loc(false, PAGE * frame)
    requires m' == ZeroPage(m, Loc(false, PAGE * frame))[Slot(d, t[d].level, i) := e]
    ensures Links(m, m', t, d, i, Loc(false, PAGE * frame))
    ensures WellFormed(m', t[Loc(false, PAGE * frame) := ChildNode(d, t[d], i)])
  {
    var q, l := Loc(false, PAGE * frame), t[d].level;
    assert NodeOk(d, t[d]);
    Digit(q.addr, PAGE, 0, frame);
    SlotInPage(d, l, i);
    forall d', j | d' in t && 0 <= j < Entries(t[d'].level) && !(d' == d && j == i)
      ensures EntryAt(m', t, d', j) == EntryAt(m, t, d', j)
    {
      assert NodeOk(d', t[d']);
      SlotInPage(d', t[d'].level, j);
      SlotsDiffer(d, l, i, d', t[d'].level, j);
    }
    var k: Level := l + 1;
    forall j | 0 <= j < Entries(k)
      ensures Read(m', Slot(q, k, j)) == ZERO
    {
      SlotInPage(q, k, j);
    }
    LinkKeepsTree(m, m', t, d, i, q);
  }

  // The word that precedes a level-3 entry is not an entry of the tree.
  lemma UpperHalf(t: Tree, d: Loc, i: nat, d': Loc, j: nat)
    requires d in t && d' in t && NodeOk(d, t[d]) && NodeOk(d', t[d'])
    requires t[d].level == 3 && i < 256 && j < Entries(t[d'].level)
    ensures Slot(d', t[d'].level, j) != Loc(d.vid, d.addr + 16 * i)
    ensures PageOf(Loc(d.vid, d.addr + 16 * i)) == d
  {
    Digit(d.addr + 16 * i, PAGE, 16 * i, d.addr / PAGE);
    SlotInPage(d', t[d'].level, j);
  }

  // Writing the leaf (for a 2 MiB page in both halves of the entry).
  lemma LeafWrite(m: Mem, m': Mem, t: Tree, d: Loc, i: nat, e: Entry)
    requires WellFormed(m, t) && d in t && i < Entries(t[d].level)
    requires m' == (if t[d].level == 3 then m[Loc(d.vid, d.addr + 16 * i) := e] else m)[Slot(d, t[d].level, i) := e]
    ensures OnlyEntry(m, m', t, d, i) && EntryAt(m', t, d, i) == e
    ensures forall l | PageOf(l) != d :: Read(m', l) == Read(m, l)
  {
    assert NodeOk(d, t[d]);
    SlotInPage(d, t[d].level, i);
    if t[d].level == 3 { UpperHalf(t, d, i, d, i); }
    forall d', j | d' in t && 0 <= j < Entries(t[d'].level) && !(d' == d && j == i)
      ensures EntryAt(m', t, d', j) == EntryAt(m, t, d', j)
    {
      assert NodeOk(d', t[d']);
      SlotsDiffer(d, t[d].level, i, d', t[d'].level, j);
      if t[d].level == 3 { UpperHalf(t, d, i, d', j); }
    }
  }

  // The driver's state is sound: a tree, and a list that records where in it each allocated directory hangs.
  ghost predicate Sound(m: Mem, t: Tree, ps: seq<PdPage>) { WellFormed(m, t) && AllTracked(t, ps) }

  function NewEntry(entry: Entry, frame: U46): Entry {
    entry.(target := 4, vol := true, noAts := true).WithWide(frame)
  }

  lemma NewEntryChild(entry: Entry, frame: U46)
    ensures var e := NewEntry(entry, frame);
            IsPde(e) && e.Child() == Loc(false, PAGE * frame) && e.target == 4 && e.vol && e.noAts
  {
  }

  lemma LinkIsSound(m: Mem, t: Tree, ps: seq<PdPage>, d: Loc, i: nat, target: U3, frame: nat)
    requires Sound(m, t, ps) && IsFresh(t, frame) && TargetFits(target, d)
    requires d in t && t[d].level < 4 && i < Entries(t[d].level) && EntryAt(m, t, d, i).IsInvalid()
    ensures var q := Loc(false, PAGE * frame);
            var m' := ZeroPage(m, q)[Slot(d, t[d].level, i) := NewEntry(EntryAt(m, t, d, i), frame)];
            && Links(m, m', t, d, i, q)
            && Sound(m', t[q := ChildNode(d, t[d], i)],
                     [PdPage(Slot(d, t[d].level, i).addr, target, PAGE * frame)] + ps)
  {
    assert NodeOk(d, t[d]);
    var e := NewEntry(EntryAt(m, t, d, i), frame);
    NewEntryChild(EntryAt(m, t, d, i), frame);
    TrackNew(t, ps, d, i, target, frame);
    LinksFresh(m, ZeroPage(m, e.Child())[Slot(d, t[d].level, i) := e], t, d, i, frame, e);
  }

  // The state of the mapping loop, `k` pages after it began in memory `m0` with tree `t0` and
  // list `ps0`, when it is about to look at directory `d`.

  ghost predicate LinkedAbove(m: Mem, t: Tree, p: PdPage, l: Level) {
    var parent := PageOf(p.ParentSlot());
    IsLinked(m, p) && parent in t && t[parent].level < l
  }

  ghost predicate GrowsTree(t0: Tree, t: Tree) {
    && (forall d | d in t0 :: d in t && t[d] == t0[d])
    && (forall r | IsRoot(t, r) :: IsRoot(t0, r))
  }

  // `ps` is `ps0` after some new pages, each of which its recorded parent entry points to.
  ghost predicate GrowsList(m: Mem, ps0: seq<PdPage>, ps: seq<PdPage>) {
    && |ps0| <= |ps| && ps[|ps| - |ps0|..] == ps0
    && forall i | 0 <= i < |ps| - |ps0| :: IsLinked(m, ps[i])
  }

  datatype Start = Start(m: Mem, t: Tree, ps: seq<PdPage>, root: Loc, q: Request, pool: seq<Outcome>) {
    function Return(): int { MapReturn(m, root, q, pool) }

    function End(): Stop { StopFrom(m, root, 0, q.v, q.Last()) }
  }

  // Of the new pages those that the walk for `u` enters can be named by 24 address bits.
  ghost predicate NewNarrow(m: Mem, news: seq<PdPage>, r: Loc, u: nat) {
    forall p | p in news && OnWalk(m, r, 0, u, p.Dir()) :: p.dmaAddr < NARROW
  }

  // Which walks 24 address bits suffice for, after mapping has linked the pages `news`.
  ghost predicate NarrowAfter(m0: Mem, t0: Tree, m: Mem, t: Tree, news: seq<PdPage>) {
    && (forall p | p in news :: p.Dir() in t)
    && forall r, u: nat | IsRoot(t0, r) && u < VSPACE ::
         NarrowWalk(m, r, 0, u) <==> NarrowWalk(m0, r, 0, u) && NewNarrow(m, news, r, u)
  }

  // The recorded parent entry of `p` is an entry of the tree and points to it.
  ghost predicate IsAttached(m: Mem, t: Tree, p: PdPage) {
    exists d, i :: d in t && 0 <= i < Entries(t[d].level) && IsParentEntry(m, t, d, i, p)
  }

  predicate IsParentEntry(m: Mem, t: Tree, d: Loc, i: nat, p: PdPage)
    requires d in t
  {
    p.ParentSlot() == Slot(d, t[d].level, i) && IsPde(EntryAt(m, t, d, i)) && EntryAt(m, t, d, i).Child() == p.Dir()
  }

  ghost predicate AllAttached(m: Mem, t: Tree, ps: seq<PdPage>) {
    forall p | p in ps :: IsAttached(m, t, p)
  }

  // Nothing outside the directories of the tree is written.
  ghost predicate OnlyDirsWritten(m: Mem, m': Mem, t: Tree) {
    forall l | PageOf(l) !in t :: Read(m', l) == Read(m, l)
  }

  // What mapping does apart from the tree and its translations.
  ghost predicate KeepsRest(s: Start, m: Mem, t: Tree, ps: seq<PdPage>) {
    && OnlyDirsWritten(s.m, m, t) && (AllAttached(s.m, s.t, s.ps) ==> AllAttached(m, t, ps))
    && |s.ps| <= |ps| && NarrowAfter(s.m, s.t, m, t, ps[..|ps| - |s.ps|])
  }

  lemma WideChild(e: Entry)
    requires IsPde(e) && e.target != 2
    ensures IsWide(e) <==> e.Child().addr >= NARROW
  {
  }

  lemma LinkNarrows(m0: Mem, t0: Tree, m: Mem, t: Tree, news: seq<PdPage>, d: Loc, i: nat, m': Mem, q: Loc, p: PdPage)
    requires WellFormed(m, t) && NarrowAfter(m0, t0, m, t, news) && Links(m, m', t, d, i, q) && q !in t && !q.vid
    requires (forall r | IsRoot(t0, r) :: IsRoot(t, r)) && p.Dir() == q
    ensures NarrowAfter(m0, t0, m', t[q := ChildNode(d, t[d], i)], [p] + news)
  {
    var e, news' := EntryAt(m', t, d, i), [p] + news;
    WideChild(e);
    hide WellFormed, NarrowWalk, OnWalk, Slot, Read, OnlyEntry, EmptyDir, IsWide, Entry.Child;
    assert forall x | x in news' :: x == p || x in news;
    forall r, u: nat | IsRoot(t0, r) && u < VSPACE
      ensures NarrowWalk(m', r, 0, u) <==> NarrowWalk(m0, r, 0, u) && NewNarrow(m', news', r, u)
    {
      RootIn(m, t, r, u);
      LinkKeepsWalks(m, m', t, d, i, q, r, u);
      NewNarrowGrows(m, m', t, news, p, r, u);
    }
  }

  lemma NewNarrowGrows(m: Mem, m': Mem, t: Tree, news: seq<PdPage>, p: PdPage, r: Loc, u: nat)
    requires forall x | x in news :: x.Dir() in t
    requires p.Dir() !in t && forall x | x != p.Dir() :: OnWalk(m', r, 0, u, x) <==> OnWalk(m, r, 0, u, x)
    ensures NewNarrow(m', [p] + news, r, u) <==>
      NewNarrow(m, news, r, u) && (OnWalk(m', r, 0, u, p.Dir()) ==> p.dmaAddr < NARROW)
  {
    hide OnWalk;
    assert forall x | x in [p] + news :: x == p || x in news;
    assert p in [p] + news && forall x | x in news :: x in [p] + news;
  }

  lemma LeafNarrows(m0: Mem, t0: Tree, m: Mem, t: Tree, news: seq<PdPage>, d: Loc, i: nat, m': Mem)
    requires WellFormed(m, t) && NarrowAfter(m0, t0, m, t, news) && d in t && OnlyEntry(m, m', t, d, i)
    requires i < Entries(t[d].level) && !IsPde(EntryAt(m, t, d, i)) && !IsPde(EntryAt(m', t, d, i))
    requires forall r | IsRoot(t0, r) :: IsRoot(t, r)
    ensures NarrowAfter(m0, t0, m', t, news)
  {
    hide WellFormed, NarrowWalk, OnWalk, Slot, Read, OnlyEntry;
    forall r, u: nat | IsRoot(t0, r) && u < VSPACE
      ensures NarrowWalk(m', r, 0, u) <==> NarrowWalk(m0, r, 0, u) && NewNarrow(m', news, r, u)
    {
      RootIn(m, t, r, u);
      PteKeepsWalks(m, m', t, d, i, r, u);
    }
  }

  lemma NoNews(m: Mem, t: Tree)
    ensures NarrowAfter(m, t, m, t, [])
  {
  }

  // Writing one entry that was invalid, in a tree that may have grown.
  lemma StaysAttached(m: Mem, m': Mem, t: Tree, t': Tree, ps: seq<PdPage>, d: Loc, i: nat)
    requires AllAttached(m, t, ps) && d in t && OnlyEntry(m, m', t, d, i) && EntryAt(m, t, d, i).IsInvalid()
    requires forall x | x in t :: x in t' && t'[x] == t[x]
    ensures AllAttached(m', t', ps)
  {
    hide Slot;
    forall p | p in ps
      ensures IsAttached(m', t', p)
    {
      var d', j :| d' in t && 0 <= j < Entries(t[d'].level) && IsParentEntry(m, t, d', j, p);
      assert EntryAt(m', t', d', j) == EntryAt(m, t, d', j);
      assert IsParentEntry(m', t', d', j, p);
    }
  }

  // One more directory linked, and its page recorded.
  ghost predicate LinksPage(m: Mem, t: Tree, ps: seq<PdPage>, d: Loc, i: nat,
                            m': Mem, t': Tree, ps': seq<PdPage>, q: Loc) {
    && Links(m, m', t, d, i, q) && q !in t && !q.vid && WellFormed(m', t')
    && m' == ZeroPage(m, q)[Slot(d, t[d].level, i) := EntryAt(m', t, d, i)]
    && t' == t[q := ChildNode(d, t[d], i)]
    && |ps'| > 0 && ps'[1..] == ps && ps'[0].ParentSlot() == Slot(d, t[d].level, i) && ps'[0].Dir() == q
  }

  lemma LinkKeepsRest(s: Start, m: Mem, t: Tree, ps: seq<PdPage>, d: Loc, i: nat,
                      m': Mem, t': Tree, ps': seq<PdPage>, q: Loc)
    requires WellFormed(m, t) && KeepsRest(s, m, t, ps) && GrowsTree(s.t, t)
    requires LinksPage(m, t, ps, d, i, m', t', ps', q)
    ensures KeepsRest(s, m', t', ps')
  {
    DirIn(m, t, d);
    hide WellFormed, NodeOk, NarrowAfter;
    assert forall l | PageOf(l) !in t' :: Read(m', l) == Read(m, l);
    hide PageOf, Slot, Read, ZeroPage, EmptyDir;
    LinkNarrows(s.m, s.t, m, t, ps[..|ps| - |s.ps|], d, i, m', q, ps'[0]);
    assert ps'[..|ps'| - |s.ps|] == [ps'[0]] + ps[..|ps| - |s.ps|];
    if AllAttached(m, t, ps) {
      StaysAttached(m, m', t, t', ps, d, i);
      assert IsParentEntry(m', t', d, i, ps'[0]);
      assert forall p | p in ps' :: p == ps'[0] || p in ps'[1..];
    }
  }

  lemma LeafKeepsRest(s: Start, m: Mem, t: Tree, ps: seq<PdPage>, d: Loc, i: nat, m': Mem)
    requires WellFormed(m, t) && KeepsRest(s, m, t, ps) && GrowsTree(s.t, t)
    requires d in t && i < Entries(t[d].level) && OnlyEntry(m, m', t, d, i)
    requires EntryAt(m, t, d, i).IsInvalid() && EntryAt(m', t, d, i).IsPte()
    requires forall l | PageOf(l) != d :: Read(m', l) == Read(m, l)
    ensures KeepsRest(s, m', t, ps)
  {
    hide PageOf, Slot, NarrowAfter, WellFormed;
    LeafNarrows(s.m, s.t, m, t, ps[..|ps| - |s.ps|], d, i, m');
    if AllAttached(m, t, ps) { StaysAttached(m, m', t, t, ps, d, i); }
  }

  ghost predicate Walking(s: Start, m: Mem, t: Tree, ps: seq<PdPage>, k: nat, d: Loc) {
    !s.q.IsBad() && d in t && WalkTree(s, m, t, ps, k, d) && WalkPool(s, m, t, k, d)
  }

  ghost predicate WalkTree(s: Start, m: Mem, t: Tree, ps: seq<PdPage>, k: nat, d: Loc) {
    && OnPath(m, t, s.root, d, s.q)
    && SameLookups(s.m, m, s.t) && GrowsTree(s.t, t) && KeepsRest(s, m, t, ps)
    && |ps| == k + |s.ps| && ps[k..] == s.ps
    && forall i | 0 <= i < k :: LinkedAbove(m, t, ps[i], t[d].level)
  }

  ghost predicate WalkPool(s: Start, m: Mem, t: Tree, k: nat, d: Loc)
    requires d in t
  {
    && t[d].level <= s.q.Last() && k <= |s.pool| && FreshPool(t, s.pool[k..])
    && (k == 0 ==> m == s.m && t == s.t && s.End() == StopFrom(m, d, t[d].level, s.q.v, s.q.Last()))
    && (k > 0 ==> EmptyDir(m, d, t[d].level) && s.End().entry.IsInvalid())
    && (k > 0 ==> s.Return() == AllocReturn(s.pool[k..], s.q.Last() - t[d].level))
  }

  lemma WalkingStart(s: Start)
    requires Sound(s.m, s.t, s.ps) && IsRoot(s.t, s.root) && !s.q.IsBad() && FreshPool(s.t, s.pool)
    ensures Walking(s, s.m, s.t, s.ps, 0, s.root)
    ensures s.root.addr <= TOP_PAGE
  {
    assert NodeOk(s.root, s.t[s.root]);
    assert s.pool[0..] == s.pool && s.ps[0..] == s.ps;
    NothingYet(s);
  }

  lemma NothingYet(s: Start)
    ensures KeepsRest(s, s.m, s.t, s.ps)
  {
    NoNews(s.m, s.t);
    assert s.ps[..0] == [];
  }

  lemma ListGrows(s: Start, m: Mem, t: Tree, ps: seq<PdPage>, k: nat, d: Loc)
    requires WalkTree(s, m, t, ps, k, d)
    ensures GrowsList(m, s.ps, ps)
  {
    hide OnPath, SameLookups, KeepsRest, GrowsTree;
  }

  lemma WalkingEnd(s: Start, m: Mem, t: Tree, ps: seq<PdPage>, k: nat, d: Loc)
    requires WellFormed(m, t) && Walking(s, m, t, ps, k, d)
    ensures var l, i := t[d].level, Index(s.q.v, t[d].level);
            var e := EntryAt(m, t, d, i);
            && d.addr % PAGE == 0 && d.addr > 0 && i < Entries(l) && EntryOk(m, t, d, i)
            && (!e.IsInvalid() ==> k == 0) && (e.IsInvalid() ==> s.End().entry.IsInvalid())
            && (e.IsInvalid() ==> s.Return() == AllocReturn(s.pool[k..], s.q.Last() - l))
            && (k == 0 && !(IsPde(e) && l < s.q.Last()) ==> s.Return() == EntryReturn(s.q, Stop(l, e), s.pool))
            && GrowsList(m, s.ps, ps)
  {
    hide WellFormed, OnPath, SameLookups, KeepsRest, GrowsTree, LinkedAbove, GrowsList, FreshPool;
    hide Index, Slot, Read, Cover, Span, InEntry, Request.IsBad, AllocReturn;
    PathDir(m, t, s.root, d, s.q);
    ListGrows(s, m, t, ps, k, d);
    assert s.pool[0..] == s.pool;
  }

  // Where the loop goes next. A PDE never has aperture 0, so this is always the wide address; it is
  // the directory that the hardware goes to unless a PDE into VID_MEM has bits above its 24.
  function NextAddr(e: Entry): nat { PAGE * if e.Aperture() == VID_MEM then e.addr else e.Wide() }

  lemma NextIsChild(e: Entry)
    requires IsPde(e)
    ensures Loc(e.target == 2, NextAddr(e)) == e.Child() <==> (e.target == 2 ==> e.addrHi == 0)
    ensures NextAddr(e) <= TOP_PAGE && TargetFits(e.target, e.Child())
  {
  }

  // Everything the loop body needs to know before it acts on the entry.
  lemma WalkingLook(s: Start, env: Env, m: Mem, t: Tree, ps: seq<PdPage>, k: nat, d: Loc, target: U3)
    requires Sound(m, t, ps) && Walking(s, m, t, ps, k, d) && TargetFits(target, d)
    ensures WellFormed(m, t) && !s.q.IsBad() && d in t && t[d].level <= s.q.Last() && k <= |s.pool|
    ensures var l, i := t[d].level, Index(s.q.v, t[d].level);
            var b, e := TableBase(d.addr, l), EntryAt(m, t, d, i);
            && d.addr % PAGE == 0 && i < Entries(l)
            && (Reaches(env, d) ==> Resolve(env, b, target) == At(Loc(d.vid, b)))
            && (!Reaches(env, d) ==> !Resolve(env, b, target).At?)
            && (e.IsPte() ==> k == 0 && s.Return() == EntryReturn(s.q, Stop(l, e), s.pool))
            && (IsPde(e) ==> k == 0 && l < 4 && e.Child().addr == NextAddr(e) && TargetFits(e.target, e.Child()))
            && (IsPde(e) && l == s.q.Last() ==> s.Return() == EADDRINUSE)
            && (e.IsInvalid() && l < s.q.Last() && (k == |s.pool| || !s.pool[k].Page?) ==>
                 s.Return() == if k < |s.pool| && s.pool[k].DmaError? then s.pool[k].err else ENOMEM)
            && (e.IsInvalid() && k < |s.pool| && s.pool[k].Page? ==> IsFresh(t, s.pool[k].frame))
  {
    WalkingEnd(s, m, t, ps, k, d);
    hide Index, StopFrom, OnPath, SameLookups, OldestLast;
    ResolveDir(env, d, target, t[d].level);
    if IsPde(EntryAt(m, t, d, Index(s.q.v, t[d].level))) { NextIsChild(EntryAt(m, t, d, Index(s.q.v, t[d].level))); }
    if k < |s.pool| && s.pool[k].Page? { assert IsFresh(t, s.pool[k..][0].frame); }
  }

  lemma WalkingDown(s: Start, m: Mem, t: Tree, ps: seq<PdPage>, k: nat, d: Loc)
    requires WellFormed(m, t) && Walking(s, m, t, ps, k, d) && t[d].level < s.q.Last()
    requires IsPde(EntryAt(m, t, d, Index(s.q.v, t[d].level)))
    ensures var c := EntryAt(m, t, d, Index(s.q.v, t[d].level)).Child();
            c in t && t[c].level == t[d].level + 1 && Walking(s, m, t, ps, k, c)
  {
    WalkingEnd(s, m, t, ps, k, d);
    PathDown(m, t, s.root, d, s.q);
    hide WellFormed, OnPath, KeepsRest, SameLookups, GrowsTree;
  }

  lemma LinkedKept(m: Mem, m': Mem, t: Tree, p: PdPage, l: Level, d: Loc, q: Loc)
    requires LinkedAbove(m, t, p, l) && d in t && t[d].level == l && q !in t
    requires forall x | PageOf(x) != d && PageOf(x) != q :: Read(m', x) == Read(m, x)
    ensures IsLinked(m', p)
  {
  }

  lemma ThenSame(m0: Mem, m1: Mem, m2: Mem, t0: Tree, t1: Tree)
    requires SameLookups(m0, m1, t0) && SameLookups(m1, m2, t1) && GrowsTree(t0, t1)
    ensures SameLookups(m0, m2, t0)
  {
    hide Lookup;
    forall r, u: nat | IsRoot(t0, r) && u < VSPACE
      ensures Lookup(m2, r, u) == Lookup(m0, r, u)
    {
      assert IsRoot(t1, r);
    }
  }

  lemma ThenMaps(m0: Mem, m1: Mem, m2: Mem, t0: Tree, t1: Tree, root: Loc, q: Request)
    requires SameLookups(m0, m1, t0) && MapsPage(m1, m2, t1, root, q) && GrowsTree(t0, t1)
    ensures MapsPage(m0, m2, t0, root, q)
  {
    hide Lookup;
    forall r, u: nat | IsRoot(t0, r) && u < VSPACE
      ensures if r == root && q.v <= u < q.v + q.Size()
              then Lookup(m0, r, u) == NotMapped && Lookup(m2, r, u) == Mapped(q.paddr, q.target, q.Last())
              else Lookup(m2, r, u) == Lookup(m0, r, u)
    {
      assert IsRoot(t1, r);
    }
  }

  lemma NewerLinked(m: Mem, t: Tree, m': Mem, t': Tree, ps: seq<PdPage>, k: nat, d: Loc, i: nat,
                    q: Loc, ps': seq<PdPage>)
    requires WellFormed(m, t) && d in t && t[d].level < 4 && i < Entries(t[d].level) && q !in t && k <= |ps|
    requires forall j | 0 <= j < k :: LinkedAbove(m, t, ps[j], t[d].level)
    requires t' == t[q := ChildNode(d, t[d], i)]
    requires forall x | PageOf(x) != d && PageOf(x) != q :: Read(m', x) == Read(m, x)
    requires |ps'| > 0 && ps'[1..] == ps && ps'[0].ParentSlot() == Slot(d, t[d].level, i) && ps'[0].Dir() == q
    requires IsPde(EntryAt(m', t, d, i)) && EntryAt(m', t, d, i).Child() == q
    ensures forall j | 0 <= j < k + 1 :: LinkedAbove(m', t', ps'[j], t[d].level + 1)
    ensures ps'[k + 1..] == ps[k..]
  {
    DirIn(m, t, d);
    forall j | 0 <= j < k + 1
      ensures LinkedAbove(m', t', ps'[j], t[d].level + 1)
    {
      if j > 0 {
        assert ps'[j] == ps[j - 1];
        assert LinkedAbove(m, t, ps[j - 1], t[d].level);
        LinkedKept(m, m', t, ps[j - 1], t[d].level, d, q);
      }
    }
    assert ps'[k + 1..] == ps'[1..][k..];
  }

  lemma NextInPool(s: Start, t: Tree, k: nat)
    requires k < |s.pool| && s.pool[k].Page? && FreshPool(t, s.pool[k..])
    ensures IsFresh(t, s.pool[k].frame) && s.pool[k..][1..] == s.pool[k + 1..] && s.pool[k..][0] == s.pool[k]
  {
    assert s.pool[k..][0] == s.pool[k];
  }

  // The page where the loop stands, and everything that one more linked directory leaves alone.
  lemma LinkedPath(s: Start, m: Mem, t: Tree, d: Loc, m': Mem, t': Tree, q: Loc)
    requires WellFormed(m, t) && !s.q.IsBad() && OnPath(m, t, s.root, d, s.q) && t[d].level < s.q.Last()
    requires Links(m, m', t, d, Index(s.q.v, t[d].level), q) && q !in t
    requires t' == t[q := ChildNode(d, t[d], Index(s.q.v, t[d].level))] && WellFormed(m', t')
    ensures OnPath(m', t', s.root, q, s.q)
  {
    hide Index, Span, Cover, NodeOk, WellFormed;
    var i := Index(s.q.v, t[d].level);
    PathKept(m, m', t, s.root, d, i, s.q);
    assert OnPath(m', t', s.root, d, s.q);
    PathDown(m', t', s.root, d, s.q);
  }

  lemma LinkedTree(s: Start, m: Mem, t: Tree, ps: seq<PdPage>, k: nat, d: Loc,
                   m': Mem, t': Tree, ps': seq<PdPage>, q: Loc)
    requires WellFormed(m, t) && !s.q.IsBad() && WalkTree(s, m, t, ps, k, d) && t[d].level < s.q.Last()
    requires LinksPage(m, t, ps, d, Index(s.q.v, t[d].level), m', t', ps', q)
    ensures WalkTree(s, m', t', ps', k + 1, q)
  {
    var i := Index(s.q.v, t[d].level);
    DirIn(m, t, d);
    NewerLinked(m, t, m', t', ps, k, d, i, q, ps');
    hide Index, Span, Cover, WellFormed, OnPath, LinkedAbove, PageOf, SameLookups, KeepsRest;
    LinkedPath(s, m, t, d, m', t', q);
    LinkEffect(m, m', t, d, i, q);
    ThenSame(s.m, m, m', s.t, t);
    LinkKeepsRest(s, m, t, ps, d, i, m', t', ps', q);
  }

  lemma LinkedPool(s: Start, m: Mem, t: Tree, k: nat, d: Loc, i: nat, m': Mem, t': Tree)
    requires d in t && NodeOk(d, t[d]) && WalkPool(s, m, t, k, d) && t[d].level < s.q.Last() && i < Entries(t[d].level)
    requires k < |s.pool| && s.pool[k].Page? && s.End().entry.IsInvalid()
    requires s.Return() == AllocReturn(s.pool[k..], s.q.Last() - t[d].level)
    requires var q := Loc(false, PAGE * s.pool[k].frame);
      t' == t[q := ChildNode(d, t[d], i)] && EmptyDir(m', q, t[d].level + 1)
    ensures IsFresh(t, s.pool[k].frame) && WalkPool(s, m', t', k + 1, Loc(false, PAGE * s.pool[k].frame))
  {
    NextInPool(s, t, k);
    FreshAfter(t, s.pool[k..], d, i);
    hide FreshPool, IsFresh, StopFrom, MapReturn, NodeOk, EmptyDir;
  }

  lemma WalkingLink(s: Start, m: Mem, t: Tree, ps: seq<PdPage>, k: nat, d: Loc,
                    m': Mem, t': Tree, ps': seq<PdPage>)
    requires WellFormed(m, t) && Walking(s, m, t, ps, k, d)
    requires k < |s.pool| && s.pool[k].Page? && t[d].level < s.q.Last()
    requires LinksPage(m, t, ps, d, Index(s.q.v, t[d].level), m', t', ps', Loc(false, PAGE * s.pool[k].frame))
    ensures Walking(s, m', t', ps', k + 1, Loc(false, PAGE * s.pool[k].frame))
  {
    WalkingEnd(s, m, t, ps, k, d);
    DirIsNode(m, t, d);
    hide WellFormed, NodeOk, WalkTree, WalkPool, Index, Slot, ZeroPage, OnlyEntry, EmptyDir;
    LinkedPool(s, m, t, k, d, Index(s.q.v, t[d].level), m', t');
    LinkedTree(s, m, t, ps, k, d, m', t', ps', Loc(false, PAGE * s.pool[k].frame));
  }

  lemma {:induction false} StopAlongPath(m: Mem, root: Loc, v: nat, l: Level, last: Level)
    requires l <= last && DirAt(m, root, v, l).Some?
    ensures StopFrom(m, root, 0, v, last) == StopFrom(m, DirAt(m, root, v, l).value, l, v, last)
  {
    if l > 0 { StopAlongPath(m, root, v, l - 1, last); }
  }

  // What a completed call of map_page_directory() has done.
  ghost predicate MapDone(s: Start, ret: int, m: Mem, t: Tree, ps: seq<PdPage>) {
    && ret == s.Return()
    && (ret == 0 ==> MapsPage(s.m, m, s.t, s.root, s.q))
    && (ret != 0 ==> SameLookups(s.m, m, s.t))
    && (ret == 0 || ret == 1 ==> forall again :: MapReturn(m, s.root, s.q, again) == 1)
    && (s.q.IsBad() || !s.End().entry.IsInvalid() ==> m == s.m && ps == s.ps)
    && GrowsTree(s.t, t) && GrowsList(m, s.ps, ps) && KeepsRest(s, m, t, ps)
  }

  lemma NewestStayLinked(m: Mem, m': Mem, t: Tree, ps: seq<PdPage>, k: nat, d: Loc)
    requires k <= |ps| && d in t && (forall j | 0 <= j < k :: LinkedAbove(m, t, ps[j], t[d].level))
    requires forall x | PageOf(x) != d :: Read(m', x) == Read(m, x)
    ensures GrowsList(m', ps[k..], ps)
  {
    forall j | 0 <= j < k
      ensures IsLinked(m', ps[j])
    {
      assert LinkedAbove(m, t, ps[j], t[d].level);
    }
  }

  lemma WalkingLeaf(s: Start, m: Mem, t: Tree, ps: seq<PdPage>, k: nat, d: Loc, m': Mem)
    requires WellFormed(m, t) && Walking(s, m, t, ps, k, d) && t[d].level == s.q.Last()
    requires var i := Index(s.q.v, t[d].level); var e := EntryAt(m, t, d, i);
      && i < Entries(t[d].level) && e.IsInvalid()
      && m' == (if t[d].level == 3 then m[Loc(d.vid, d.addr + 16 * i) := s.q.Leaf(e)] else m)
               [Slot(d, t[d].level, i) := s.q.Leaf(e)]
    ensures WellFormed(m', t) && MapDone(s, 0, m', t, ps)
  {
    hide WellFormed, NodeOk, SameLookups, FreshPool, LinkedAbove, GrowsList, KeepsRest, Index, Span, OnPath, MapsPage;
    var l, i := t[d].level, Index(s.q.v, t[d].level);
    var e := EntryAt(m, t, d, i);
    WalkingEnd(s, m, t, ps, k, d);
    LeafWrite(m, m', t, d, i, s.q.Leaf(e));
    hide OnlyEntry, Slot, PageOf, Index, Span, Cover, InDir, InEntry, NodeOk, WellFormed, Lookup;
    LeafEffect(m, m', t, s.root, d, s.q);
    LeafMaps(s.q, e);
    LeafKeepsRest(s, m, t, ps, d, i, m');
    OwnPath(m', t, s.root, d, s.q);
    StopAlongPath(m', s.root, s.q.v, l, s.q.Last());
    NewestStayLinked(m, m', t, ps, k, d);
    ThenMaps(s.m, m, m', s.t, t, s.root, s.q);
    hide OnPath, SameLookups, MapsPage, FreshPool, KeepsRest, LinkedAbove, PageOf;
  }

  // Every other way out: nothing was written, or only directories were linked.
  lemma WalkingStop(s: Start, m: Mem, t: Tree, ps: seq<PdPage>, k: nat, d: Loc, ret: int)
    requires WellFormed(m, t) && Walking(s, m, t, ps, k, d) && ret == s.Return() && ret != 0
    requires var e := EntryAt(m, t, d, Index(s.q.v, t[d].level));
      && (k > 0 || e.IsInvalid() ==> ret < 0) && (IsPde(e) ==> t[d].level == s.q.Last())
    ensures MapDone(s, ret, m, t, ps)
  {
    WalkingEnd(s, m, t, ps, k, d);
    hide Lookup, OnPath, KeepsRest;
  }

  lemma BadStops(s: Start)
    requires s.q.IsBad()
    ensures MapDone(s, EINVAL, s.m, s.t, s.ps)
  {
    NothingYet(s);
    assert s.ps[0..] == s.ps;
  }

  // Accessibility. Mapping fails with -ENOTRECOVERABLE, and changes nothing, if and only if one of the
  // directories that already exist for the request cannot be accessed; new ones always can.

  ghost predicate IsCutOff(m: Mem, env: Env, root: Loc, q: Request) {
    exists l: Level :: l <= q.Last() && DirAt(m, root, q.v, l).Some? && !Reaches(env, DirAt(m, root, q.v, l).value)
  }

  ghost predicate ReachedTo(m: Mem, env: Env, root: Loc, v: nat, below: nat) {
    forall l: Level | l < below && DirAt(m, root, v, l).Some? :: Reaches(env, DirAt(m, root, v, l).value)
  }

  // Of the directories of `t` exactly the same can be accessed, and more pages are mapped.
  ghost predicate EnvGrows(env0: Env, t0: Tree, env: Env) {
    && env.vidOk == env0.vidOk && env.iommu == env0.iommu && env0.mapped <= env.mapped
    && forall d | d in t0 && NodeOk(d, t0[d]) :: Reaches(env, d) <==> Reaches(env0, d)
  }

  ghost predicate KeepsReach(env0: Env, t0: Tree, ps0: seq<PdPage>, env: Env, t: Tree, ps: seq<PdPage>) {
    && EnvGrows(env0, t0, env)
    && (Resolvable(env0, t0) ==> Resolvable(env, t)) && (ParentsReach(env0, ps0) ==> ParentsReach(env, ps))
    && (ParentsMapped(env0, t0, ps0) ==> ParentsMapped(env, t, ps))
  }

  // What stands in the way of translation: of old obstacles none goes away, and none appears but wide
  // entries that lead to new directories.
  ghost predicate KeepsObstacles(m0: Mem, env0: Env, t0: Tree, m: Mem, env: Env) {
    forall r, u: nat | IsRoot(t0, r) && u < VSPACE ::
      AfterObstacle(ObstacleFrom(m0, env0, r, 0, u), ObstacleFrom(m, env, r, 0, u))
  }

  predicate AfterObstacle(before: Obstacle, now: Obstacle) {
    if before.Clear? then !now.Blocked? else now == before
  }

  lemma {:induction false} LinkKeepsObstacles(
      m: Mem, env: Env, m': Mem, env': Env, t: Tree, p: Loc, i: nat, q: Loc, d: Loc, v: nat)
    requires WellFormed(m, t) && Links(m, m', t, p, i, q) && q !in t && d in t && InDir(t, d, v)
    requires EnvGrows(env, t, env') && Reaches(env', q)
    ensures AfterObstacle(ObstacleFrom(m, env, d, t[d].level, v), ObstacleFrom(m', env', d, t[d].level, v))
    decreases 5 - t[d].level
  {
    DirIsNode(m, t, d);
    hide Index, Span, Cover, InDir, InEntry, NodeOk, Reaches;
    var l := t[d].level;
    var j := Index(v, l);
    WalkStep(m, t, d, v);
    if d == p && j == i {
      EmptyIsClear(m', env', q, l + 1, v);
    } else {
      assert EntryAt(m', t, d, j) == EntryAt(m, t, d, j);
      var e := EntryAt(m, t, d, j);
      if IsPde(e) {
        LinkKeepsObstacles(m, env, m', env', t, p, i, q, e.Child(), v);
      }
    }
  }

  lemma EmptyIsClear(m: Mem, env: Env, q: Loc, l: Level, v: nat)
    requires EmptyDir(m, q, l) && Reaches(env, q)
    ensures ObstacleFrom(m, env, q, l, v) == Clear
  {
    assert 0 <= Index(v, l) < Entries(l);
  }

  lemma {:induction false} PteKeepsObstacles(m: Mem, m': Mem, env: Env, t: Tree, p: Loc, i: nat, d: Loc, v: nat)
    requires WellFormed(m, t) && p in t && OnlyEntry(m, m', t, p, i) && d in t && InDir(t, d, v)
    requires i < Entries(t[p].level) && !IsPde(EntryAt(m, t, p, i)) && !IsPde(EntryAt(m', t, p, i))
    ensures ObstacleFrom(m', env, d, t[d].level, v) == ObstacleFrom(m, env, d, t[d].level, v)
    decreases 5 - t[d].level
  {
    hide Index, Span, Cover, InDir, InEntry, NodeOk, Reaches;
    var j := Index(v, t[d].level);
    WalkStep(m, t, d, v);
    var e := EntryAt(m, t, d, j);
    if !(d == p && j == i) {
      assert EntryAt(m', t, d, j) == e;
      if IsPde(e) { PteKeepsObstacles(m, m', env, t, p, i, e.Child(), v); }
    }
  }

  // One more linked directory, or the leaf.
  lemma LinkObstacles(m0: Mem, env0: Env, t0: Tree, m: Mem, env: Env, t: Tree,
                      m': Mem, env': Env, p: Loc, i: nat, q: Loc)
    requires KeepsObstacles(m0, env0, t0, m, env) && WellFormed(m, t) && Links(m, m', t, p, i, q) && q !in t
    requires EnvGrows(env, t, env') && Reaches(env', q) && GrowsTree(t0, t)
    ensures KeepsObstacles(m0, env0, t0, m', env')
  {
    hide WellFormed, Links, EnvGrows, ObstacleFrom, Reaches;
    forall r, u: nat | IsRoot(t0, r) && u < VSPACE
      ensures AfterObstacle(ObstacleFrom(m0, env0, r, 0, u), ObstacleFrom(m', env', r, 0, u))
    {
      RootIn(m, t, r, u);
      LinkKeepsObstacles(m, env, m', env', t, p, i, q, r, u);
    }
  }

  lemma LeafObstacles(m0: Mem, env0: Env, t0: Tree, m: Mem, env: Env, t: Tree, m': Mem, p: Loc, i: nat)
    requires KeepsObstacles(m0, env0, t0, m, env) && WellFormed(m, t) && GrowsTree(t0, t)
    requires p in t && OnlyEntry(m, m', t, p, i)
    requires i < Entries(t[p].level) && !IsPde(EntryAt(m, t, p, i)) && !IsPde(EntryAt(m', t, p, i))
    ensures KeepsObstacles(m0, env0, t0, m', env)
  {
    hide WellFormed, OnlyEntry, ObstacleFrom, Reaches;
    forall r, u: nat | IsRoot(t0, r) && u < VSPACE
      ensures AfterObstacle(ObstacleFrom(m0, env0, r, 0, u), ObstacleFrom(m', env, r, 0, u))
    {
      RootIn(m, t, r, u);
      PteKeepsObstacles(m, m', env, t, p, i, r, u);
    }
  }

  // The part of the loop's state that concerns accessibility.
  ghost predicate WalkReach(s: Start, env0: Env, env: Env, m: Mem, t: Tree, ps: seq<PdPage>, k: nat, d: Loc) {
    && d in t && ReachedTo(m, env, s.root, s.q.v, t[d].level) && KeepsReach(env0, s.t, s.ps, env, t, ps)
    && KeepsObstacles(s.m, env0, s.t, m, env)
    && (k == 0 ==> env == env0) && (k > 0 ==> Reaches(env, d) && !IsCutOff(s.m, env0, s.root, s.q))
  }

  lemma ReachStart(s: Start, env: Env)
    requires IsRoot(s.t, s.root)
    ensures WalkReach(s, env, env, s.m, s.t, s.ps, 0, s.root)
  {
  }

  // All directories on the path down to `d` can be accessed, so the request is not cut off if it ends there.
  lemma ReachEnd(m: Mem, env: Env, root: Loc, q: Request, d: Loc, l: Level)
    requires DirAt(m, root, q.v, l) == Some(d) && ReachedTo(m, env, root, q.v, l) && Reaches(env, d)
    requires l <= q.Last() && (IsPde(Read(m, Slot(d, l, Index(q.v, l)))) ==> l == q.Last())
    ensures !IsCutOff(m, env, root, q)
  {
    forall k: Level | k <= q.Last() && DirAt(m, root, q.v, k).Some?
      ensures Reaches(env, DirAt(m, root, q.v, k).value)
    {
      if k > l { PathAbove(m, root, q.v, k, l + 1); }
    }
  }

  lemma ReachDown(s: Start, env0: Env, env: Env, m: Mem, t: Tree, ps: seq<PdPage>, d: Loc, c: Loc)
    requires WalkReach(s, env0, env, m, t, ps, 0, d) && Reaches(env, d) && t[d].level < 4
    requires DirAt(m, s.root, s.q.v, t[d].level) == Some(d) && c in t && t[c].level == t[d].level + 1
    ensures WalkReach(s, env0, env, m, t, ps, 0, c)
  {
  }

  // The loop goes on to the directory that the entry at `d` points to.
  lemma StepDown(s: Start, env0: Env, env: Env, m: Mem, t: Tree, ps: seq<PdPage>, k: nat, d: Loc)
    requires WellFormed(m, t) && Walking(s, m, t, ps, k, d) && WalkReach(s, env0, env, m, t, ps, k, d)
    requires Reaches(env, d) && t[d].level < s.q.Last() && IsPde(EntryAt(m, t, d, Index(s.q.v, t[d].level)))
    ensures var c := EntryAt(m, t, d, Index(s.q.v, t[d].level)).Child();
            && c in t && t[c].level == t[d].level + 1
            && Walking(s, m, t, ps, k, c) && WalkReach(s, env0, env, m, t, ps, k, c)
  {
    WalkingEnd(s, m, t, ps, k, d);
    WalkPath(s, m, t, ps, k, d);
    WalkingDown(s, m, t, ps, k, d);
    hide WellFormed, Walking, Index, Slot, Read;
    ReachDown(s, env0, env, m, t, ps, d, EntryAt(m, t, d, Index(s.q.v, t[d].level)).Child());
  }

  lemma SameDirsAbove(m: Mem, m': Mem, t: Tree, root: Loc, d: Loc, i: nat, v: nat, env: Env)
    requires WellFormed(m, t) && d in t && OnlyEntry(m, m', t, d, i) && IsRoot(t, root) && v < VSPACE
    requires DirAt(m, root, v, t[d].level) == Some(d) && ReachedTo(m, env, root, v, t[d].level)
    ensures DirAt(m', root, v, t[d].level) == Some(d) && ReachedTo(m', env, root, v, t[d].level)
  {
    forall l: Level | l <= t[d].level
      ensures DirAt(m', root, v, l) == DirAt(m, root, v, l)
    {
      PathAbove(m, root, v, t[d].level, l);
      PathAboveUnchanged(m, m', t, d, i, root, v, l);
    }
  }

  // Mapping the page `frame` makes no directory of the tree accessible but the new one.
  lemma MapsOnlyNew(env: Env, t: Tree, frame: nat)
    requires IsFresh(t, frame)
    ensures EnvGrows(env, t, env.(mapped := env.mapped + {frame}))
    ensures forall x :: Reaches(env, x) ==> Reaches(env.(mapped := env.mapped + {frame}), x)
  {
    forall d | d in t && NodeOk(d, t[d])
      ensures !d.vid ==> d.addr / PAGE != frame
    {
      Digit(d.addr, PAGE, 0, d.addr / PAGE);
    }
  }

  lemma ReachLink(s: Start, env0: Env, env: Env, m: Mem, t: Tree, ps: seq<PdPage>, k: nat, d: Loc,
                  m': Mem, t': Tree, ps': seq<PdPage>)
    requires Sound(m, t, ps) && Walking(s, m, t, ps, k, d) && WalkReach(s, env0, env, m, t, ps, k, d) && Reaches(env, d)
    requires k < |s.pool| && s.pool[k].Page? && t[d].level < s.q.Last() && IsFresh(t, s.pool[k].frame)
    requires LinksPage(m, t, ps, d, Index(s.q.v, t[d].level), m', t', ps', Loc(false, PAGE * s.pool[k].frame))
    ensures WalkReach(s, env0, env.(mapped := env.mapped + {s.pool[k].frame}), m', t', ps', k + 1,
                      Loc(false, PAGE * s.pool[k].frame))
  {
    var frame := s.pool[k].frame;
    var env', q, i := env.(mapped := env.mapped + {frame}), Loc(false, PAGE * frame), Index(s.q.v, t[d].level);
    assert Reaches(env', q) by { Digit(q.addr, PAGE, 0, frame); }
    hide Walking, WellFormed, IsCutOff, KeepsReach, KeepsObstacles, EnvGrows, Slot, Read, ZeroPage, NodeOk;
    hide Index, Reaches, EmptyDir, PageOf, OnlyEntry, IsFresh;
    WalkPath(s, m, t, ps, k, d);
    DirIn(m, t, d);
    assert i < Entries(t[d].level) && t'[q].level == t[d].level + 1;
    MapsOnlyNew(env, t, frame);
    if k == 0 { ReachEnd(m, env, s.root, s.q, d, t[d].level); }
    LinkReach(s, env0, env, t, ps, d, i, t', ps', frame);
    LinkObstacles(s.m, env0, s.t, m, env, t, m', env', d, i, q);
    SameDirsAbove(m, m', t, s.root, d, i, s.q.v, env);
    ReachedFurther(m', env, env', s.root, s.q.v, t[d].level, d);
  }

  lemma ReachedFurther(m: Mem, env: Env, env': Env, root: Loc, v: nat, l: Level, d: Loc)
    requires ReachedTo(m, env, root, v, l) && DirAt(m, root, v, l) == Some(d) && Reaches(env, d)
    requires forall x :: Reaches(env, x) ==> Reaches(env', x)
    ensures ReachedTo(m, env', root, v, l + 1)
  {
    hide Reaches;
  }

  lemma WalkPath(s: Start, m: Mem, t: Tree, ps: seq<PdPage>, k: nat, d: Loc)
    requires Walking(s, m, t, ps, k, d)
    ensures IsRoot(t, s.root) && DirAt(m, s.root, s.q.v, t[d].level) == Some(d) && s.q.v < VSPACE
    ensures k == 0 ==> m == s.m && t == s.t
    ensures GrowsTree(s.t, t)
  {
    OwnPath(m, t, s.root, d, s.q);
  }

  lemma LinkReach(s: Start, env0: Env, env: Env, t: Tree, ps: seq<PdPage>, d: Loc, i: nat,
                  t': Tree, ps': seq<PdPage>, frame: nat)
    requires KeepsReach(env0, s.t, s.ps, env, t, ps) && GrowsTree(s.t, t) && IsFresh(t, frame) && Reaches(env, d)
    requires AllTracked(t, ps)
    requires d in t && t[d].level < 4 && t' == t[Loc(false, PAGE * frame) := ChildNode(d, t[d], i)]
    requires |ps'| > 0 && ps'[1..] == ps && PageOf(ps'[0].ParentSlot()) == d
    ensures KeepsReach(env0, s.t, s.ps, env.(mapped := env.mapped + {frame}), t', ps')
  {
    var env', q := env.(mapped := env.mapped + {frame}), Loc(false, PAGE * frame);
    MapsOnlyNew(env, t, frame);
    Digit(q.addr, PAGE, 0, frame);
    assert Reaches(env', q);
    hide PageOf, NodeOk, Reaches;
    assert forall p | p in ps' :: p == ps'[0] || p in ps'[1..];
    forall p | p in ps
      ensures PageOf(p.ParentSlot()) != q
    {
      assert IsTracked(t, p);
    }
  }

  // A completed call of map_page_directory().
  ghost predicate MapCalled(s: Start, env0: Env, ret: int, env: Env, m: Mem, t: Tree, ps: seq<PdPage>) {
    if !s.q.IsBad() && IsCutOff(s.m, env0, s.root, s.q) then
      ret == ENOTRECOVERABLE && env == env0 && m == s.m && t == s.t && ps == s.ps
    else
      && MapDone(s, ret, m, t, ps) && KeepsReach(env0, s.t, s.ps, env, t, ps)
      && KeepsObstacles(s.m, env0, s.t, m, env)
      && (ret == 0 || ret == 1 ==> !IsCutOff(m, env, s.root, s.q))
  }

  lemma CutOffCall(s: Start, env0: Env, env: Env, m: Mem, t: Tree, ps: seq<PdPage>, k: nat, d: Loc)
    requires Walking(s, m, t, ps, k, d) && WalkReach(s, env0, env, m, t, ps, k, d) && !Reaches(env, d)
    ensures MapCalled(s, env0, ENOTRECOVERABLE, env, m, t, ps)
  {
    WalkPath(s, m, t, ps, k, d);
    WalkList(s, m, t, ps, k, d);
  }

  lemma WalkList(s: Start, m: Mem, t: Tree, ps: seq<PdPage>, k: nat, d: Loc)
    requires Walking(s, m, t, ps, k, d)
    ensures k == 0 ==> ps == s.ps
    ensures t[d].level <= s.q.Last()
  {
    if k == 0 { assert ps[0..] == ps; }
  }

  // The loop ends at `d` and returns something else than 0.
  lemma StoppedCall(s: Start, env0: Env, env: Env, m: Mem, t: Tree, ps: seq<PdPage>, k: nat, d: Loc, ret: int)
    requires WellFormed(m, t) && Walking(s, m, t, ps, k, d) && WalkReach(s, env0, env, m, t, ps, k, d)
    requires Reaches(env, d) && ret == s.Return() && ret != 0
    requires var e := EntryAt(m, t, d, Index(s.q.v, t[d].level));
      && (k > 0 || e.IsInvalid() ==> ret < 0) && (IsPde(e) ==> t[d].level == s.q.Last())
    ensures MapCalled(s, env0, ret, env, m, t, ps)
  {
    WalkingStop(s, m, t, ps, k, d, ret);
    WalkPath(s, m, t, ps, k, d);
    WalkList(s, m, t, ps, k, d);
    hide WellFormed, Walking, MapDone, KeepsReach, IsCutOff, MapReturn;
    if k == 0 { ReachEnd(m, env, s.root, s.q, d, t[d].level); }
  }

  // The loop has written the leaf at `d`.
  lemma LeafCall(s: Start, env0: Env, env: Env, m: Mem, t: Tree, ps: seq<PdPage>, k: nat, d: Loc, m': Mem)
    requires WellFormed(m, t) && Walking(s, m, t, ps, k, d) && WalkReach(s, env0, env, m, t, ps, k, d)
    requires Reaches(env, d) && t[d].level == s.q.Last() && MapDone(s, 0, m', t, ps)
    requires var i := Index(s.q.v, t[d].level); var e := EntryAt(m, t, d, i);
      i < Entries(t[d].level) && e.IsInvalid() && OnlyEntry(m, m', t, d, i) && EntryAt(m', t, d, i).IsPte()
    ensures MapCalled(s, env0, 0, env, m', t, ps)
  {
    WalkPath(s, m, t, ps, k, d);
    LeafObstacles(s.m, env0, s.t, m, env, t, m', d, Index(s.q.v, t[d].level));
    hide WellFormed, Walking, MapDone, KeepsReach, IsCutOff;
    SameDirsAbove(m, m', t, s.root, d, Index(s.q.v, t[d].level), s.q.v, env);
    if k == 0 { ReachEnd(m, env, s.root, s.q, d, t[d].level); }
    ReachEnd(m', env, s.root, s.q, d, t[d].level);
  }

  lemma LeafWritten(s: Start, env0: Env, env: Env, m: Mem, t: Tree, ps: seq<PdPage>, k: nat, d: Loc, m': Mem)
    requires WellFormed(m, t) && Walking(s, m, t, ps, k, d) && WalkReach(s, env0, env, m, t, ps, k, d)
    requires Reaches(env, d) && t[d].level == s.q.Last()
    requires var i := Index(s.q.v, t[d].level); var e := EntryAt(m, t, d, i);
      && i < Entries(t[d].level) && e.IsInvalid()
      && m' == (if t[d].level == 3 then m[Loc(d.vid, d.addr + 16 * i) := s.q.Leaf(e)] else m)
               [Slot(d, t[d].level, i) := s.q.Leaf(e)]
    ensures WellFormed(m', t) && MapCalled(s, env0, 0, env, m', t, ps)
  {
    assert !s.q.IsBad();
    hide Walking, WalkReach, MapDone, MapCalled, WellFormed, Index, Slot, Request.Leaf, Reaches, OnlyEntry, PageOf;
    var i := Index(s.q.v, t[d].level);
    WalkingLeaf(s, m, t, ps, k, d, m');
    LeafWrite(m, m', t, d, i, s.q.Leaf(EntryAt(m, t, d, i)));
    LeafMaps(s.q, EntryAt(m, t, d, i));
    LeafCall(s, env0, env, m, t, ps, k, d, m');
  }

  lemma BadCall(s: Start, env: Env)
    requires s.q.IsBad()
    ensures MapCalled(s, env, EINVAL, env, s.m, s.t, s.ps)
  {
    BadStops(s);
    hide MapDone;
  }

  // Unless a DMA mapping fails with that very error, the answer -EINVAL tells exactly the requests that are
  // not aligned, not in the address space, or ask for a frame that no entry of the aperture can hold.
  lemma RefusedExactly(s: Start, env0: Env, ret: int, env: Env, m: Mem, t: Tree, ps: seq<PdPage>)
    requires MapCalled(s, env0, ret, env, m, t, ps)
    requires forall i | 0 <= i < |s.pool| && s.pool[i].DmaError? :: s.pool[i].err != EINVAL
    ensures ret == EINVAL <==> !(IsAligned(s.q) && HasPageEntry(s.q.paddr, s.q.target))
  {
    hide Request.IsBad, IsAligned, HasPageEntry, AllocReturn, StopFrom, IsCutOff, KeepsReach, KeepsObstacles, KeepsRest;
    hide SameLookups, MapsPage, GrowsTree, GrowsList, Entry.Frame;
    GoodExactly(s.q);
    AllocNotInvalid(s.pool, s.q.Last() - s.End().level);
  }

  lemma {:induction false} AllocNotInvalid(pool: seq<Outcome>, n: nat)
    requires forall i | 0 <= i < |pool| && pool[i].DmaError? :: pool[i].err != EINVAL
    ensures AllocReturn(pool, n) != EINVAL
  {
    if n > 0 && pool != [] && pool[0].Page? {
      assert forall i | 0 <= i < |pool[1..]| :: pool[1..][i] == pool[i + 1];
      AllocNotInvalid(pool[1..], n - 1);
    }
  }

  lemma InRequest(q: Request, v: nat)
    requires !q.IsBad() && q.v <= v < q.v + q.Size()
    ensures v < VSPACE && v % q.Size() == v - q.v
  {
    SameSlice(q, q.Last(), v);
    Digit(v, q.Size(), v - q.v, q.v / q.Size());
  }

  // After a request was carried out or failed.
  lemma AfterMap(s: Start, env0: Env, ret: int, env: Env, m: Mem, t: Tree, ps: seq<PdPage>, v: nat)
    requires MapCalled(s, env0, ret, env, m, t, ps) && IsRoot(s.t, s.root) && v < VSPACE
    requires s.q.IsBad() || !IsCutOff(s.m, env0, s.root, s.q)
    ensures ret == 0 && s.q.v <= v < s.q.v + s.q.Size() ==>
      Lookup(s.m, s.root, v) == NotMapped && Lookup(m, s.root, v) == Mapped(s.q.paddr, s.q.target, s.q.Last())
    ensures !(ret == 0 && s.q.v <= v < s.q.v + s.q.Size()) ==> Lookup(m, s.root, v) == Lookup(s.m, s.root, v)
    ensures NarrowWalk(m, s.root, 0, v) <==>
      NarrowWalk(s.m, s.root, 0, v) && NewNarrow(m, ps[..|ps| - |s.ps|], s.root, v)
    ensures AfterObstacle(ObstacleFrom(s.m, env0, s.root, 0, v), ObstacleFrom(m, env, s.root, 0, v))
    ensures ret == 0 ==> !s.q.IsBad() && !IsCutOff(m, env, s.root, s.q)
  {
    hide Lookup, NarrowWalk, NewNarrow, ObstacleFrom, AfterObstacle, KeepsReach, IsCutOff, MapReturn;
    assert KeepsRest(s, m, t, ps);
    if s.q.IsBad() { BadReturns(s); }
  }

  lemma BadReturns(s: Start)
    requires s.q.IsBad()
    ensures s.Return() == EINVAL
  {
  }

  // A walk past accessible directories only is obstructed by wide entries only.
  lemma {:induction false} ClearOrWide(m: Mem, env: Env, d: Loc, l: Level, v: nat)
    requires !ObstacleFrom(m, env, d, l, v).Blocked?
    ensures ObstacleFrom(m, env, d, l, v).Clear? <==> NarrowWalk(m, d, l, v)
    decreases 5 - l
  {
    hide Index, Slot, Read, Reaches, IsWide;
    var e := Read(m, Slot(d, l, Index(v, l)));
    if IsPde(e) && l < 4 && !IsWide(e) { ClearOrWide(m, env, e.Child(), l + 1, v); }
  }

  // Nothing that cannot be accessed lies on the walk to a page mapped at the level of the request.
  lemma {:induction false} NotBlocked(m: Mem, env: Env, root: Loc, q: Request, v: nat, d: Loc, l: Level)
    requires !q.IsBad() && q.v <= v < q.v + q.Size() && !IsCutOff(m, env, root, q)
    requires l <= q.Last() && DirAt(m, root, v, l) == Some(d)
    requires LookupFrom(m, d, l, v).Mapped? && LookupFrom(m, d, l, v).level == q.Last()
    ensures !ObstacleFrom(m, env, d, l, v).Blocked?
    decreases 5 - l
  {
    SameDirs(m, root, q, v, l);
    assert Reaches(env, d);
    hide Index, Slot, Read, Reaches, IsWide, IsCutOff, Request.IsBad, Request.Size, Entry.Child, Entry.Frame;
    var e := Read(m, Slot(d, l, Index(v, l)));
    if IsPde(e) {
      LevelBelow(m, e.Child(), l + 1, v);
      NotBlocked(m, env, root, q, v, e.Child(), l + 1);
    }
  }

  // Translating after a successful request, one address of its page at a time. If the walk needed but
  // 24 address bits before, the address was unmapped. Now it is translated to the physical address
  // asked for if and only if the walk needed but 24 bits before, so do the new directories on it, the
  // frame lies below 2^36, and the address is the first of the page.
  lemma MapThenTranslate(
      s: Start, env0: Env, env: Env, m: Mem, t: Tree, ps: seq<PdPage>, pd: PdConfig, v: nat)
    requires MapCalled(s, env0, 0, env, m, t, ps) && s.root == pd.Root() && pd.target != INVALID
    requires WellFormed(s.m, s.t) && WellFormed(m, t) && IsRoot(s.t, s.root) && IsRoot(t, s.root)
    requires s.q.v <= v < s.q.v + s.q.Size() && v % PAGE == 0 && v < VSPACE
    ensures NarrowWalk(s.m, s.root, 0, v) ==> Translate(s.m, env0, pd, v) == Translated(ENXIO, 0, INVALID)
    ensures AliasIsDead(m, env, Obstructs(m, env, pd, v), v) ==>
      (Translate(m, env, pd, v) == Translated(0, s.q.paddr + (v - s.q.v), s.q.target) <==>
        && NarrowWalk(s.m, s.root, 0, v) && NewNarrow(m, ps[..|ps| - |s.ps|], s.root, v)
        && s.q.paddr < NARROW && v == s.q.v)
  {
    hide MapCalled, LookupFrom, WellFormed, NarrowWalk, NewNarrow, ObstacleFrom, AliasIsDead, WalkFrom, IsCutOff;
    ZeroReaches(s, env0, env, m, t, ps);
    AfterMap(s, env0, 0, env, m, t, ps, v);
    InRequest(s.q, v);
    GoodRequest(s.q);
    NotBlocked(m, env, s.root, s.q, v, s.root, 0);
    ClearOrWide(m, env, s.root, 0, v);
    ClearOrWide(s.m, env0, s.root, 0, v);
    TranslateLaw(s.m, env0, s.t, pd, v);
    if AliasIsDead(m, env, Obstructs(m, env, pd, v), v) { TranslateExact(m, env, t, pd, v); }
  }

  lemma ZeroReaches(s: Start, env0: Env, env: Env, m: Mem, t: Tree, ps: seq<PdPage>)
    requires MapCalled(s, env0, 0, env, m, t, ps)
    ensures s.q.IsBad() || !IsCutOff(s.m, env0, s.root, s.q)
  {
  }

  // Every other address, and after a failed call every address, is translated as before, whenever 24
  // bits suffice for its walk and for the new directories on it. (Without the latter a call, even one that
  // fails, can link a directory whose low bits name a page that translation then reads instead.)
  lemma OthersTranslateTheSame(
      s: Start, env0: Env, ret: int, env: Env, m: Mem, t: Tree, ps: seq<PdPage>, pd: PdConfig, v: nat)
    requires MapCalled(s, env0, ret, env, m, t, ps) && s.root == pd.Root() && pd.target != INVALID
    requires WellFormed(s.m, s.t) && WellFormed(m, t) && IsRoot(s.t, s.root) && IsRoot(t, s.root)
    requires !(ret == 0 && s.q.v <= v < s.q.v + s.q.Size()) && v < VSPACE
    requires NarrowWalk(s.m, s.root, 0, v) && NewNarrow(m, ps[..|ps| - |s.ps|], s.root, v)
    ensures Translate(m, env, pd, v) == Translate(s.m, env0, pd, v)
  {
    hide LookupFrom, WellFormed, NarrowWalk, NewNarrow, ObstacleFrom, WalkFrom, IsCutOff, MapDone, KeepsReach;
    hide KeepsObstacles;
    if s.q.IsBad() || !IsCutOff(s.m, env0, s.root, s.q) {
      AfterMap(s, env0, ret, env, m, t, ps, v);
      NarrowNotAliased(s.m, env0, s.root, 0, v);
      NarrowNotAliased(m, env, s.root, 0, v);
      TranslateLaw(s.m, env0, s.t, pd, v);
      TranslateLaw(m, env, t, pd, v);
    }
  }

  lemma {:induction false} NarrowNotAliased(m: Mem, env: Env, d: Loc, l: Level, v: nat)
    requires NarrowWalk(m, d, l, v)
    ensures !ObstacleFrom(m, env, d, l, v).Aliased?
    decreases 5 - l
  {
    hide Index, Slot, Read, Reaches;
    var e := Read(m, Slot(d, l, Index(v, l)));
    if IsPde(e) && l < 4 { NarrowNotAliased(m, env, e.Child(), l + 1, v); }
  }
}
