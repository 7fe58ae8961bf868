// The V2 page-table format (four directory levels and a page-table level) as a tree in memory.
module PageTable {
  import opened Wrappers
  import opened GpuMemory

  // Geometry: entries per level, bytes per entry, and the bytes of address space that one
  // entry covers (2 to the power of the level's least significant index bit).

  type Level = l: nat | l < 5

  const VSPACE: nat := 0x2_0000_0000_0000

  function Entries(l: Level): nat {
    if l == 0 then 4 else if l == 3 then 256 else 512
  }

  function EntrySize(l: Level): nat { if l == 3 then 16 else 8 }

  function Span(l: Level): nat {
    match l
    case 0 => 0x8000_0000_0000
    case 1 => 0x40_0000_0000
    case 2 => 0x2000_0000
    case 3 => 0x20_0000
    case _ => 0x1000
  }

  // Bytes of address space covered by a whole directory.
  function Cover(l: Level): nat { if l == 0 then VSPACE else Span(l - 1) }

  function Index(v: nat, l: Level): nat { v / Span(l) % Entries(l) }

  // The slices of an address are its digits: 2 + 9 + 9 + 8 + 9 bits above the 12 of the offset.
  lemma SlicesAreDigits(v: nat)
    requires v < 0x2_0000_0000_0000
    ensures Index(v, 0) < 4 && Index(v, 1) < 512 && Index(v, 2) < 512 && Index(v, 3) < 256 && Index(v, 4) < 512
    ensures v == 0x8000_0000_0000 * Index(v, 0) + 0x40_0000_0000 * Index(v, 1) + 0x2000_0000 * Index(v, 2)
      + 0x20_0000 * Index(v, 3) + 0x1000 * Index(v, 4) + v % 0x1000
  {
    var v4 := v / 0x1000;
    var v3 := v4 / 512;
    var v2 := v3 / 256;
    var v1 := v2 / 512;
    assert v / 0x20_0000 == v3 && v / 0x2000_0000 == v2 && v / 0x40_0000_0000 == v1 && v / 0x8000_0000_0000 == v1 / 512;
  }

  // The word of entry `i`: the 16-byte entries of level 3 keep it in their upper half.
  function Slot(d: Loc, l: Level, i: nat): Loc {
    Loc(d.vid, d.addr + EntrySize(l) * i + if l == 3 then 8 else 0)
  }

  lemma Geometry(l: Level)
    ensures Cover(l) == Entries(l) * Span(l)
    ensures l < 4 ==> Cover(l + 1) == Span(l)
    ensures EntrySize(l) * Entries(l) <= PAGE
  {
  }

  // Entry `i` of a directory that starts at virtual address `base` covers exactly the addresses
  // whose slice for that level is `i`.
  lemma IndexCovers(l: Level, base: nat, v: nat)
    requires base % Cover(l) == 0 && base <= v < base + Cover(l)
    ensures Index(v, l) < Entries(l)
    ensures base + Index(v, l) * Span(l) <= v < base + Index(v, l) * Span(l) + Span(l)
  {
    var s, e := Span(l), Entries(l);
    Geometry(l);
    var i := (v - base) / s;
    assert v - base == s * i + (v - base) % s;
    if i >= e {
      MulMono(e, i, s);
    }
    IndexOf(l, base, i, v);
  }

  lemma IndexOf(l: Level, base: nat, i: nat, v: nat)
    requires base % Cover(l) == 0 && i < Entries(l)
    requires base + i * Span(l) <= v < base + i * Span(l) + Span(l)
    ensures Index(v, l) == i
  {
    var s, e := Span(l), Entries(l);
    Geometry(l);
    var c := base / (e * s);
    calc {
      base + i * s;
      (e * s) * c + i * s;
      { MulAssoc(e, s, c); }
      s * (e * c) + s * i;
      s * (e * c + i);
    }
    Digit(v, s, v - (base + i * s), e * c + i);
    Digit(e * c + i, e, i, c);
  }

  lemma MulMono(a: nat, b: nat, k: nat)
    requires a <= b
    ensures a * k <= b * k
  {
  }

  lemma Distribute(z: nat, a: nat, b: nat)
    ensures z * (a + b) == z * a + z * b
  {
  }

  lemma MulAssoc(e: nat, s: nat, c: nat)
    ensures (e * s) * c == s * (e * c)
  {
  }

  lemma ChildBase(l: Level, base: nat, i: nat)
    requires l < 4 && base % Cover(l) == 0 && i < Entries(l)
    ensures (base + i * Span(l)) % Cover(l + 1) == 0
    ensures i * Span(l) + Span(l) <= Cover(l)
  {
    var s, e := Span(l), Entries(l);
    Geometry(l);
    var c := base / (e * s);
    MulAssoc(e, s, c);
    assert base + i * s == s * (e * c + i);
    Digit(base + i * s, s, 0, e * c + i);
    MulMono(i + 1, e, s);
  }

  // Addresses of one aligned block have the same slices at all levels whose entries cover the block.
  lemma SameQuotient(v: nat, u: nat, z: nat, c: nat)
    requires z > 0 && c > 0 && v % z == 0 && v <= u < v + z
    ensures u / (z * c) == v / (z * c)
  {
    var k := v / z;
    var a, r, x := k / c, k % c, u - v;
    assert v == z * k;
    MulAssoc(z, c, a);
    Distribute(z, c * a, r);
    Distribute(z, r, 1);
    MulMono(r + 1, c, z);
    Digit(v, z * c, z * r, a);
    Digit(u, z * c, z * r + x, a);
  }

  lemma SameIndex(v: nat, u: nat, l: Level, k: Level)
    requires k <= l && v % Span(l) == 0 && v <= u < v + Span(l)
    ensures Index(u, k) == Index(v, k)
  {
    var c := Span(k) / Span(l);
    assert Span(l) * c == Span(k) && c > 0;
    SameQuotient(v, u, Span(l), c);
  }

  lemma SlotInPage(d: Loc, l: Level, i: nat)
    requires d.addr % PAGE == 0 && i < Entries(l)
    ensures PageOf(Slot(d, l, i)) == d
  {
  }

  lemma SlotsDiffer(d: Loc, k: Level, a: nat, p: Loc, l: Level, b: nat)
    requires d.addr % PAGE == 0 && p.addr % PAGE == 0
    requires a < Entries(k) && b < Entries(l)
    ensures d != p ==> Slot(d, k, a) != Slot(p, l, b)
    ensures k == l && a != b ==> Slot(d, k, a) != Slot(p, l, b) || d != p
  {
    SlotInPage(d, k, a);
    SlotInPage(p, l, b);
  }

  // The tree. Every directory has one recorded place in it: its level, the one entry that may
  // point to it, the table it belongs to and the virtual address where its coverage starts.

  datatype Node = Node(level: Level, parent: Option<Loc>, root: Loc, base: nat)

  type Tree = map<Loc, Node>

  predicate IsPde(e: Entry) { !e.IsInvalid() && !e.IsPte() }

  predicate NodeOk(d: Loc, n: Node) {
    && d.addr % PAGE == 0 && 0 < d.addr <= TOP_PAGE
    && n.base % Cover(n.level) == 0 && n.base + Cover(n.level) <= VSPACE
    && (n.level == 0 <==> n.parent == None)
    && (n.level == 0 ==> n.root == d && n.base == 0)
  }

  function ChildNode(d: Loc, n: Node, i: nat): Node
    requires n.level < 4
  {
    Node(n.level + 1, Some(Slot(d, n.level, i)), n.root, n.base + i * Span(n.level))
  }

  function EntryAt(m: Mem, t: Tree, d: Loc, i: nat): Entry
    requires d in t
  {
    Read(m, Slot(d, t[d].level, i))
  }

  predicate EntryOk(m: Mem, t: Tree, d: Loc, i: nat)
    requires d in t
  {
    var n, e := t[d], EntryAt(m, t, d, i);
    && (e.IsPte() ==> n.level >= 3)
    && (IsPde(e) ==> n.level < 4 && e.Child() in t && t[e.Child()] == ChildNode(d, n, i))
    && (IsPde(e) && e.target == 2 ==> e.addrHi == 0)
  }

  ghost predicate WellFormed(m: Mem, t: Tree) {
    && (forall d | d in t :: NodeOk(d, t[d]))
    && (forall d, i | d in t && 0 <= i < Entries(t[d].level) :: EntryOk(m, t, d, i))
  }

  // One zeroed page is a table that maps nothing.
  lemma EmptyTable(root: Loc)
    requires root.addr % PAGE == 0 && 0 < root.addr <= TOP_PAGE
    ensures WellFormed(map[], map[root := Node(0, None, root, 0)])
    ensures forall v :: Lookup(map[], root, v) == NotMapped
  {
  }

  ghost predicate IsRoot(t: Tree, root: Loc) { root in t && t[root].level == 0 }

  ghost predicate InDir(t: Tree, d: Loc, v: nat)
    requires d in t
  {
    t[d].base <= v < t[d].base + Cover(t[d].level)
  }

  // The addresses covered by entry `i` of directory `d`.
  ghost predicate InEntry(t: Tree, d: Loc, i: nat, v: nat)
    requires d in t
  {
    t[d].base + i * Span(t[d].level) <= v < t[d].base + i * Span(t[d].level) + Span(t[d].level)
  }

  // No directory has two parent entries.
  lemma OneParent(m: Mem, t: Tree, d: Loc, i: nat, d': Loc, i': nat)
    requires WellFormed(m, t) && d in t && d' in t
    requires i < Entries(t[d].level) && i' < Entries(t[d'].level)
    requires IsPde(EntryAt(m, t, d, i)) && IsPde(EntryAt(m, t, d', i'))
    requires EntryAt(m, t, d, i).Child() == EntryAt(m, t, d', i').Child()
    ensures d == d' && i == i'
  {
    assert EntryOk(m, t, d, i) && EntryOk(m, t, d', i');
    SlotsDiffer(d, t[d].level, i, d', t[d'].level, i');
  }

  // Translation: the walk of the hardware. A page is mapped by an entry at some level; what the
  // address denotes lies as far into the frame as the address lies into the page.

  datatype Translation = NotMapped | Mapped(frame: nat, aperture: U2, level: Level)

  function Physical(r: Translation, v: nat): nat
    requires r.Mapped?
  {
    r.frame + v % Span(r.level)
  }

  function LookupFrom(m: Mem, d: Loc, l: Level, v: nat): Translation
    decreases 5 - l
  {
    var e := Read(m, Slot(d, l, Index(v, l)));
    if e.IsInvalid() then NotMapped
    else if e.IsPte() then Mapped(e.Frame(), e.Aperture(), l)
    else if l < 4 then LookupFrom(m, e.Child(), l + 1, v)
    else NotMapped
  }

  function Lookup(m: Mem, root: Loc, v: nat): Translation { LookupFrom(m, root, 0, v) }

  lemma {:induction false} LevelBelow(m: Mem, d: Loc, l: Level, v: nat)
    requires LookupFrom(m, d, l, v).Mapped?
    ensures LookupFrom(m, d, l, v).level >= l
    decreases 5 - l
  {
    hide Index, Slot, Read;
    var e := Read(m, Slot(d, l, Index(v, l)));
    if IsPde(e) { LevelBelow(m, e.Child(), l + 1, v); }
  }

  // The same walk, by byte offsets and bits of the address: 8-byte entries, but 16-byte ones at level 3.
  function HardwareWalk(m: Mem, root: Loc, v: nat): Translation {
    var e0 := Read(m, Loc(root.vid, root.addr + 8 * (v / 0x8000_0000_0000 % 4)));
    if !IsPde(e0) then PageAt(e0, 0)
    else
      var e1 := Read(m, Loc(e0.Child().vid, e0.Child().addr + 8 * (v / 0x40_0000_0000 % 512)));
      if !IsPde(e1) then PageAt(e1, 1)
      else
        var e2 := Read(m, Loc(e1.Child().vid, e1.Child().addr + 8 * (v / 0x2000_0000 % 512)));
        if !IsPde(e2) then PageAt(e2, 2)
        else
          var e3 := Read(m, Loc(e2.Child().vid, e2.Child().addr + 16 * (v / 0x20_0000 % 256) + 8));
          if !IsPde(e3) then PageAt(e3, 3)
          else PageAt(Read(m, Loc(e3.Child().vid, e3.Child().addr + 8 * (v / 0x1000 % 512))), 4)
  }

  function PageAt(e: Entry, l: Level): Translation {
    if e.IsPte() then Mapped(e.Frame(), e.Aperture(), l) else NotMapped
  }

  lemma LookupIsHardwareWalk(m: Mem, root: Loc, v: nat)
    ensures Lookup(m, root, v) == HardwareWalk(m, root, v)
  {
    hide LookupFrom, PageAt, IsPde, Entry.Child, Read;
    LookupLevel(m, root, 0, v);
    var d1 := Read(m, Slot(root, 0, Index(v, 0))).Child();
    LookupLevel(m, d1, 1, v);
    var d2 := Read(m, Slot(d1, 1, Index(v, 1))).Child();
    LookupLevel(m, d2, 2, v);
    var d3 := Read(m, Slot(d2, 2, Index(v, 2))).Child();
    LookupLevel(m, d3, 3, v);
    var d4 := Read(m, Slot(d3, 3, Index(v, 3))).Child();
    LookupLevel(m, d4, 4, v);
  }

  // One level of the walk.
  lemma LookupLevel(m: Mem, d: Loc, l: Level, v: nat)
    ensures var e := Read(m, Slot(d, l, Index(v, l)));
      LookupFrom(m, d, l, v) == if IsPde(e) && l < 4 then LookupFrom(m, e.Child(), l + 1, v) else PageAt(e, l)
  {
  }

  // The directory that the walk for `v` reaches at level `l`, if it gets there.
  ghost function DirAt(m: Mem, root: Loc, v: nat, l: Level): Option<Loc> {
    if l == 0 then Some(root)
    else match DirAt(m, root, v, l - 1)
      case None => None
      case Some(d) =>
        var e := Read(m, Slot(d, l - 1, Index(v, l - 1)));
        if IsPde(e) then Some(e.Child()) else None
  }

  lemma WalkStep(m: Mem, t: Tree, d: Loc, v: nat)
    requires WellFormed(m, t) && d in t && InDir(t, d, v)
    ensures Index(v, t[d].level) < Entries(t[d].level)
    ensures InEntry(t, d, Index(v, t[d].level), v)
    ensures EntryOk(m, t, d, Index(v, t[d].level))
    ensures var e := EntryAt(m, t, d, Index(v, t[d].level));
            IsPde(e) ==> InDir(t, e.Child(), v) && t[e.Child()].root == t[d].root
  {
    assert NodeOk(d, t[d]);
    IndexCovers(t[d].level, t[d].base, v);
    Geometry(t[d].level);
  }

  lemma RootIn(m: Mem, t: Tree, root: Loc, v: nat)
    requires WellFormed(m, t) && IsRoot(t, root) && v < VSPACE
    ensures InDir(t, root, v) && t[root].root == root
  {
    assert NodeOk(root, t[root]);
  }

  lemma DirIn(m: Mem, t: Tree, d: Loc)
    requires WellFormed(m, t) && d in t
    ensures d.addr % PAGE == 0 && 0 < d.addr <= TOP_PAGE
    ensures t[d].level == 0 <==> t[d].parent == None
    ensures forall i | 0 <= i < Entries(t[d].level) :: PageOf(Slot(d, t[d].level, i)) == d
  {
    assert NodeOk(d, t[d]);
    forall i | 0 <= i < Entries(t[d].level)
      ensures PageOf(Slot(d, t[d].level, i)) == d
    {
      SlotInPage(d, t[d].level, i);
    }
  }

  lemma {:induction false} PathInTree(m: Mem, t: Tree, root: Loc, v: nat, l: Level)
    requires WellFormed(m, t) && IsRoot(t, root) && v < VSPACE
    requires DirAt(m, root, v, l).Some?
    ensures var d := DirAt(m, root, v, l).value;
            d in t && t[d].level == l && t[d].root == root && InDir(t, d, v)
  {
    hide Index, Span, Cover, InDir, InEntry, NodeOk;
    if l == 0 {
      RootIn(m, t, root, v);
    } else {
      PathInTree(m, t, root, v, l - 1);
      WalkStep(m, t, DirAt(m, root, v, l - 1).value, v);
    }
  }

  lemma {:induction false} LookupAlongPath(m: Mem, root: Loc, v: nat, l: Level)
    requires DirAt(m, root, v, l).Some?
    ensures Lookup(m, root, v) == LookupFrom(m, DirAt(m, root, v, l).value, l, v)
  {
    if l > 0 {
      LookupAlongPath(m, root, v, l - 1);
    }
  }

  // Effect of changing entry `i` of directory `p`, and nothing else that is part of the tree.

  ghost predicate OnlyEntry(m: Mem, m': Mem, t: Tree, p: Loc, i: nat) {
    forall d, j | d in t && 0 <= j < Entries(t[d].level) && !(d == p && j == i) ::
      EntryAt(m', t, d, j) == EntryAt(m, t, d, j)
  }

  lemma {:induction false} OutsideEntryUnchanged(
      m: Mem, m': Mem, t: Tree, p: Loc, i: nat, d: Loc, v: nat)
    requires WellFormed(m, t) && p in t && i < Entries(t[p].level) && OnlyEntry(m, m', t, p, i)
    requires d in t && InDir(t, d, v)
    requires t[d].root != t[p].root || !InEntry(t, p, i, v)
    ensures LookupFrom(m', d, t[d].level, v) == LookupFrom(m, d, t[d].level, v)
    decreases 5 - t[d].level
  {
    hide Index, Span, Cover, InDir, InEntry, NodeOk;
    var l := t[d].level;
    var j := Index(v, l);
    WalkStep(m, t, d, v);
    assert EntryAt(m', t, d, j) == EntryAt(m, t, d, j);
    var e := EntryAt(m, t, d, j);
    if IsPde(e) {
      OutsideEntryUnchanged(m, m', t, p, i, e.Child(), v);
    }
  }

  lemma {:induction false} PathAboveUnchanged(
      m: Mem, m': Mem, t: Tree, p: Loc, i: nat, root: Loc, v: nat, l: Level)
    requires WellFormed(m, t) && p in t && l <= t[p].level && OnlyEntry(m, m', t, p, i)
    requires IsRoot(t, root) && v < VSPACE && DirAt(m, root, v, l).Some?
    ensures DirAt(m', root, v, l) == DirAt(m, root, v, l)
  {
    hide Index, Span, Cover, InDir, InEntry, NodeOk;
    if l > 0 {
      PathAboveUnchanged(m, m', t, p, i, root, v, l - 1);
      PathInTree(m, t, root, v, l - 1);
      var d := DirAt(m, root, v, l - 1).value;
      WalkStep(m, t, d, v);
      assert EntryAt(m', t, d, Index(v, l - 1)) == EntryAt(m, t, d, Index(v, l - 1));
    }
  }

  lemma PteKeepsTree(m: Mem, m': Mem, t: Tree, p: Loc, i: nat)
    requires WellFormed(m, t) && p in t && t[p].level >= 3 && OnlyEntry(m, m', t, p, i)
    requires EntryAt(m', t, p, i).IsPte()
    ensures WellFormed(m', t)
  {
    forall d, j | d in t && 0 <= j < Entries(t[d].level)
      ensures EntryOk(m', t, d, j)
    {
      assert EntryOk(m, t, d, j);
    }
  }

  // Linking an empty directory `q` below an invalid entry.

  ghost predicate EmptyDir(m: Mem, q: Loc, l: Level) {
    forall j | 0 <= j < Entries(l) :: Read(m, Slot(q, l, j)) == ZERO
  }

  ghost predicate Links(m: Mem, m': Mem, t: Tree, p: Loc, i: nat, q: Loc) {
    && p in t && i < Entries(t[p].level) && t[p].level < 4
    && OnlyEntry(m, m', t, p, i)
    && EntryAt(m, t, p, i).IsInvalid()
    && IsPde(EntryAt(m', t, p, i)) && EntryAt(m', t, p, i).Child() == q
    && (q.vid ==> EntryAt(m', t, p, i).addrHi == 0)
    && EmptyDir(m', q, t[p].level + 1)
  }

  lemma LinkKeepsTree(m: Mem, m': Mem, t: Tree, p: Loc, i: nat, q: Loc)
    requires WellFormed(m, t) && Links(m, m', t, p, i, q)
    requires q !in t && q.addr % PAGE == 0 && 0 < q.addr <= TOP_PAGE
    ensures WellFormed(m', t[q := ChildNode(p, t[p], i)])
  {
    var n := ChildNode(p, t[p], i);
    var t' := t[q := n];
    assert NodeOk(p, t[p]);
    ChildBase(t[p].level, t[p].base, i);
    Geometry(t[p].level);
    forall d, j | d in t' && 0 <= j < Entries(t'[d].level)
      ensures EntryOk(m', t', d, j)
    {
      if d != q {
        assert EntryOk(m, t, d, j);
        assert EntryAt(m', t', d, j) == EntryAt(m', t, d, j);
      }
    }
  }

  lemma {:induction false} LinkKeepsLookups(
      m: Mem, m': Mem, t: Tree, p: Loc, i: nat, q: Loc, d: Loc, v: nat)
    requires WellFormed(m, t) && Links(m, m', t, p, i, q)
    requires d in t && InDir(t, d, v)
    ensures LookupFrom(m', d, t[d].level, v) == LookupFrom(m, d, t[d].level, v)
    decreases 5 - t[d].level
  {
    hide Index, Span, Cover, InDir, InEntry, NodeOk;
    var l := t[d].level;
    var j := Index(v, l);
    WalkStep(m, t, d, v);
    if d == p && j == i {
      LookupEmpty(m', q, l + 1, v);
    } else {
      assert EntryAt(m', t, d, j) == EntryAt(m, t, d, j);
      var e := EntryAt(m, t, d, j);
      if IsPde(e) {
        LinkKeepsLookups(m, m', t, p, i, q, e.Child(), v);
      }
    }
  }

  lemma LookupEmpty(m: Mem, q: Loc, l: Level, v: nat)
    requires EmptyDir(m, q, l)
    ensures LookupFrom(m, q, l, v) == NotMapped
  {
    assert 0 <= Index(v, l) < Entries(l);
  }

  // Walks that 24 address bits suffice for, and the directories on a walk.

  // A directory entry whose low 24 address bits are not its whole address.
  predicate IsWide(e: Entry) { IsPde(e) && e.target != 2 && e.addrHi != 0 }

  ghost predicate NarrowWalk(m: Mem, d: Loc, l: Level, v: nat)
    decreases 5 - l
  {
    var e := Read(m, Slot(d, l, Index(v, l)));
    IsPde(e) && l < 4 ==> !IsWide(e) && NarrowWalk(m, e.Child(), l + 1, v)
  }

  ghost predicate OnWalk(m: Mem, d: Loc, l: Level, v: nat, x: Loc)
    decreases 5 - l
  {
    var e := Read(m, Slot(d, l, Index(v, l)));
    d == x || (IsPde(e) && l < 4 && OnWalk(m, e.Child(), l + 1, v, x))
  }

  // Linking a directory `q` puts it on the walks that ended at its entry, and on no others.
  lemma {:induction false} LinkKeepsWalks(
      m: Mem, m': Mem, t: Tree, p: Loc, i: nat, q: Loc, d: Loc, v: nat)
    requires WellFormed(m, t) && Links(m, m', t, p, i, q) && q !in t && d in t && InDir(t, d, v)
    ensures forall x | x != q :: OnWalk(m', d, t[d].level, v, x) <==> OnWalk(m, d, t[d].level, v, x)
    ensures NarrowWalk(m', d, t[d].level, v) <==>
      NarrowWalk(m, d, t[d].level, v) && (OnWalk(m', d, t[d].level, v, q) ==> !IsWide(EntryAt(m', t, p, i)))
    decreases 5 - t[d].level
  {
    hide Index, Span, Cover, InDir, InEntry, NodeOk;
    var l := t[d].level;
    var j := Index(v, l);
    WalkStep(m, t, d, v);
    if d == p && j == i {
      WalkEmpty(m', q, l + 1, v);
    } else {
      assert EntryAt(m', t, d, j) == EntryAt(m, t, d, j);
      var e := EntryAt(m, t, d, j);
      if IsPde(e) {
        LinkKeepsWalks(m, m', t, p, i, q, e.Child(), v);
      }
    }
  }

  lemma WalkEmpty(m: Mem, q: Loc, l: Level, v: nat)
    requires EmptyDir(m, q, l)
    ensures NarrowWalk(m, q, l, v) && forall x :: OnWalk(m, q, l, v, x) <==> q == x
  {
    assert 0 <= Index(v, l) < Entries(l);
  }

  // Neither does turning an invalid entry into a page entry change the directories on a walk.
  lemma {:induction false} PteKeepsWalks(m: Mem, m': Mem, t: Tree, p: Loc, i: nat, d: Loc, v: nat)
    requires WellFormed(m, t) && p in t && OnlyEntry(m, m', t, p, i) && d in t && InDir(t, d, v)
    requires i < Entries(t[p].level) && !IsPde(EntryAt(m, t, p, i)) && !IsPde(EntryAt(m', t, p, i))
    ensures forall x :: OnWalk(m', d, t[d].level, v, x) <==> OnWalk(m, d, t[d].level, v, x)
    ensures NarrowWalk(m', d, t[d].level, v) <==> NarrowWalk(m, d, t[d].level, v)
    decreases 5 - t[d].level
  {
    hide Index, Span, Cover, InDir, InEntry, NodeOk;
    var j := Index(v, t[d].level);
    WalkStep(m, t, d, v);
    var e := EntryAt(m, t, d, j);
    if !(d == p && j == i) {
      assert EntryAt(m', t, d, j) == e;
      if IsPde(e) { PteKeepsWalks(m, m', t, p, i, e.Child(), v); }
    }
  }
}
