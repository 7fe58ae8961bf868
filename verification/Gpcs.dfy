// Which TPCs belong to which GPC, and partitions given as lists of GPCs.
module Gpcs {
  import opened Wrappers
  import opened TpcLists

  const MAX_GPCS: nat := 12

  // GPC numbers that fit the registers' four bits.
  const ALL_GPCS: nat := 16
  const EIO: int := 5

  // A CWD_GPC_TPC_ID register: four bytes, each with a GPC number in its upper half.
  type Register = r: nat | r < 0x1_0000_0000

  function Shifted(r: Register, j: nat): nat
    requires j < 4
  {
    r / (if j == 0 then 0x10 else if j == 1 then 0x1000 else if j == 2 then 0x10_0000 else 0x1000_0000)
  }

  function GpcOf(config: seq<Register>, tpc: nat): nat
    requires tpc / 4 < |config|
  {
    Shifted(config[tpc / 4], tpc % 4) % 16
  }

  // The registers hold a GPC number for each of the `n` TPCs.
  predicate IsConfig(config: seq<Register>, n: nat) { n <= MAX_TPCS && n <= 4 * |config| }

  // Every GPC has a place in the device's row of the table.
  predicate FitsRow(config: seq<Register>, n: nat)
    requires IsConfig(config, n)
  {
    forall t: nat | t < n :: GpcOf(config, t) < MAX_GPCS
  }

  // The TPCs below `n` that the registers assign to GPC `g`.
  function TpcsOf(config: seq<Register>, n: nat, g: nat): Mask
    requires n <= 4 * |config|
  {
    set t: nat | t < n && GpcOf(config, t) == g
  }

  function Sum(config: seq<Register>, k: nat): nat
    requires k <= |config|
  {
    if k == 0 then 0 else Sum(config, k - 1) + config[k - 1]
  }

  function First(n: nat): (r: Mask)
    ensures |r| == n && forall t: nat :: t in r <==> t < n
  {
    if n == 0 then {} else First(n - 1) + {n - 1}
  }

  function UpTo(config: seq<Register>, n: nat, below: nat): (r: Mask)
    requires IsConfig(config, n)
  {
    set g, t | 0 <= g < below && t in TpcsOf(config, n, g) :: t
  }

  // The GPCs' TPCs are pairwise disjoint and together are exactly the first n TPCs; those of the
  // first 12 GPCs are if and only if all GPCs are among these.
  lemma IsPartition(config: seq<Register>, n: nat)
    requires IsConfig(config, n)
    ensures forall g, h | 0 <= g < h < ALL_GPCS :: TpcsOf(config, n, g) !! TpcsOf(config, n, h)
    ensures UpTo(config, n, ALL_GPCS) == First(n)
    ensures UpTo(config, n, MAX_GPCS) == First(n) <==> FitsRow(config, n)
  {
    forall t: nat | t < n
      ensures t in UpTo(config, n, ALL_GPCS)
      ensures t in UpTo(config, n, MAX_GPCS) <==> GpcOf(config, t) < MAX_GPCS
    {
      assert t in TpcsOf(config, n, GpcOf(config, t));
    }
    if UpTo(config, n, MAX_GPCS) == First(n) {
      forall t: nat | t < n
        ensures GpcOf(config, t) < MAX_GPCS
      {
        assert t in First(n);
      }
    }
  }

  lemma {:induction false} SumIsZero(config: seq<Register>, k: nat)
    requires k <= |config|
    ensures Sum(config, k) == 0 <==> forall i | 0 <= i < k :: config[i] == 0
  {
    if k > 0 { SumIsZero(config, k - 1); }
  }

  // Conversely, registers made up of one byte for each TPC, lowest byte first, assign to every GPC the TPCs
  // in whose byte it is the upper half.

  type U4 = n: nat | n < 16

  datatype Byte = Byte(low: U4, gpc: U4) {
    function Value(): nat { low + 16 * gpc }
  }

  function Packed(b0: Byte, b1: Byte, b2: Byte, b3: Byte): Register {
    b0.Value() + 0x100 * b1.Value() + 0x1_0000 * b2.Value() + 0x100_0000 * b3.Value()
  }

  function PackAll(bytes: seq<Byte>): seq<Register>
    requires |bytes| % 4 == 0
  {
    seq(|bytes| / 4, k requires 0 <= k < |bytes| / 4 =>
      Packed(bytes[4 * k], bytes[4 * k + 1], bytes[4 * k + 2], bytes[4 * k + 3]))
  }

  lemma PackedBytes(b0: Byte, b1: Byte, b2: Byte, b3: Byte)
    ensures var r := Packed(b0, b1, b2, b3);
      && Shifted(r, 0) % 16 == b0.gpc && Shifted(r, 1) % 16 == b1.gpc
      && Shifted(r, 2) % 16 == b2.gpc && Shifted(r, 3) % 16 == b3.gpc
  {
    var r := Packed(b0, b1, b2, b3);
    var q2 := b2.Value() + 0x100 * b3.Value();
    var q1 := b1.Value() + 0x100 * q2;
    UpperHalf(r, 0, b0.low, b0.gpc, q1);
    UpperHalf(r, 1, b0.Value() + 0x100 * b1.low, b1.gpc, q2);
    UpperHalf(r, 2, b0.Value() + 0x100 * b1.Value() + 0x1_0000 * b2.low, b2.gpc, b3.Value());
    UpperHalf(r, 3, b0.Value() + 0x100 * b1.Value() + 0x1_0000 * b2.Value() + 0x100_0000 * b3.low, b3.gpc, 0);
  }

  lemma UpperHalf(r: Register, j: nat, below: nat, gpc: U4, above: nat)
    requires j < 4
    requires var k := if j == 0 then 0x10 else if j == 1 then 0x1000 else if j == 2 then 0x10_0000 else 0x1000_0000;
      below < k && r == below + k * (gpc + 16 * above)
    ensures Shifted(r, j) % 16 == gpc
  {
    assert Shifted(r, j) == gpc + 16 * above;
  }

  lemma PackedIsRead(bytes: seq<Byte>, n: nat, g: nat)
    requires |bytes| % 4 == 0 && n <= |bytes|
    ensures TpcsOf(PackAll(bytes), n, g) == set t: nat | t < n && bytes[t].gpc == g
    ensures n <= 128 ==> (FitsRow(PackAll(bytes), n) <==> forall t: nat | t < n :: bytes[t].gpc < 12)
  {
    hide Shifted, Packed;
    forall t: nat | t < n
      ensures GpcOf(PackAll(bytes), t) == bytes[t].gpc
    {
      var k := t / 4;
      PackedBytes(bytes[4 * k], bytes[4 * k + 1], bytes[4 * k + 2], bytes[4 * k + 3]);
      assert t == 4 * k + t % 4;
    }
  }

  // The mapping loops of libsmctrl_get_gpc_info_ext(). Positions from 12 on of `masks` are what
  // follows the device's row in memory.
  method ReadMapping(config: seq<Register>, n: nat, masks: array<Mask>) returns (total: nat)
    requires IsConfig(config, n) && masks.Length == ALL_GPCS
    modifies masks
    ensures forall g | 0 <= g < ALL_GPCS :: masks[g] == old(masks[g]) + TpcsOf(config, n, g)
    ensures total == Sum(config, (n + 3) / 4)
  {
    var tpc, read := 0, 0;
    total := 0;
    while tpc < n
      invariant 0 <= tpc <= n && (tpc == 4 * read || tpc == n) && read == (tpc + 3) / 4 && total == Sum(config, read)
      invariant forall g | 0 <= g < ALL_GPCS :: masks[g] == old(masks[g]) + TpcsOf(config, tpc, g)
    {
      var register := config[tpc / 4];
      total := total + register;
      var j := 0;
      while j < 4 && tpc < n
        invariant 0 <= j <= 4 && tpc == 4 * read + j <= n && read < |config| && register == config[read]
        invariant forall g | 0 <= g < ALL_GPCS :: masks[g] == old(masks[g]) + TpcsOf(config, tpc, g)
      {
        var gpc := Shifted(register, j) % 16;
        assert tpc / 4 == read && tpc % 4 == j && gpc == GpcOf(config, tpc);
        hide Sum, Shifted;
        masks[gpc] := masks[gpc] + {tpc};
        j := j + 1;
        tpc := tpc + 1;
      }
      read := read + 1;
    }
  }

  // libsmctrl_get_gpc_info_ext(), given the number of enabled TPCs.
  method MapTpcs(config: seq<Register>, n: nat, masks: array<Mask>) returns (err: int)
    requires IsConfig(config, n) && masks.Length == ALL_GPCS
    modifies masks
    ensures forall g | 0 <= g < 12 :: masks[g] == TpcsOf(config, n, g)
    // what follows the row gains the TPCs of the GPCs that have no place in it
    ensures forall g | 12 <= g < 16 :: masks[g] == old(masks[g]) + TpcsOf(config, n, g)
    // which is reported afterwards, as is a powered-off GPU
    ensures err == if !FitsRow(config, n) || Sum(config, (n + 3) / 4) == 0 then EIO else 0
  {
    ClearRow(masks);
    var total := ReadMapping(config, n, masks);
    hide Sum, GpcOf, FitsRow, TpcsOf, UpTo;
    var configured := Configured(config, n, masks);
    IsPartition(config, n);
    ConfiguredBelow(config, n);
    SizeDecides(configured, n);
    if |configured| != n {
      return EIO;
    }
    if total == 0 {
      return EIO;
    }
    return 0;
  }

  method ClearRow(masks: array<Mask>)
    requires masks.Length == ALL_GPCS
    modifies masks
    ensures forall g | 0 <= g < MAX_GPCS :: masks[g] == {}
    ensures forall g | MAX_GPCS <= g < ALL_GPCS :: masks[g] == old(masks[g])
  {
    var i := 0;
    while i < MAX_GPCS
      invariant 0 <= i <= MAX_GPCS && forall g | 0 <= g < i :: masks[g] == {}
      invariant forall g | MAX_GPCS <= g < ALL_GPCS :: masks[g] == old(masks[g])
    {
      masks[i] := {};
      i := i + 1;
    }
  }

  // The TPCs that have a place in the row.
  method Configured(config: seq<Register>, n: nat, masks: array<Mask>) returns (configured: Mask)
    requires IsConfig(config, n) && masks.Length == ALL_GPCS
    requires forall g | 0 <= g < MAX_GPCS :: masks[g] == TpcsOf(config, n, g)
    ensures configured == UpTo(config, n, MAX_GPCS)
  {
    configured := {};
    var i := 0;
    while i < MAX_GPCS
      invariant 0 <= i <= MAX_GPCS
      invariant configured == UpTo(config, n, i)
    {
      configured := configured + masks[i];
      i := i + 1;
    }
  }

  lemma ConfiguredBelow(config: seq<Register>, n: nat)
    requires IsConfig(config, n)
    ensures forall t: nat | t in UpTo(config, n, MAX_GPCS) :: t < n
  {
  }

  lemma SizeDecides(m: Mask, n: nat)
    requires forall t: nat | t in m :: t < n
    ensures |m| == n <==> m == First(n)
  {
    assert m <= First(n);
    if |m| == n { SubsetOfSize(m, First(n)); }
  }

  lemma {:induction false} SubsetOfSize(a: Mask, b: Mask)
    requires a <= b && |a| == |b|
    ensures a == b
  {
    if a != {} {
      var x :| x in a;
      SubsetOfSize(a - {x}, b - {x});
    }
  }

  // Sets of GPCs.

  ghost predicate AreDisjoint(masks: seq<Mask>) {
    forall g, h | 0 <= g < |masks| && 0 <= h < |masks| && g != h :: masks[g] !! masks[h]
  }

  function UnionOf(masks: seq<Mask>, gpcs: Mask): Mask {
    set g, t | g in gpcs && g < |masks| && t in masks[g] :: t
  }

  ghost predicate Are(gpcs: Mask, masks: seq<Mask>) { forall g | g in gpcs :: g < |masks| }

  // The loop of compose_gpc_list(): fails unless the mask is a union of GPCs.
  method FindGpcs(mask_: Mask, masks: seq<Mask>) returns (r: Option<Mask>)
    requires AreDisjoint(masks)
    ensures r.Some? ==> Are(r.value, masks) && UnionOf(masks, r.value) == mask_
    ensures r.None? ==> forall gpcs | Are(gpcs, masks) :: UnionOf(masks, gpcs) != mask_
    ensures r.Some? ==> forall g: nat | g < |masks| :: g in r.value <==> masks[g] <= mask_
  {
    var mask, found: Mask := mask_, {};
    var gpc := 0;
    while gpc < |masks|
      invariant 0 <= gpc <= |masks|
      invariant found == set g: nat | g < gpc && masks[g] <= mask_
      invariant mask == mask_ - UnionOf(masks, found)
    {
      assert masks[gpc] !! UnionOf(masks, found);
      if masks[gpc] * mask == masks[gpc] {
        assert masks[gpc] <= mask;
        UnionAdds(masks, found, gpc);
        found := found + {gpc};
        mask := mask - masks[gpc];
      } else {
        assert !(masks[gpc] <= mask);
        assert !(masks[gpc] <= mask_);
      }
      gpc := gpc + 1;
    }
    if mask != {} {
      forall gpcs | Are(gpcs, masks)
        ensures UnionOf(masks, gpcs) != mask_
      {
        var t :| t in mask;
        if t in UnionOf(masks, gpcs) {
          var g :| g in gpcs && g < |masks| && t in masks[g];
          assert g !in found;
          var u :| u in masks[g] && u !in mask_;
          assert u in UnionOf(masks, gpcs);
        }
      }
      return None;
    }
    assert UnionOf(masks, found) <= mask_;
    assert forall t | t in mask_ :: t in mask || t in UnionOf(masks, found);
    return Some(found);
  }

  lemma UnionAdds(masks: seq<Mask>, gpcs: Mask, g: nat)
    requires g < |masks|
    ensures UnionOf(masks, gpcs + {g}) == UnionOf(masks, gpcs) + masks[g]
  {
  }

  // With no empty GPC, a set of GPCs is determined by the union of its masks.
  lemma UnionDetermines(masks: seq<Mask>, gpcs: Mask, g: nat)
    requires AreDisjoint(masks) && (forall h | 0 <= h < |masks| :: masks[h] != {}) && Are(gpcs, masks) && g < |masks|
    ensures masks[g] <= UnionOf(masks, gpcs) <==> g in gpcs
  {
    if masks[g] <= UnionOf(masks, gpcs) {
      var t :| t in masks[g];
      assert t in UnionOf(masks, gpcs);
      var h :| h in gpcs && h < |masks| && t in masks[h];
    }
  }

  // So the GPCs inside such a union are the ones it was made of.
  lemma UnionNames(masks: seq<Mask>, gpcs: Mask)
    requires AreDisjoint(masks) && (forall h | 0 <= h < |masks| :: masks[h] != {}) && Are(gpcs, masks)
    ensures (set g: nat | g < |masks| && masks[g] <= UnionOf(masks, gpcs)) == gpcs
  {
    forall g: nat | g < |masks|
      ensures masks[g] <= UnionOf(masks, gpcs) <==> g in gpcs
    {
      UnionDetermines(masks, gpcs, g);
    }
  }

  // A list of GPCs parses to the union of what it parses to as a list of plain numbers.

  predicate Matches(units: seq<Mask>, p: Parser, plain: Parser) {
    match plain
    case Failed(e) => p == Failed(e)
    case Reading(token, from, gpcs) => p == Reading(token, from, UnionOf(units, gpcs))
  }

  lemma RangeIsUnion(units: seq<Mask>, gpcs: Mask, from: nat, below: nat)
    requires below <= |units|
    ensures UnionOf(units, gpcs + Range(Tpcs(|units|), from, below)) == UnionOf(units, gpcs) + Range(units, from, below)
  {
    RangeOfTpcs(|units|, from, below);
    var plain := Range(Tpcs(|units|), from, below);
    assert forall g: nat | from <= g < below :: g in plain;
  }

  lemma EndMatches(units: seq<Mask>, p: Parser, plain: Parser)
    requires Matches(units, p, plain)
    ensures Matches(units, EndToken(units, p), EndToken(Tpcs(|units|), plain))
  {
    if plain.Reading? && Atoi(plain.token) < |units| {
      var to := Atoi(plain.token);
      if plain.from < 0 {
        UnionAdds(units, plain.mask, to);
      } else if plain.from < to {
        RangeIsUnion(units, plain.mask, plain.from, to + 1);
      }
    }
  }

  lemma {:induction false} EatMatches(units: seq<Mask>, p: Parser, plain: Parser, s: string)
    requires Matches(units, p, plain)
    ensures Matches(units, EatAll(units, p, s), EatAll(Tpcs(|units|), plain, s))
    decreases |s|
  {
    if s != [] {
      EndMatches(units, p, plain);
      EatMatches(units, Eat(units, p, s[0]), Eat(Tpcs(|units|), plain, s[0]), s[1..]);
    }
  }

  lemma ParseGpcs(units: seq<Mask>, s: string)
    ensures var plain := Parse(Tpcs(|units|), s);
            Parse(units, s) == match plain case Success(gpcs) => Success(UnionOf(units, gpcs)) case Failure(e) => plain
  {
    assert UnionOf(units, {}) == {};
    EatMatches(units, START, START, s);
    EndMatches(units, EatAll(units, START, s), EatAll(Tpcs(|units|), START, s));
  }

  // compose_gpc_list(): the printed list parses back to the mask, and names the GPCs inside it;
  // None if there is none.
  method ComposeGpcList(mask: Mask, masks: seq<Mask>) returns (r: Option<Option<string>>)
    requires AreDisjoint(masks) && |masks| <= MAX_GPCS
    ensures r.None? <==> forall gpcs | Are(gpcs, masks) :: UnionOf(masks, gpcs) != mask
    ensures r.Some? && r.value.Some? ==>
      && Parse(masks, r.value.value) == Success(mask)
      && Parse(Tpcs(|masks|), r.value.value) == Success(set g: nat | g < |masks| && masks[g] <= mask)
    ensures r.Some? && r.value.None? ==> mask == {}
  {
    var gpcs := FindGpcs(mask, masks);
    if gpcs.None? {
      return None;
    }
    assert Are(gpcs.value, masks) && UnionOf(masks, gpcs.value) == mask;
    assert gpcs.value == set g: nat | g < |masks| && masks[g] <= mask;
    var text := ComposeList(gpcs.value, |masks|);
    if text.Some? {
      ParseGpcs(masks, text.value);
    }
    return Some(text);
  }
}
