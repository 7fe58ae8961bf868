// From what nvtaskset exports for two processes to the TPCs that their launches may use.
module Isolation {
  import opened Wrappers
  import H = HexMasks
  import L = LaunchMasks

  // The set of the positions of a number's set bits.
  function Bits(mask: H.Mask128): (m: L.Mask128) { set i: nat | i < 128 && H.Bit(mask, i) }

  // The supreme mask that the wrapper sets up in a process that was started with enable mask `mask`.
  function SupremeFor(mask: H.Mask128): Option<L.Mask128> {
    match H.SetupMask(Some(H.Exported(mask)))
    case None => None
    case Some(supreme) => Some(Bits(supreme))
  }

  lemma SupremeDisablesTheRest(mask: H.Mask128)
    ensures SupremeFor(mask).Some?
    ensures forall t: nat | t < 128 :: t in SupremeFor(mask).value <==> t !in Bits(mask)
  {
    H.ExportedSetsComplement(mask);
    hide H.Bit, H.Exported, H.SetupMask;
    forall t: nat | t < 128
      ensures t in SupremeFor(mask).value <==> t !in Bits(mask)
    {
      H.SupremeBits(mask, t);
    }
  }

  // The process has only ever had the supreme mask that comes from `mask`.
  ghost predicate StartedWith(h: L.History, mask: H.Mask128) {
    forall m | L.WasSet(h, m) :: Some(m) == SupremeFor(mask)
  }

  // Two processes started with disjoint enable masks never share an enabled TPC, whatever other masks
  // they set, as soon as the wrapper has set them up.
  lemma StartedDisjointStaysDisjoint(
      a: L.History, b: L.History, maskA: H.Mask128, maskB: H.Mask128, i: nat, j: nat, tpc: nat)
    requires L.IsDue(a) && L.IsDue(b) && i < |a| && j < |b| && a[i].Launch? && b[j].Launch?
    requires StartedWith(a, maskA) && StartedWith(b, maskB) && Bits(maskA) !! Bits(maskB)
    requires L.SupremeOf(a[..i]).Some? && L.SupremeOf(b[..j]).Some? && tpc < 128
    ensures tpc in a[i].disabled || tpc in b[j].disabled
  {
    SupremeDisablesTheRest(maskA);
    SupremeDisablesTheRest(maskB);
    hide Bits, SupremeFor, L.WasSet, L.SupremeOf, L.IsDue;
    forall m, n | L.WasSet(a, m) && L.WasSet(b, n)
      ensures forall t: nat | t < 128 :: t in m || t in n
    {
    }
    L.PartitionsIsolate(a, b, i, j, tpc);
  }
}
