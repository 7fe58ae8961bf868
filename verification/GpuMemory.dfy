// GPU-visible memory as 64-bit page-table words, and the bit layout of one word.
module GpuMemory {

  const PAGE: nat := 4096

  // The last page of a 64-bit address space.
  const TOP_PAGE: nat := 0xFFFF_FFFF_FFFF_F000

  type U2 = n: nat | n < 4
  type U3 = n: nat | n < 8
  type U6 = n: nat | n < 0x40
  type U10 = n: nat | n < 0x400
  type U22 = n: nat | n < 0x40_0000
  type U24 = n: nat | n < 0x100_0000
  type U46 = n: nat | n < 0x4000_0000_0000
  type U64 = n: nat | n < 0x1_0000_0000_0000_0000

  // A word of a V2 page directory or page table, split into the disjoint bit fields of the
  // page_dir_entry_t union. The PTE view of bits 0-2 is `IsPte` and `Aperture`; the wide
  // address is `Wide`.
  datatype Entry = Entry(
    target: U3,      // bits 0-2
    vol: bool,       // bit 3
    encrypted: bool, // bit 4
    noAts: bool,     // bit 5
    access: U2,      // bits 6-7
    addr: U24,       // bits 8-31
    addrHi: U22,     // bits 32-53
    top: U10         // bits 54-63
  ) {
    predicate IsInvalid() { target == 0 }

    predicate IsPte() { target % 2 == 1 }

    function Aperture(): U2 { target / 2 }

    function Wide(): U46 { addr + 0x100_0000 * addrHi }

    // What the hardware reads out of a PTE: 36 bits for VID_MEM and PEER, 58 bits for SYS_MEM.
    function Frame(): nat { PAGE * (if Aperture() < 2 then addr else Wide()) }

    // The directory that a PDE points to: wide addresses are for SYS_MEM only.
    function Child(): Loc { Loc(target == 2, PAGE * (if target == 2 then addr else Wide())) }

    function WithWide(a: U46): Entry { this.(addr := a % 0x100_0000, addrHi := a / 0x100_0000) }

    function Raw(): U64 {
      target + 0x8 * Bit(vol) + 0x10 * Bit(encrypted) + 0x20 * Bit(noAts) + 0x40 * access
      + 0x100 * addr + 0x1_0000_0000 * addrHi + 0x40_0000_0000_0000 * top
    }
  }

  function Bit(b: bool): nat { if b then 1 else 0 }

  const ZERO := Entry(0, false, false, false, 0, 0, 0, 0)

  function Decode(raw: U64): Entry {
    Entry(raw % 8, raw / 0x8 % 2 == 1, raw / 0x10 % 2 == 1, raw / 0x20 % 2 == 1, raw / 0x40 % 4,
          raw / 0x100 % 0x100_0000, raw / 0x1_0000_0000 % 0x40_0000, raw / 0x40_0000_0000_0000)
  }

  // The record of fields and the raw 64-bit word carry the same information.
  lemma DecodeOfRaw(e: Entry)
    ensures Decode(e.Raw()) == e
  {
    var q6 := e.addrHi + 0x40_0000 * e.top;
    var q5 := e.addr + 0x100_0000 * q6;
    var q4 := e.access + 4 * q5;
    var q3 := Bit(e.noAts) + 2 * q4;
    var q2 := Bit(e.encrypted) + 2 * q3;
    var q1 := Bit(e.vol) + 2 * q2;
    var r := e.Raw();
    assert r == e.target + 8 * q1;
    Digit(r, 8, e.target, q1);
    Digit(q1, 2, Bit(e.vol), q2);
    Digit(q2, 2, Bit(e.encrypted), q3);
    Digit(q3, 2, Bit(e.noAts), q4);
    Digit(q4, 4, e.access, q5);
    Digit(q5, 0x100_0000, e.addr, q6);
    Digit(q6, 0x40_0000, e.addrHi, e.top);
    Quotients(r);
  }

  lemma Digit(n: nat, k: nat, lo: nat, hi: nat)
    requires lo < k && n == lo + k * hi
    ensures n / k == hi && n % k == lo
  {
    var d := n / k - hi;
    assert k * d == lo - n % k;
    assert d >= 1 ==> k * d >= k;
    assert d <= -1 ==> k * d + k <= 0;
  }

  lemma RawOfDecode(raw: U64)
    ensures Decode(raw).Raw() == raw
  {
    Quotients(raw);
  }

  lemma Quotients(raw: nat)
    ensures raw / 0x10 == raw / 0x8 / 2 && raw / 0x20 == raw / 0x10 / 2 && raw / 0x40 == raw / 0x20 / 2
    ensures raw / 0x100 == raw / 0x40 / 4
    ensures raw / 0x1_0000_0000 == raw / 0x100 / 0x100_0000
    ensures raw / 0x40_0000_0000_0000 == raw / 0x1_0000_0000 / 0x40_0000
  {
  }

  // The other views of the union, in terms of the raw word.
  lemma UnionViews(e: Entry)
    ensures var raw := e.Raw();
      && e.target == raw % 8 && (e.IsPte() <==> raw % 2 == 1) && e.Aperture() == raw / 2 % 4
      && e.addr == raw / 0x100 % 0x100_0000 && e.Wide() == raw / 0x100 % 0x4000_0000_0000
      && Bit(e.vol) == raw / 8 % 2 && Bit(e.encrypted) == raw / 0x10 % 2 && Bit(e.noAts) == raw / 0x20 % 2
    // 24 address bits count for VID_MEM and peers, 46 for SYS_MEM
    ensures e.Frame() == 0x1000 * (if e.Aperture() in {0, 1} then e.addr else e.Wide())
    ensures e.Child() == Loc(e.target == 2, 0x1000 * (if e.target == 2 then e.addr else e.Wide()))
  {
    var raw := e.Raw();
    hide Entry.Raw;
    DecodeOfRaw(e);
    Quotients(raw);
    LowBits(raw);
    Digit(raw / 0x100, 0x100_0000, e.addr, raw / 0x1_0000_0000);
    Digit(raw / 0x1_0000_0000, 0x40_0000, e.addrHi, e.top);
    Digit(raw / 0x100, 0x4000_0000_0000, e.Wide(), e.top);
  }

  lemma LowBits(raw: nat)
    ensures raw % 2 == raw % 8 % 2 && raw / 2 % 4 == raw % 8 / 2
  {
    var q, r := raw / 8, raw % 8;
    Digit(raw, 2, r % 2, 4 * q + r / 2);
    Digit(4 * q + r / 2, 4, r / 2, q);
  }

  // A location in the memory of the GPU (`vid`) or in bus-addressed system memory.
  datatype Loc = Loc(vid: bool, addr: nat)

  // Words never written read as zero.
  type Mem = map<Loc, Entry>

  function Read(m: Mem, l: Loc): Entry { if l in m then m[l] else ZERO }

  function PageOf(l: Loc): Loc { Loc(l.vid, l.addr - l.addr % PAGE) }

  function ZeroPage(m: Mem, page: Loc): (r: Mem)
    ensures forall l :: Read(r, l) == if PageOf(l) == page then ZERO else Read(m, l)
  {
    map l | l in m && PageOf(l) != page :: m[l]
  }
}
