// Partitions as hexadecimal masks: what nvtaskset exports and how the wrapper reads it back.
module HexMasks {
  import opened Wrappers

  const W64: nat := 0x1_0000_0000_0000_0000
  const W128: nat := 0x1_0000_0000_0000_0000_0000_0000_0000_0000

  type Mask128 = m: nat | m < W128

  // Printing.

  function HexChar(d: nat): char
    requires d < 16
  {
    if d < 10 then '0' + d as char else 'a' + (d - 10) as char
  }

  // "%lx"
  function Hex(n: nat): string {
    if n < 16 then [HexChar(n)] else Hex(n / 16) + [HexChar(n % 16)]
  }

  // "%016lx" of a 64-bit number has exactly 16 digits; this is the general case of `k` digits.
  function HexFixed(n: nat, k: nat): string {
    if k == 0 then "" else HexFixed(n / 16, k - 1) + [HexChar(n % 16)]
  }

  // "~0x%.0lx%016lx": with precision 0, a zero prints nothing.
  function Exported(mask: Mask128): string { "~0x" + Upper(mask) + HexFixed(mask % W64, 16) }

  function Upper(mask: Mask128): string { if mask / W64 == 0 then "" else Hex(mask / W64) }

  // Parsing.

  predicate IsHexDigit(c: char) { '0' <= c <= '9' || 'a' <= c <= 'f' || 'A' <= c <= 'F' }

  function HexDigitValue(c: char): nat
    requires IsHexDigit(c)
  {
    if 'a' <= c <= 'f' then (c - 'a') as nat + 10
    else if 'A' <= c <= 'F' then (c - 'A') as nat + 10
    else (c - '0') as nat
  }

  predicate AllHex(s: string) { forall i | 0 <= i < |s| :: IsHexDigit(s[i]) }

  // The number that hexadecimal digits denote.
  function HexValue(s: string): nat
    requires AllHex(s)
  {
    if s == [] then 0 else 16 * HexValue(s[..|s| - 1]) + HexDigitValue(s[|s| - 1])
  }

  function PrefixLength(s: string): nat {
    if |s| >= 2 && s[0] == '0' && (s[1] == 'x' || s[1] == 'X') then 2 else 0
  }

  lemma ValueAppend(s: string, c: char)
    requires AllHex(s) && IsHexDigit(c)
    ensures AllHex(s + [c]) && HexValue(s + [c]) == 16 * HexValue(s) + HexDigitValue(c)
  {
    assert (s + [c])[..|s|] == s;
  }

  // strtou128() in base 16, on a string without its NUL.
  method Strtou128(nptr: string) returns (result: Mask128, end: nat)
    ensures var start := PrefixLength(nptr);
      && start <= end <= |nptr| && AllHex(nptr[start..end]) && (end < |nptr| ==> !IsHexDigit(nptr[end]))
      && result == HexValue(nptr[start..end]) % W128
  {
    var i := 0;
    if |nptr| >= 2 && nptr[0] == '0' && (nptr[1] == 'x' || nptr[1] == 'X') {
      i := 2;
    }
    ghost var start := i;
    result := 0;
    assert nptr[start..i] == [];
    while i < |nptr| && IsHexDigit(nptr[i])
      invariant start <= i <= |nptr| && AllHex(nptr[start..i])
      invariant result == HexValue(nptr[start..i]) % W128
    {
      hide HexValue, AllHex, HexDigitValue, PrefixLength;
      ValueAppend(nptr[start..i], nptr[i]);
      assert nptr[start..i + 1] == nptr[start..i] + [nptr[i]];
      ShiftIn(HexValue(nptr[start..i]), HexDigitValue(nptr[i]));
      result := (16 * result + HexDigitValue(nptr[i])) % W128;
      i := i + 1;
    }
    end := i;
  }

  // One more digit, shifted in at the right end of 128 bits.
  lemma ShiftIn(value: nat, digit: nat)
    ensures (16 * (value % W128) + digit) % W128 == (16 * value + digit) % W128
  {
    var q, r := value / W128, value % W128;
    var low := 16 * r + digit;
    assert 16 * value + digit == low % W128 + W128 * (low / W128 + 16 * q);
    ModOf(16 * value + digit, low % W128, low / W128 + 16 * q);
  }

  lemma ModOf(n: nat, lo: nat, hi: nat)
    requires lo < W128 && n == lo + W128 * hi
    ensures n % W128 == lo
  {
  }

  // The mask that the environment variable denotes: hexadecimal digits, inverted after a tilde; None
  // for anything else.
  function SetupMask(variable: Option<string>): Option<Mask128> {
    if variable.None? then Some(0)
    else
      var inverted := variable.value != [] && variable.value[0] == '~';
      var text := if inverted then variable.value[1..] else variable.value;
      var digits := text[PrefixLength(text)..];
      if !AllHex(digits) then None
      else Some(if inverted then W128 - 1 - HexValue(digits) % W128 else HexValue(digits) % W128)
  }

  // The wrapper's setup(): the supreme mask for an environment variable, or None if it aborts.
  method Setup(variable: Option<string>) returns (supreme: Option<Mask128>)
    ensures supreme == SetupMask(variable)
  {
    var maskStr, invert := if variable.None? then "0" else variable.value, false;
    if maskStr != [] && maskStr[0] == '~' {
      invert := true;
      maskStr := maskStr[1..];
    }
    var mask, end := Strtou128(maskStr);
    ghost var start := PrefixLength(maskStr);
    assert variable.None? ==> end == 1 && maskStr[0..1][..0] == [];
    if end != |maskStr| {
      assert maskStr[start..][end - start] == maskStr[end];
      return None;
    }
    assert maskStr[start..] == maskStr[start..|maskStr|];
    return Some(if invert then W128 - 1 - mask else mask);
  }

  // Round trip.

  lemma {:induction false} HexParses(n: nat)
    ensures AllHex(Hex(n)) && HexValue(Hex(n)) == n && Hex(n) != []
  {
    if n >= 16 { HexParses(n / 16); }
  }

  function Pow16(k: nat): nat { if k == 0 then 1 else 16 * Pow16(k - 1) }

  lemma {:induction false} FixedParses(s: string, n: nat, k: nat)
    requires AllHex(s) && n < Pow16(k)
    ensures |HexFixed(n, k)| == k && AllHex(s + HexFixed(n, k))
    ensures HexValue(s + HexFixed(n, k)) == HexValue(s) * Pow16(k) + n
  {
    if k == 0 {
      assert s + HexFixed(n, k) == s;
    } else {
      var front, c := HexFixed(n / 16, k - 1), HexChar(n % 16);
      FixedParses(s, n / 16, k - 1);
      assert HexFixed(n, k) == front + [c] && s + (front + [c]) == (s + front) + [c];
      assert IsHexDigit(c) && HexDigitValue(c) == n % 16 && Pow16(k) == 16 * Pow16(k - 1);
      hide HexValue, AllHex, HexFixed, HexChar, Pow16, IsHexDigit, HexDigitValue;
      ValueAppend(s + front, c);
      FixedStep(n, HexValue(s), Pow16(k - 1));
    }
  }

  lemma FixedStep(n: nat, high: nat, p: nat)
    ensures 16 * (high * p + n / 16) + n % 16 == high * (16 * p) + n
  {
    assert high * (16 * p) == 16 * (high * p);
  }

  lemma {:induction false} HexLength(n: nat, k: nat)
    requires n < Pow16(k) && k > 0
    ensures |Hex(n)| <= k
  {
    if n >= 16 { HexLength(n / 16, k - 1); }
  }

  lemma Pow16Of16()
    ensures Pow16(16) == W64
  {
    assert Pow16(4) == 0x1_0000;
    assert Pow16(8) == 0x1_0000_0000;
    assert Pow16(12) == 0x1_0000_0000_0000;
  }

  lemma HexBody(mask: Mask128)
    ensures var body := Upper(mask) + HexFixed(mask % W64, 16);
            AllHex(body) && HexValue(body) == mask && |body| <= 32
  {
    var hi, lo := mask / W64, mask % W64;
    Pow16Of16();
    assert hi < W64 && hi * W64 + lo == mask;
    if hi > 0 {
      HexParses(hi);
      HexLength(hi, 16);
    }
    assert AllHex(Upper(mask)) && HexValue(Upper(mask)) == hi && |Upper(mask)| <= 16;
    FixedParses(Upper(mask), lo, 16);
  }

  lemma TildeComplements(body: string, mask: Mask128)
    requires AllHex(body) && HexValue(body) == mask
    ensures SetupMask(Some("~0x" + body)) == Some(W128 - 1 - mask)
  {
    hide HexValue, AllHex;
    var text := "~0x" + body;
    assert text[0] == '~' && text[1..] == "0x" + body && ("0x" + body)[2..] == body;
    ModOf(mask, mask, 0);
  }

  // Without a tilde the mask is taken as it is, with or without a prefix, in either case of letters.
  lemma PlainSetsMask(body: string, mask: Mask128)
    requires AllHex(body) && HexValue(body) == mask
    ensures SetupMask(Some(body)) == SetupMask(Some("0x" + body)) == SetupMask(Some("0X" + body)) == Some(mask)
  {
    hide HexValue;
    assert body != [] ==> IsHexDigit(body[0]);
    assert |body| >= 2 ==> IsHexDigit(body[1]);
    assert body[0..] == body && ("0x" + body)[2..] == body && ("0X" + body)[2..] == body;
    ModOf(mask, mask, 0);
  }

  function Capital(c: char): char { if 'a' <= c <= 'f' then 'A' + (c - 'a') else c }

  function Capitals(s: string): string { seq(|s|, i requires 0 <= i < |s| => Capital(s[i])) }

  lemma {:induction false} CapitalsParse(s: string)
    requires AllHex(s)
    ensures AllHex(Capitals(s)) && HexValue(Capitals(s)) == HexValue(s)
  {
    if s != [] {
      CapitalsParse(s[..|s| - 1]);
      assert Capitals(s)[..|s| - 1] == Capitals(s[..|s| - 1]);
    }
  }

  lemma PlainTextSetsMask(mask: Mask128)
    ensures var body := Upper(mask) + HexFixed(mask % W64, 16);
      && SetupMask(Some(body)) == SetupMask(Some("0x" + body)) == Some(mask)
      && SetupMask(Some(Capitals(body))) == SetupMask(Some("0x" + Capitals(body))) == Some(mask)
  {
    HexBody(mask);
    var body := Upper(mask) + HexFixed(mask % W64, 16);
    CapitalsParse(body);
    hide Hex, HexFixed, HexValue, Upper, SetupMask, Capitals, AllHex;
    PlainSetsMask(body, mask);
    PlainSetsMask(Capitals(body), mask);
  }

  // For every mask the exported text fits the 36-byte buffer, and the wrapper makes exactly the
  // complement of the mask the supreme mask.
  lemma ExportedSetsComplement(mask: Mask128)
    ensures |Exported(mask)| + 1 <= 36
    ensures SetupMask(Some(Exported(mask))) == Some(W128 - 1 - mask)
  {
    HexBody(mask);
    var body := Upper(mask) + HexFixed(mask % W64, 16);
    hide Hex, HexFixed, HexValue, Upper, SetupMask;
    assert Exported(mask) == "~0x" + body;
    TildeComplements(body, mask);
  }

  // The complement of a mask is the complement of its set of bits.
  function Bit(n: nat, i: nat): bool { if i == 0 then n % 2 == 1 else Bit(n / 2, i - 1) }

  function Pow2(k: nat): nat { if k == 0 then 1 else 2 * Pow2(k - 1) }

  lemma {:induction false} ComplementBits(n: nat, k: nat, i: nat)
    requires n < Pow2(k) && i < k
    ensures Bit(Pow2(k) - 1 - n, i) == !Bit(n, i)
  {
    assert (Pow2(k) - 1 - n) / 2 == Pow2(k - 1) - 1 - n / 2;
    if i > 0 { ComplementBits(n / 2, k - 1, i - 1); }
  }

  lemma {:induction false} Pow2Of(k: nat)
    ensures Pow2(4 * k) == Pow16(k)
  {
    if k > 0 {
      Pow2Of(k - 1);
      assert Pow2(4 * k) == 2 * Pow2(4 * k - 1) == 4 * Pow2(4 * k - 2) == 8 * Pow2(4 * k - 3) == 16 * Pow2(4 * k - 4);
    }
  }

  lemma {:induction false} Pow16Sum(j: nat, k: nat)
    ensures Pow16(j + k) == Pow16(j) * Pow16(k)
  {
    if j > 0 { Pow16Sum(j - 1, k); }
  }

  lemma SupremeBits(mask: Mask128, i: nat)
    requires i < 128
    ensures Bit(W128 - 1 - mask, i) == !Bit(mask, i)
  {
    Pow2Of(32);
    Pow16Sum(16, 16);
    Pow16Of16();
    assert W64 * W64 == W128;
    ComplementBits(mask, 128, i);
  }
}
