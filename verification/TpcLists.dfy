// Partitions as lists of TPC (or GPC) numbers: the printer and the parser of nvtaskset.
// A 128-bit mask is the set of the positions of its set bits.
module TpcLists {
  import opened Wrappers

  type Mask = set<nat>

  const MAX_TPCS: nat := 128

  // Decimal numbers.

  predicate IsDigit(c: char) { '0' <= c <= '9' }

  function DigitChar(d: nat): char
    requires d < 10
  {
    '0' + d as char
  }

  // What "%d" prints.
  function Dec(n: nat): string {
    if n < 10 then [DigitChar(n)] else Dec(n / 10) + [DigitChar(n % 10)]
  }

  predicate IsSpace(c: char) { c == ' ' || '\t' <= c <= '\r' }

  function DigitsValue(s: string, acc: nat): nat {
    if s != [] && IsDigit(s[0]) then DigitsValue(s[1..], 10 * acc + (s[0] - '0') as nat) else acc
  }

  // atoi() of a token, which holds no '-'.
  function Atoi(s: string): nat {
    if s != [] && IsSpace(s[0]) then Atoi(s[1..])
    else if s != [] && s[0] == '+' then DigitsValue(s[1..], 0)
    else DigitsValue(s, 0)
  }

  // It skips white space and a plus sign, and reads up to the first character that is no digit.
  lemma AtoiReads(pad: string, n: nat, rest: string)
    requires forall i | 0 <= i < |pad| :: pad[i] in " \t\n\U{B}\U{C}\r"
    requires rest == [] || !('0' <= rest[0] <= '9')
    ensures Atoi(pad + (Dec(n) + rest)) == Atoi(pad + (['+'] + (Dec(n) + rest))) == n
  {
    hide Dec, Atoi, DigitsValue;
    DecDigits(n);
    DigitsEnd(Dec(n), rest, 0);
    AtoiDigits(Dec(n), rest);
    AtoiSkips(pad, Dec(n) + rest);
    AtoiSkips(pad, ['+'] + (Dec(n) + rest));
  }

  lemma AtoiDigits(digits: string, rest: string)
    requires AllDigits(digits) && digits != []
    ensures Atoi(digits + rest) == Atoi(['+'] + (digits + rest)) == DigitsValue(digits + rest, 0)
  {
    assert IsDigit((digits + rest)[0]);
    assert (['+'] + (digits + rest))[1..] == digits + rest;
    hide DigitsValue;
  }

  lemma {:induction false} AtoiSkips(pad: string, s: string)
    requires forall i | 0 <= i < |pad| :: pad[i] in " \t\n\U{B}\U{C}\r"
    ensures Atoi(pad + s) == Atoi(s)
    decreases |pad|
  {
    if pad == [] {
      assert pad + s == s;
    } else {
      assert (pad + s)[1..] == pad[1..] + s && IsSpace(pad[0]);
      hide DigitsValue;
      AtoiSkips(pad[1..], s);
    }
  }

  lemma {:induction false} DigitsEnd(s: string, rest: string, acc: nat)
    requires AllDigits(s) && (rest == [] || !IsDigit(rest[0]))
    ensures DigitsValue(s + rest, acc) == DigitsValue(s, acc)
    decreases |s|
  {
    if s == [] {
      assert s + rest == rest;
    } else {
      assert (s + rest)[1..] == s[1..] + rest;
      DigitsEnd(s[1..], rest, 10 * acc + (s[0] - '0') as nat);
    }
  }

  predicate AllDigits(s: string) { forall i | 0 <= i < |s| :: IsDigit(s[i]) }

  lemma {:induction false} DigitsAppend(s: string, c: char, acc: nat)
    requires AllDigits(s) && IsDigit(c)
    ensures DigitsValue(s + [c], acc) == 10 * DigitsValue(s, acc) + (c - '0') as nat
  {
    if s == [] {
      assert ([] + [c])[1..] == [];
    } else {
      assert (s + [c])[1..] == s[1..] + [c];
      DigitsAppend(s[1..], c, 10 * acc + (s[0] - '0') as nat);
    }
  }

  lemma {:induction false} DecDigits(n: nat)
    ensures Dec(n) != [] && AllDigits(Dec(n)) && DigitsValue(Dec(n), 0) == n
    ensures n < MAX_TPCS ==> |Dec(n)| == Width(n)
  {
    if n >= 10 {
      DecDigits(n / 10);
      DigitsAppend(Dec(n / 10), DigitChar(n % 10), 0);
    } else {
      assert [DigitChar(n)][1..] == [];
    }
  }

  function Width(n: nat): nat { if n < 10 then 1 else if n < 100 then 2 else 3 }

  lemma AtoiDec(n: nat)
    ensures Atoi(Dec(n)) == n
  {
    DecDigits(n);
    assert IsDigit(Dec(n)[0]);
  }

  // The parser as a machine that reads one character at a time.

  datatype Error = NotAnId | MalformedRange

  // `token` is the text since the last separator, `from` the start of an open range or -1.
  datatype Parser = Reading(token: string, from: int, mask: Mask) | Failed(error: Error)

  // Number `k` of a list stands for the bits `units[k]`.
  function Range(units: seq<Mask>, from: nat, below: nat): Mask
    requires below <= |units|
  {
    set b, k | from <= k < below && b in units[k] :: b
  }

  // A comma or the end of the text.
  function EndToken(units: seq<Mask>, p: Parser): Parser {
    match p
    case Failed(_) => p
    case Reading(token, from, mask) =>
      var to := Atoi(token);
      if to >= |units| then Failed(NotAnId)
      else if from < 0 then Reading([], -1, mask + units[to])
      else if from >= to then Failed(MalformedRange)
      else Reading([], -1, mask + Range(units, from, to + 1))
  }

  function Eat(units: seq<Mask>, p: Parser, c: char): Parser {
    match p
    case Failed(_) => p
    case Reading(token, _, mask) =>
      if c == ',' then EndToken(units, p)
      else if c == '-' then Reading([], Atoi(token), mask)
      else p.(token := token + [c])
  }

  function EatAll(units: seq<Mask>, p: Parser, s: string): Parser
    decreases |s|
  {
    if s == [] then p else EatAll(units, Eat(units, p, s[0]), s[1..])
  }

  function ToResult(p: Parser): Result<Mask, Error> {
    match p case Reading(_, _, mask) => Success(mask) case Failed(e) => Failure(e)
  }

  const START: Parser := Reading([], -1, {})

  function Parse(units: seq<Mask>, s: string): Result<Mask, Error> {
    ToResult(EndToken(units, EatAll(units, START, s)))
  }

  lemma {:induction false} EatAppend(units: seq<Mask>, p: Parser, s: string, t: string)
    ensures EatAll(units, p, s + t) == EatAll(units, EatAll(units, p, s), t)
    decreases |s|
  {
    if s == [] {
      assert s + t == t;
    } else {
      assert (s + t)[1..] == s[1..] + t;
      EatAppend(units, Eat(units, p, s[0]), s[1..], t);
    }
  }

  lemma {:induction false} EatDigits(units: seq<Mask>, token: string, from: int, mask: Mask, s: string)
    requires AllDigits(s)
    ensures EatAll(units, Reading(token, from, mask), s) == Reading(token + s, from, mask)
    decreases |s|
  {
    if s == [] {
      assert token + s == token;
    } else {
      assert token + s == token + [s[0]] + s[1..];
      EatDigits(units, token + [s[0]], from, mask, s[1..]);
    }
  }

  // Reading a printed number or one more separator.
  lemma EatNumber(units: seq<Mask>, s: string, from: int, mask: Mask, n: nat)
    requires EatAll(units, START, s) == Reading([], from, mask)
    ensures EatAll(units, START, s + Dec(n)) == Reading(Dec(n), from, mask)
  {
    EatAppend(units, START, s, Dec(n));
    DecDigits(n);
    EatDigits(units, [], from, mask, Dec(n));
    assert [] + Dec(n) == Dec(n);
  }

  lemma EatOne(units: seq<Mask>, s: string, c: char)
    ensures EatAll(units, START, s + [c]) == Eat(units, EatAll(units, START, s), c)
  {
    EatAppend(units, START, s, [c]);
    var p := EatAll(units, START, s);
    assert EatAll(units, p, [c]) == EatAll(units, Eat(units, p, c), [c][1..]);
  }

  // Once the parser has failed, the rest of the text does not matter.
  lemma {:induction false} FailedStays(units: seq<Mask>, e: Error, s: string)
    ensures EatAll(units, Failed(e), s) == Failed(e)
    decreases |s|
  {
    if s != [] { FailedStays(units, e, s[1..]); }
  }

  lemma FailedAt(units: seq<Mask>, text: string, i: nat, e: Error)
    requires i <= |text| && EndToken(units, EatAll(units, START, text[..i])) == Failed(e)
    requires i < |text| ==> text[i] == ','
    ensures Parse(units, text) == Failure(e)
  {
    if i < |text| {
      EatOne(units, text[..i], text[i]);
      assert text == text[..i] + [text[i]] + text[i + 1..];
      EatAppend(units, START, text[..i] + [text[i]], text[i + 1..]);
      FailedStays(units, e, text[i + 1..]);
    } else {
      assert text[..i] == text;
    }
  }

  // What the text of any list of numbers and ranges parses to.

  datatype Item = One(n: nat) | Span(from: nat, to: nat) {
    function Text(): string { match this case One(n) => Dec(n) case Span(from, to) => Dec(from) + "-" + Dec(to) }

    function Last(): nat { match this case One(n) => n case Span(_, to) => to }

    predicate Names(k: nat) { match this case One(n) => k == n case Span(from, to) => from <= k <= to }

    predicate IsMalformed() { Span? && from >= to }
  }

  function ListText(items: seq<Item>): string
    requires items != []
  {
    var last := items[|items| - 1].Text();
    if |items| == 1 then last else ListText(items[..|items| - 1]) + "," + last
  }

  predicate IsAccepted(units: seq<Mask>, x: Item) { x.Last() < |units| && !x.IsMalformed() }

  function NamedBy(units: seq<Mask>, x: Item): Mask {
    set b, k | 0 <= k < |units| && x.Names(k) && b in units[k] :: b
  }

  ghost predicate IsNamed(units: seq<Mask>, items: seq<Item>, b: nat) {
    exists x, k: nat | x in items && x.Names(k) && k < |units| :: b in units[k]
  }

  function AfterItem(units: seq<Mask>, mask: Mask, x: Item): Parser {
    if x.Last() >= |units| then Failed(NotAnId)
    else if x.IsMalformed() then Failed(MalformedRange)
    else Reading([], -1, mask + NamedBy(units, x))
  }

  lemma EndItem(units: seq<Mask>, s: string, mask: Mask, x: Item)
    requires EatAll(units, START, s) == Reading([], -1, mask)
    ensures EndToken(units, EatAll(units, START, s + x.Text())) == AfterItem(units, mask, x)
  {
    hide EatAll, Dec, Atoi, EndToken;
    match x
    case One(n) =>
      EatNumber(units, s, -1, mask, n);
      EndNumber(units, -1, mask, n);
    case Span(from, to) =>
      EatNumber(units, s, -1, mask, from);
      AtoiDec(from);
      EatOne(units, s + Dec(from), '-');
      EatNumber(units, s + Dec(from) + "-", from, mask, to);
      EndNumber(units, from, mask, to);
      assert s + x.Text() == s + Dec(from) + "-" + Dec(to);
  }

  lemma EndNumber(units: seq<Mask>, from: int, mask: Mask, to: nat)
    requires from >= -1
    ensures var x := if from < 0 then One(to) else Span(from, to);
      EndToken(units, Reading(Dec(to), from, mask)) == AfterItem(units, mask, x)
  {
    AtoiDec(to);
    var x := if from < 0 then One(to) else Span(from, to);
    if to < |units| {
      assert forall b :: b in NamedBy(units, x) <==>
        if from < 0 then b in units[to] else b in Range(units, from, to + 1);
    }
    hide Dec, Atoi;
  }

  lemma AfterComma(units: seq<Mask>, s: string, mask: Mask)
    requires EndToken(units, EatAll(units, START, s)) == Reading([], -1, mask)
    ensures EatAll(units, START, s + ",") == Reading([], -1, mask)
  {
    hide EatAll;
    EatOne(units, s, ',');
  }

  // Accepted items add what they name.
  lemma {:induction false} ListParses(units: seq<Mask>, items: seq<Item>) returns (mask: Mask)
    requires items != [] && forall x | x in items :: IsAccepted(units, x)
    ensures EndToken(units, EatAll(units, START, ListText(items))) == Reading([], -1, mask)
    ensures Parse(units, ListText(items)) == Success(mask)
    ensures forall b :: b in mask <==> IsNamed(units, items, b)
  {
    var front, x := items[..|items| - 1], items[|items| - 1];
    assert items == front + [x] && x in items;
    var s, named := "", {};
    assert EatAll(units, START, s) == START;
    hide EatAll, EndToken, Item.Text;
    if front != [] {
      named := ListParses(units, front);
      s := ListText(front) + ",";
      AfterComma(units, ListText(front), named);
    }
    assert s + x.Text() == ListText(items);
    EndItem(units, s, named, x);
    mask := named + NamedBy(units, x);
  }

  // The first item that is not accepted decides the error.
  lemma ListRejected(units: seq<Mask>, items: seq<Item>, i: nat)
    requires i < |items| && !IsAccepted(units, items[i]) && forall j | 0 <= j < i :: IsAccepted(units, items[j])
    ensures Parse(units, ListText(items)) == Failure(if items[i].Last() >= |units| then NotAnId else MalformedRange)
  {
    var front, x, s, mask := items[..i], items[i], "", {};
    assert EatAll(units, START, s) == START;
    hide EatAll, EndToken, Item.Text, Parse;
    if i > 0 {
      mask := ListParses(units, front);
      s := ListText(front) + ",";
      AfterComma(units, ListText(front), mask);
    }
    ListPrefix(items, i + 1);
    assert items[..i + 1][..i] == front && items[..i + 1][i] == x;
    assert s + x.Text() == ListText(items[..i + 1]);
    EndItem(units, s, mask, x);
    FailedAt(units, ListText(items), |s + x.Text()|, if x.Last() >= |units| then NotAnId else MalformedRange);
  }

  lemma {:induction false} ListPrefix(items: seq<Item>, k: nat)
    requires 0 < k <= |items|
    ensures var n := |ListText(items[..k])|;
      && n <= |ListText(items)| && ListText(items)[..n] == ListText(items[..k])
      && (n < |ListText(items)| ==> ListText(items)[n] == ',')
  {
    if k < |items| {
      ListPrefix(items[..|items| - 1], k);
      assert items[..|items| - 1][..k] == items[..k];
    } else {
      assert items[..k] == items;
    }
  }

  // The end of a token in parse_list().
  method AddToken(units: seq<Mask>, token: string, from_: int, mask_: Mask) returns (r: Result<Mask, Error>)
    requires from_ >= -1
    ensures r == ToResult(EndToken(units, Reading(token, from_, mask_)))
  {
    var from: int, mask: Mask := from_, mask_;
    var xpc := Atoi(token);
    if xpc >= |units| {
      return Failure(NotAnId);
    }
    if from != -1 {
      if from >= xpc {
        return Failure(MalformedRange);
      }
      while from <= xpc
        invariant from_ <= from <= xpc + 1
        invariant mask == mask_ + Range(units, from_, from)
      {
        mask := mask + units[from];
        from := from + 1;
      }
    } else {
      mask := mask + units[xpc];
    }
    return Success(mask);
  }

  predicate IsSeparator(c: char) { c == ',' || c == '-' }

  // parse_list(): `list` is the text with its terminating NUL; separators are overwritten by NUL.
  method ParseList(list: array<char>, units: seq<Mask>) returns (r: Result<Mask, Error>)
    requires list.Length > 0 && list[list.Length - 1] == '\0' && '\0' !in list[..list.Length - 1]
    modifies list
    ensures r == Parse(units, old(list[..list.Length - 1]))
    ensures r.Success? ==> forall k | 0 <= k < list.Length ::
      list[k] == if IsSeparator(old(list[k])) then '\0' else old(list[k])
    ensures r.Failure? ==> forall k | 0 <= k < list.Length ::
      list[k] == old(list[k]) || (IsSeparator(old(list[k])) && list[k] == '\0')
  {
    var len := list.Length - 1;
    ghost var text := list[..len];
    var mask: Mask, from: int, start: nat := {}, -1, 0;
    var i := 0;
    while i < len + 1
      invariant 0 <= start <= i <= len + 1 && -1 <= from
      invariant i <= len ==> EatAll(units, START, text[..i]) == Reading(list[start..i], from, mask)
      invariant i == len + 1 ==> Success(mask) == Parse(units, text)
      invariant forall k | i <= k < list.Length :: list[k] == old(list[k])
      invariant forall k | 0 <= k < i :: list[k] == if IsSeparator(old(list[k])) then '\0' else old(list[k])
    {
      ghost var p := Reading(list[start..i], from, mask);
      ghost var c := list[i];
      if i < len {
        assert c == text[i] && c in list[..len];
        assert text[..i + 1] == text[..i] + [c];
        EatOne(units, text[..i], c);
      } else {
        assert text[..i] == text;
      }
      if list[i] == ',' || list[i] == '\0' {
        var added := AddToken(units, list[start..i], from, mask);
        list[i] := '\0';
        if added.Failure? {
          FailedAt(units, text, i, added.error);
          return added;
        }
        mask := added.value;
        from := -1;
        start := i + 1;
      } else if list[i] == '-' {
        from := Atoi(list[start..i]);
        list[i] := '\0';
        start := i + 1;
      } else {
        assert list[start..i + 1] == list[start..i] + [c];
      }
      i := i + 1;
    }
    return Success(mask);
  }

  // The printer.

  // The TPCs, each of which is its own unit.
  function Tpcs(n: nat): seq<Mask> { seq(n, i => {i}) }

  // The numbers below `i` in the mask.
  function Below(mask: Mask, i: nat): Mask { set b | b in mask && b < i }

  lemma RangeOfTpcs(n: nat, from: nat, below: nat)
    requires below <= n
    ensures forall b: nat :: b in Range(Tpcs(n), from, below) <==> from <= b < below
  {
    var r := Range(Tpcs(n), from, below);
    forall b: nat | from <= b < below
      ensures b in r
    {
      assert b in Tpcs(n)[b];
    }
  }

  // Room for all numbers below `i`, each with a separator.
  function Room(i: nat): nat
    requires i <= MAX_TPCS
  {
    if i <= 10 then 2 * i else if i <= 100 then 20 + 3 * (i - 10) else 290 + 4 * (i - 100)
  }

  const BUFFER: nat := 10 + 90 * 2 + 28 * 3 + 128

  // What the parser has understood of the text when the printer has dealt with the bits below
  // `i`: everything, or everything up to a last number or an open range.
  ghost predicate InStep(n: nat, mask: Mask, i: nat, text: string, last: int, inRange: bool, open: nat) {
    var p := EatAll(Tpcs(n), START, text);
    if inRange then
      && open < last == i - 1 && p == Reading([], open, Below(mask, open))
      && (forall b: nat | open <= b <= last :: b in mask)
    else if last == i - 1 then
      && last >= 0 && last in mask && p == Reading(Dec(last), -1, Below(mask, last))
      && (last > 0 ==> last - 1 !in mask)
    else
      last < i - 1 && p == Reading([], -1, Below(mask, i)) && (i > 0 ==> i - 1 !in mask)
  }

  lemma PrintNumber(n: nat, mask: Mask, i: nat, text: string, last: int, open: nat)
    requires i in mask && InStep(n, mask, i, text, last, false, open) && last < i - 1
    ensures InStep(n, mask, i + 1, text + Dec(i), i, false, open)
  {
    EatNumber(Tpcs(n), text, -1, Below(mask, i), i);
  }

  lemma PrintComma(n: nat, mask: Mask, i: nat, text: string, last: int, open: nat)
    requires i !in mask && InStep(n, mask, i, text, last, false, open) && last == i - 1 && last < n
    ensures InStep(n, mask, i + 1, text + ",", last, false, open)
    ensures EndToken(Tpcs(n), EatAll(Tpcs(n), START, text)) == Reading([], -1, Below(mask, i + 1))
  {
    EatOne(Tpcs(n), text, ',');
    AtoiDec(last);
    assert Below(mask, last) + Tpcs(n)[last] == Below(mask, i + 1);
  }

  lemma PrintDash(n: nat, mask: Mask, i: nat, text: string, last: int, open: nat)
    requires i in mask && InStep(n, mask, i, text, last, false, open) && last == i - 1
    ensures InStep(n, mask, i + 1, text + "-", i, true, last)
  {
    EatOne(Tpcs(n), text, '-');
    AtoiDec(last);
  }

  lemma PrintEnd(n: nat, mask: Mask, i: nat, text: string, last: int, open: nat)
    requires i !in mask && InStep(n, mask, i, text, last, true, open) && last < n
    ensures InStep(n, mask, i + 1, text + Dec(last) + ",", last, false, open)
    ensures EndToken(Tpcs(n), EatAll(Tpcs(n), START, text + Dec(last))) == Reading([], -1, Below(mask, i + 1))
  {
    EatNumber(Tpcs(n), text, open, Below(mask, open), last);
    EatOne(Tpcs(n), text + Dec(last), ',');
    AtoiDec(last);
    RangeOfTpcs(n, open, last + 1);
    assert Below(mask, open) + Range(Tpcs(n), open, last + 1) == Below(mask, i + 1);
  }

  lemma PrintNothing(n: nat, mask: Mask, i: nat, text: string, last: int, inRange: bool, open: nat)
    requires InStep(n, mask, i, text, last, inRange, open)
    ensures inRange && i in mask ==> InStep(n, mask, i + 1, text, i, true, open)
    ensures !inRange && i !in mask && last != i - 1 ==>
      InStep(n, mask, i + 1, text, last, false, open) && Below(mask, i + 1) == Below(mask, i)
  {
    assert i !in mask ==> Below(mask, i + 1) == Below(mask, i);
  }

  // The parser's answer for what the printer prints: the mask, unless a range reaches the last
  // of the 128 bits; that range is left open, which the parser rejects.
  function RoundTrip(mask: Mask): Result<Mask, Error> {
    if 126 in mask && 127 in mask then Failure(MalformedRange) else Success(mask)
  }

  // What stripping the last comma leaves of the text.
  ghost predicate Stripped(n: nat, mask: Mask, text: string) {
    && text != [] && text[|text| - 1] == ','
    && EndToken(Tpcs(n), EatAll(Tpcs(n), START, text[..|text| - 1])) == Reading([], -1, mask)
  }

  lemma AllPrinted(n: nat, mask: Mask, text: string, last: int, inRange: bool, open: nat)
    requires (forall b | b in mask :: b < MAX_TPCS && b < n) && mask != {}
    requires InStep(n, mask, MAX_TPCS, text, last, inRange, open) && last in mask
    requires last < MAX_TPCS - 1 ==> Stripped(n, mask, text)
    ensures text != []
    ensures last == MAX_TPCS - 1 ==>
      text[|text| - 1] != ',' && Parse(Tpcs(n), text) == RoundTrip(mask)
    ensures last < MAX_TPCS - 1 ==> Parse(Tpcs(n), text[..|text| - 1]) == RoundTrip(mask)
  {
    if last == MAX_TPCS - 1 {
      if text != [] {
        assert text == text[..|text| - 1] + [text[|text| - 1]];
        EatOne(Tpcs(n), text[..|text| - 1], text[|text| - 1]);
      }
      DecDigits(last);
      AtoiDec(last);
      if !inRange { assert Below(mask, last) + Tpcs(n)[last] == mask; }
    }
  }

  // compose_list(). The result is None if the code reads the byte before its buffer.
  method ComposeList(mask: Mask, ghost n: nat) returns (r: Option<string>)
    requires forall b | b in mask :: b < 128 && b < n
    ensures r.None? <==> mask == {}
    ensures r.Some? ==> |r.value| + 1 <= BUFFER && Parse(Tpcs(n), r.value) == RoundTrip(mask)
  {
    var text: string, last: int, inRange := "", -2, false;
    ghost var open: nat := 0;
    assert Below(mask, 0) == {};
    var i := 0;
    while i < MAX_TPCS
      invariant 0 <= i <= MAX_TPCS && -2 <= last < i && last != -1
      invariant InStep(n, mask, i, text, last, inRange, open)
      invariant if last < 0 then text == [] && Below(mask, i) == {} else last in mask
      invariant last < 0 || last == i - 1 || Stripped(n, Below(mask, i), text)
      // every write, with its NUL, fits the buffer
      invariant |text| <= (if i == 0 then 0 else if last < i - 1 then Room(i) - 2 else Room(i) - 1)
      invariant inRange ==> |text| + Width(last) + 1 <= Room(i)
    {
      var enabled := i in mask;
      PrintNothing(n, mask, i, text, last, inRange, open);
      assert inRange ==> last == i - 1;
      hide InStep, EatAll, EndToken, Dec;
      DecDigits(i);
      if last >= 0 { DecDigits(last); }
      if inRange {
        if enabled {
          last := i;
        } else {
          PrintEnd(n, mask, i, text, last, open);
          assert (text + Dec(last) + ",")[..|text + Dec(last)|] == text + Dec(last);
          text := text + Dec(last) + ",";
          inRange := false;
        }
      } else if enabled {
        if last == i - 1 {
          PrintDash(n, mask, i, text, last, open);
          inRange := true;
          open := last;
          text := text + "-";
        } else {
          PrintNumber(n, mask, i, text, last, open);
          text := text + Dec(i);
        }
        last := i;
      } else if last == i - 1 {
        PrintComma(n, mask, i, text, last, open);
        assert (text + ",")[..|text|] == text;
        text := text + ",";
      }
      i := i + 1;
    }
    assert Below(mask, i) == mask;
    if text == [] {
      return None;
    }
    AllPrinted(n, mask, text, last, inRange, open);
    if text[|text| - 1] == ',' {
      text := text[..|text| - 1];
    }
    return Some(text);
  }
}
