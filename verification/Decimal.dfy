/** Decimal numbers: the printing loops of the journal and the shell, and the shell's
    parser.  All three work on unsigned 64-bit numbers. */
module Decimal {
  import opened Bytes

  const ZERO: Byte := 0x30

  predicate IsDigit(c: Byte) {
    0x30 <= c <= 0x39
  }

  predicate AllDigits(s: seq<Byte>) {
    forall i :: 0 <= i < |s| ==> IsDigit(s[i])
  }

  /** The number a digit string denotes, without any bound. */
  function Value(s: seq<Byte>): nat
    requires AllDigits(s)
  {
    if s == [] then 0 else Value(s[..|s| - 1]) * 10 + (s[|s| - 1] - ZERO)
  }

  /** The digits of v, none for 0. */
  function Digits(v: nat): seq<Byte> {
    if v == 0 then [] else Digits(v / 10) + [ZERO + v % 10]
  }

  function Decimal(v: nat): seq<Byte> {
    if v == 0 then [ZERO] else Digits(v)
  }

  function Pow10(k: nat): (r: nat)
    ensures r > 0
  {
    if k == 0 then 1 else 10 * Pow10(k - 1)
  }

  // ---- printing ----

  lemma {:induction false} DigitsMean(v: nat)
    ensures AllDigits(Digits(v)) && Value(Digits(v)) == v
    ensures v > 0 ==> |Digits(v)| > 0 && Digits(v)[0] != ZERO
  {
    if v > 0 {
      DigitsMean(v / 10);
      var s := Digits(v);
      assert s[..|s| - 1] == Digits(v / 10);
    }
  }

  lemma {:induction false} DigitsLength(v: nat, k: nat)
    requires v < Pow10(k)
    ensures |Digits(v)| <= k
    decreases k
  {
    if v > 0 { DigitsLength(v / 10, k - 1); }
  }

  lemma TwentyDigits()
    ensures U64_RANGE <= Pow10(20)
  {
    assert Pow10(5) == 100_000;
    assert Pow10(10) == 10_000_000_000;
    assert Pow10(15) == 1_000_000_000_000_000;
    assert Pow10(20) == 100_000_000_000_000_000_000;
  }

  lemma LastDigit(x: nat)
    requires x > 0
    ensures Digits(x) == Digits(x / 10) + [ZERO + x % 10]
  {
  }

  lemma NoDigits()
    ensures Digits(0) == []
  {
  }

  /** `w_u64`, `print_num` and the loop of `writeln_num`: the buffer of 20 bytes is filled
      from the back and never underflows. */
  method PrintU64(v: nat) returns (out: seq<Byte>)
    requires v < U64_RANGE
    ensures out == Decimal(v)
    ensures 1 <= |out| <= 20
  {
    hide Digits, Pow10;
    var buf := new Byte[20](_ => 0);
    var i := 20;
    if v == 0 { return [ZERO]; }
    TwentyDigits();
    DigitsLength(v, 20);
    var x := v;
    while x > 0
      invariant 0 <= x && 0 <= i <= 20
      invariant Digits(v) == Digits(x) + buf[i..]
      invariant |Digits(x)| <= i
    {
      LastDigit(x);
      ghost var rest := buf[i..];
      i := i - 1;
      buf[i] := ZERO + x % 10;
      assert buf[i..] == [ZERO + x % 10] + rest;
      x := x / 10;
    }
    NoDigits();
    DigitsMean(v);
    return buf[i..];
  }

  // ---- parsing ----

  /** `parse_u64`: saturating at every step, it still computes the smaller of the string's
      number and the largest word; anything but digits is refused, the empty string is 0. */
  method ParseU64(s: seq<Byte>) returns (r: Option<nat>)
    ensures r.Some? <==> AllDigits(s)
    ensures r.Some? ==> r.value == Min(Value(s), U64_MAX)
  {
    var v := 0;
    for i := 0 to |s|
      invariant AllDigits(s[..i]) && v == Min(Value(s[..i]), U64_MAX)
    {
      var c := s[i];
      if c < 0x30 || c > 0x39 { return None; }
      assert s[..i + 1][..i] == s[..i];
      v := SaturatingAdd(SaturatingMul(v, 10), c - ZERO);
    }
    assert s[..|s|] == s;
    return Some(v);
  }

  /** What is printed has no leading zero (but for the number 0) and reads back as itself. */
  lemma PrintedNumberReadsBack(v: nat)
    requires v < U64_RANGE
    ensures AllDigits(Decimal(v)) && Min(Value(Decimal(v)), U64_MAX) == v
    ensures v != 0 ==> Decimal(v)[0] != ZERO
    ensures |Decimal(v)| <= 20
  {
    DigitsMean(v);
    TwentyDigits();
    DigitsLength(v, 20);
    assert Value([ZERO]) == 0;
  }

  /** Different numbers print differently, so a journal line names its sequence number. */
  lemma PrintingIsInjective(v: nat, w: nat)
    requires Decimal(v) == Decimal(w)
    ensures v == w
  {
    DigitsMean(v);
    DigitsMean(w);
    assert Value([ZERO]) == 0;
  }

  /** Printing and parsing, composed. */
  method PrintThenParse(v: nat) returns (r: Option<nat>)
    requires v < U64_RANGE
    ensures r == Some(v)
  {
    var s := PrintU64(v);
    PrintedNumberReadsBack(v);
    r := ParseU64(s);
  }
}
