/**
 Text rendering and parsing of unsigned integers as the Rust node does it:
 `format!("{}", n)` (decimal), `format!("{:016x}", n)` (zero-padded lower-case
 hex) and `str::parse::<uN>()` (an optional `+`, then decimal digits, rejected
 on overflow).
 */
module Decimal {
  import opened Base

  predicate IsDigit(c: char)
  {
    '0' <= c <= '9'
  }

  function DigitChar(d: nat): (c: char)
    requires d < 10
    ensures IsDigit(c)
    ensures c as int - '0' as int == d
  {
    ['0', '1', '2', '3', '4', '5', '6', '7', '8', '9'][d]
  }

  function DigitOf(c: char): (d: nat)
    requires IsDigit(c)
    ensures d < 10
  {
    c as int - '0' as int
  }

  /** The value of a string of decimal digits, most significant first. */
  function DigitsValue(s: string): nat
    requires forall i :: 0 <= i < |s| ==> IsDigit(s[i])
  {
    if |s| == 0 then 0 else DigitsValue(s[..|s| - 1]) * 10 + DigitOf(s[|s| - 1])
  }

  /** Decimal rendering without leading zeros, as Rust's `Display` for integers. */
  function NatToDecimal(n: nat): (s: string)
    ensures |s| >= 1
    ensures forall i :: 0 <= i < |s| ==> IsDigit(s[i])
    ensures DigitsValue(s) == n
    ensures |s| > 1 ==> s[0] != '0'
  {
    if n < 10 then [DigitChar(n)]
    else
      var prefix := NatToDecimal(n / 10);
      var s := prefix + [DigitChar(n % 10)];
      assert s[..|s| - 1] == prefix;
      s
  }

  predicate AllDigits(s: string)
  {
    forall i :: 0 <= i < |s| ==> IsDigit(s[i])
  }

  /** The text `parse` reads digits from: everything after one optional leading `+`. */
  function UnsignedDigits(s: string): string
  {
    if |s| > 0 && s[0] == '+' then s[1..] else s
  }

  /**
   Rust's `str::parse` for an unsigned type whose values are below `limit`:
   empty input, a lone sign, a non-digit or a value at or above `limit` is
   an error; a single leading `+` is accepted, and so are leading zeros.
   */
  function ParseUnsigned(s: string, limit: nat): (r: Option<nat>)
    ensures r.Some? <==> var d := UnsignedDigits(s); |d| >= 1 && AllDigits(d) && DigitsValue(d) < limit
    ensures r.Some? ==> r.value == DigitsValue(UnsignedDigits(s))
    ensures r.Some? ==> r.value < limit
    ensures r.Some? ==> |s| >= 1 && (IsDigit(s[0]) || s[0] == '+')
    ensures r.Some? ==> forall i :: 0 < i < |s| ==> IsDigit(s[i])
  {
    if |s| == 0 then None
    else
      var digits := if s[0] == '+' then s[1..] else s;
      if |digits| == 0 then None
      else if exists i :: 0 <= i < |digits| && !IsDigit(digits[i]) then None
      else if DigitsValue(digits) >= limit then None
      else Some(DigitsValue(digits))
  }

  /** A leading zero does not change the value of a digit string. */
  lemma {:induction false} LeadingZeroValue(s: string)
    requires AllDigits(s)
    ensures DigitsValue(['0'] + s) == DigitsValue(s)
    decreases |s|
  {
    if |s| > 0 {
      var init := s[..|s| - 1];
      assert (['0'] + s)[..|s|] == ['0'] + init;
      LeadingZeroValue(init);
    }
  }

  /** Zero padding is accepted and ignored: "0" followed by a number's digits parses as that number. */
  lemma ParsePadded(n: nat, limit: nat)
    requires n < limit
    ensures ParseUnsigned(['0'] + NatToDecimal(n), limit) == Some(n)
    ensures ParseUnsigned(['+'] + NatToDecimal(n), limit) == Some(n)
  {
    var d := NatToDecimal(n);
    LeadingZeroValue(d);
    assert (['+'] + d)[1..] == d;
  }

  /** Parsing the decimal rendering of a value in range gives the value back. */
  lemma ParseRendered(n: nat, limit: nat)
    requires n < limit
    ensures ParseUnsigned(NatToDecimal(n), limit) == Some(n)
  {
  }

  /** A rendered number contains no separator or sign character. */
  lemma RenderedHasNoColon(n: nat)
    ensures ':' !in NatToDecimal(n)
    ensures '+' !in NatToDecimal(n)
  {
  }

  const HEX_DIGITS: string := "0123456789abcdef"

  predicate IsLowerHex(c: char)
  {
    ('0' <= c <= '9') || ('a' <= c <= 'f')
  }

  function HexValue(c: char): (d: nat)
    requires IsLowerHex(c)
    ensures d < 16
    ensures HEX_DIGITS[d] == c
  {
    if '0' <= c <= '9' then c as int - '0' as int else c as int - 'a' as int + 10
  }

  /** The `width` lowest hex digits of `n`, most significant first. */
  function HexWidth(n: nat, width: nat): (s: string)
    ensures |s| == width
    ensures forall i :: 0 <= i < |s| ==> IsLowerHex(s[i])
  {
    if width == 0 then []
    else HexWidth(n / 16, width - 1) + [HEX_DIGITS[n % 16]]
  }

  /** The value of a string of lower-case hex digits. */
  function HexStringValue(s: string): nat
    requires forall i :: 0 <= i < |s| ==> IsLowerHex(s[i])
  {
    if |s| == 0 then 0 else HexStringValue(s[..|s| - 1]) * 16 + HexValue(s[|s| - 1])
  }

  function Pow16(n: nat): (r: nat)
    ensures r >= 1
  {
    if n == 0 then 1 else 16 * Pow16(n - 1)
  }

  /** `format!("{:016x}", id)` on a u64: always exactly sixteen digits. */
  function Hex16(id: u64): (s: string)
    ensures |s| == 16
    ensures forall i :: 0 <= i < |s| ==> IsLowerHex(s[i])
  {
    HexWidth(id, 16)
  }

  lemma {:induction false} HexWidthValue(n: nat, width: nat)
    requires n < Pow16(width)
    ensures HexStringValue(HexWidth(n, width)) == n
    decreases width
  {
    if width > 0 {
      var s := HexWidth(n, width);
      var prefix := HexWidth(n / 16, width - 1);
      assert s[..|s| - 1] == prefix;
      HexWidthValue(n / 16, width - 1);
      assert IsLowerHex(HEX_DIGITS[n % 16]);
      assert HexValue(s[|s| - 1]) == n % 16;
    }
  }

  lemma Pow16Is64Bit()
    ensures Pow16(16) == U64_LIMIT
  {
    assert Pow16(4) == 0x1_0000;
    assert Pow16(8) == 0x1_0000_0000 by { Pow16Add(4, 4); }
    Pow16Add(8, 8);
  }

  lemma {:induction false} Pow16Add(a: nat, b: nat)
    ensures Pow16(a + b) == Pow16(a) * Pow16(b)
    decreases a
  {
    if a > 0 {
      Pow16Add(a - 1, b);
    }
  }

  /** The node hash string reads back as the node id. */
  lemma Hex16RoundTrip(id: u64)
    ensures HexStringValue(Hex16(id)) == id
  {
    Pow16Is64Bit();
    HexWidthValue(id, 16);
  }
}
