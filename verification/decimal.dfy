/** Decimal rendering as Go's fmt package does it for integers (`%d`,
    `%2.2d`) and booleans (`%t`), with parsers that invert the renderings. */
module Decimal {
  import opened Wrappers

  predicate IsDigit(c: char) {
    '0' <= c <= '9'
  }

  predicate AllDigits(s: string) {
    forall i :: 0 <= i < |s| ==> IsDigit(s[i])
  }

  function DigitValue(c: char): nat
    requires IsDigit(c)
  {
    c as int - '0' as int
  }

  function DigitChar(d: nat): (c: char)
    requires d < 10
    ensures IsDigit(c) && DigitValue(c) == d
  {
    ('0' as int + d) as char
  }

  /** The number a digit string denotes, most significant digit first. */
  function DigitsValue(s: string): nat
    requires AllDigits(s)
    decreases |s|
  {
    if |s| == 0 then 0 else 10 * DigitsValue(s[..|s| - 1]) + DigitValue(s[|s| - 1])
  }

  /** `%d` of a non-negative integer: the shortest digit string, so no
      leading zero unless the number is zero itself. */
  function NatText(n: nat): (s: string)
    ensures 1 <= |s| && AllDigits(s)
    ensures s[0] == '0' <==> n == 0
    ensures n < 10 <==> |s| == 1
    decreases n
  {
    if n < 10 then [DigitChar(n)] else NatText(n / 10) + [DigitChar(n % 10)]
  }

  /** Reads back a non-empty all-digit string. */
  function ParseNat(s: string): (r: Option<nat>)
    ensures r.Some? <==> 0 < |s| && AllDigits(s)
  {
    if 0 < |s| && AllDigits(s) then Some(DigitsValue(s)) else None
  }

  lemma {:induction false} NatTextValue(n: nat)
    ensures DigitsValue(NatText(n)) == n
    decreases n
  {
    var s := NatText(n);
    if n >= 10 {
      NatTextValue(n / 10);
      assert s[..|s| - 1] == NatText(n / 10);
    }
  }

  /** `%d` is injective on the naturals: the text determines the number. */
  lemma NatTextRoundTrip(n: nat)
    ensures ParseNat(NatText(n)) == Some(n)
  {
    NatTextValue(n);
  }

  /** `%d` of any integer: a minus sign in front of the magnitude. */
  function IntText(i: int): (s: string)
    ensures 1 <= |s|
    ensures s[0] == '-' <==> i < 0
  {
    if i < 0 then "-" + NatText(-i) else NatText(i)
  }

  function ParseInt(s: string): Option<int> {
    var negative := 0 < |s| && s[0] == '-';
    var magnitude := if negative then s[1..] else s;
    match ParseNat(magnitude)
    case None => None
    case Some(n) => Some(if negative then 0 - n else n)
  }

  lemma IntTextRoundTrip(i: int)
    ensures ParseInt(IntText(i)) == Some(i)
  {
    var s := IntText(i);
    if i < 0 {
      var m := NatText(-i);
      assert s == "-" + m;
      assert s[1..] == m;
      NatTextRoundTrip(-i);
      assert ParseNat(s[1..]) == Some(-i);
    } else {
      assert s == NatText(i);
      assert IsDigit(s[0]);
      NatTextRoundTrip(i);
      assert ParseNat(s) == Some(i);
    }
  }

  /** `%2.2d`: the magnitude zero-padded to at least two digits, with a
      minus sign in front of the padding for negative values. */
  function Pad2(i: int): (s: string)
    ensures 0 <= i < 100 ==> |s| == 2 && AllDigits(s) && DigitsValue(s) == i
    ensures |s| >= 2
    ensures i < 0 <==> s[0] == '-'
  {
    var mag := if i < 0 then -i else i;
    var digits := if mag < 10 then ['0', DigitChar(mag)] else NatText(mag);
    NatTextValue(mag);
    assert digits[..1] == [digits[0]];
    if i < 0 then "-" + digits else digits
  }

  /** `%t` of a boolean. */
  function BoolText(b: bool): (s: string)
    ensures b <==> s == "true"
    ensures !b <==> s == "false"
  {
    if b then "true" else "false"
  }
}
