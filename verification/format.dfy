/** The display formatters of internal/util.go: byte sizes, ETAs, speeds
    and URL truncation. */
module Format {
  import opened Wrappers
  import opened Decimal
  import opened GoInts

  const Unit: nat := 1024
  /** Unit prefixes in increasing order, indexed by the loop's `exp`. */
  const Prefixes: string := "KMGTPE"
  /** float64 holds every integer below 2^53 exactly. */
  const ExactDoubleLimit: nat := 0x20_0000_0000_0000
  /** compressUrl keeps at most this many bytes. */
  const UrlDisplayLength: nat := 80

  // ---------------------------------------------------------------- sizes

  function Pow1024(e: nat): (p: nat)
    ensures p >= 1
  {
    if e == 0 then 1 else Unit * Pow1024(e - 1)
  }

  /** How many times the loop of formatSize divides `n` (the count of
      kibibytes) by 1024 before it drops below 1024. */
  function UnitExponent(n: nat): nat
    decreases n
  {
    if n < Unit then 0 else 1 + UnitExponent(n / Unit)
  }

  /** UnitExponent brackets its argument between consecutive powers of 1024. */
  lemma {:induction false} UnitExponentBrackets(n: nat)
    requires n >= 1
    ensures Pow1024(UnitExponent(n)) <= n < Pow1024(UnitExponent(n) + 1)
    decreases n
  {
    if n >= Unit {
      var e := UnitExponent(n);
      UnitExponentBrackets(n / Unit);
      assert Pow1024(e) == Unit * Pow1024(e - 1);
      assert Pow1024(e + 1) == Unit * Pow1024(e);
    }
  }

  lemma {:induction false} Pow1024Increasing(a: nat, b: nat)
    requires a < b
    ensures Pow1024(a) < Pow1024(b)
    decreases b
  {
    if a < b - 1 {
      Pow1024Increasing(a, b - 1);
    }
  }

  /** The powers of 1024 are ordered as their exponents. */
  lemma Pow1024Order(a: nat, b: nat)
    ensures a <= b <==> Pow1024(a) <= Pow1024(b)
  {
    if a < b {
      Pow1024Increasing(a, b);
    } else if b < a {
      Pow1024Increasing(b, a);
    }
  }

  /** The exponent of the unit formatSize picks for `bytes >= 1024`. */
  function SizeExponent(bytes: Int64): (e: nat)
    requires bytes >= Unit
    ensures e < |Prefixes|
    ensures Pow1024(e + 1) <= bytes < Pow1024(e + 2)
  {
    var e := UnitExponent(bytes / Unit);
    UnitExponentBrackets(bytes / Unit);
    assert Pow1024(e + 1) == Unit * Pow1024(e);
    assert Pow1024(e + 2) == Unit * Pow1024(e + 1);
    Pow1024Seven();
    Pow1024Order(e + 1, 7);
    e
  }

  lemma Pow1024Seven()
    ensures Pow1024(7) == 0x40_0000_0000_0000_0000
  {
    assert Pow1024(1) == 0x400;
    assert Pow1024(2) == 0x10_0000;
    assert Pow1024(3) == 0x4000_0000;
    assert Pow1024(4) == 0x100_0000_0000;
    assert Pow1024(5) == 0x4_0000_0000_0000;
    assert Pow1024(6) == 0x1000_0000_0000_0000;
  }

  /** The unit formatSize chooses for `bytes >= 1024` is the only exponent
      `e` with 1024^(e+1) <= bytes < 1024^(e+2), and the loop's integer
      quotient lies in [1, 1024). The printed value is rounded and can
      reach 1024.0. */
  lemma SizeUnitChoice(bytes: Int64, e: nat)
    requires bytes >= Unit
    ensures 1 <= bytes / Pow1024(SizeExponent(bytes) + 1) < Unit
    ensures Pow1024(e + 1) <= bytes < Pow1024(e + 2) <==> e == SizeExponent(bytes)
  {
    var u := SizeExponent(bytes);
    assert Pow1024(u + 2) == Unit * Pow1024(u + 1);
    DivBracket(bytes, Pow1024(u + 1), 1, Unit);
    Pow1024Order(e + 1, u + 2);
    Pow1024Order(u + 1, e + 2);
  }

  // Small arithmetic facts, stated one at a time so that the solver's
  // non-linear reasoning stays cheap.

  lemma MulMonotonic(a: int, b: int, c: nat)
    requires a <= b
    ensures a * c <= b * c
  {
    assert (b - a) * c >= 0;
  }

  lemma DivFacts(b: nat, d: nat)
    requires d > 0
    ensures (b / d) * d <= b < (b / d) * d + d
  {
  }

  lemma MulAssoc(a: int, b: int, c: int)
    ensures (a * b) * c == a * (b * c)
  {
  }

  lemma MulDistrib(a: int, b: int, c: int)
    ensures (a + b) * c == a * c + b * c
  {
  }

  /** `lo <= b / d < hi` follows from `lo * d <= b < hi * d`. */
  lemma DivBracket(b: nat, d: nat, lo: nat, hi: nat)
    requires d > 0 && lo * d <= b < hi * d
    ensures lo <= b / d < hi
  {
    var q := b / d;
    DivFacts(b, d);
    if q + 1 <= lo {
      MulMonotonic(q + 1, lo, d);
      MulDistrib(q, 1, d);
    }
    if hi <= q {
      MulMonotonic(hi, q, d);
    }
  }

  /** Dividing by x and then by y is dividing by x * y. */
  lemma DivDiv(b: nat, x: nat, y: nat)
    requires x > 0 && y > 0
    ensures b / x / y == b / (x * y)
  {
    var q := b / x;
    var q2 := q / y;
    DivFacts(b, x);
    DivFacts(q, y);
    MulMonotonic(q2 * y, q, x);
    MulMonotonic(q + 1, q2 * y + y, x);
    MulDistrib(q, 1, x);
    MulAssoc(q2, y, x);
    MulDistrib(q2, 1, y);
    MulAssoc(q2 + 1, y, x);
    assert y * x == x * y;
    DivBracket(b, x * y, q2, q2 + 1);
  }

  /** One pass of formatSize's loop: the next divisor still fits under
      `bytes`, and dividing the count again is dividing by the next divisor. */
  lemma ScaleStep(bytes: nat, div: nat, n: nat)
    requires div > 0 && n == bytes / div && n >= Unit
    ensures div * Unit <= bytes
    ensures n / Unit == bytes / (div * Unit)
  {
    DivDiv(bytes, div, Unit);
    DivFacts(bytes, div);
    MulMonotonic(Unit, n, div);
  }

  /** The loop of formatSize (internal/util.go:89-93). `div` is an Int64,
      so every assignment to it is checked not to overflow. */
  method ScaleLoop(bytes: Int64) returns (div: Int64, exp: nat)
    requires bytes >= Unit
    ensures exp == UnitExponent(bytes / Unit) == SizeExponent(bytes)
    ensures div == Pow1024(exp + 1) <= bytes
    ensures 1 <= bytes / div < Unit
  {
    div, exp := Unit, 0;
    var n := bytes / Unit;
    while n >= Unit
      invariant div == Pow1024(exp + 1) <= bytes
      invariant n == bytes / div
      invariant exp + UnitExponent(n) == UnitExponent(bytes / Unit)
      decreases n
    {
      ScaleStep(bytes, div, n);
      assert div * Unit == Pow1024(exp + 2);
      assert UnitExponent(n) == 1 + UnitExponent(n / Unit);
      div := div * Unit;
      exp := exp + 1;
      n := n / Unit;
    }
    assert UnitExponent(n) == 0;
    DivFacts(bytes, div);
    DivBracket(bytes, div, 1, n + 1);
  }

  /** Euclid's division written out with the next multiple, so that the
      rounding proof below needs only linear reasoning. */
  lemma QuotientFacts(n: nat, d: nat)
    requires d > 0
    ensures n == (n / d) * d + n % d && 0 <= n % d < d
    ensures (n / d + 1) * d == (n / d) * d + d
  {
    MulDistrib(n / d, 1, d);
  }

  /** n / d rounded to the nearest integer, ties to the even neighbour. */
  function RoundHalfEven(n: nat, d: nat): (q: nat)
    requires d > 0
    ensures 2 * (q * d) <= 2 * n + d && 2 * n <= 2 * (q * d) + d
    ensures 2 * (q * d) == 2 * n + d || 2 * n == 2 * (q * d) + d ==> q % 2 == 0
  {
    QuotientFacts(n, d);
    var q, r := n / d, n % d;
    var below := q * d;
    var up := 2 * r > d || (2 * r == d && q % 2 == 1);
    var res := if up then q + 1 else q;
    assert res * d == if up then below + d else below;
    RoundBounds(n, d, below, r, q, up, res, res * d);
    res
  }

  /** The rounding facts with the products named, so that the argument is
      linear. */
  lemma RoundBounds(n: int, d: int, below: int, r: int, q: int, up: bool, res: int, product: int)
    requires n == below + r && 0 <= r < d
    requires up == (2 * r > d || (2 * r == d && q % 2 == 1))
    requires res == if up then q + 1 else q
    requires product == if up then below + d else below
    ensures 2 * product <= 2 * n + d && 2 * n <= 2 * product + d
    ensures 2 * product == 2 * n + d || 2 * n == 2 * product + d ==> res % 2 == 0
  {
  }

  function Pow2(k: nat): (p: nat)
    ensures p >= 1
  {
    if k == 0 then 1 else 2 * Pow2(k - 1)
  }

  /** Low-order bits a float64 cannot keep for a value this large. */
  function DroppedBits(b: nat): nat
    decreases b
  {
    if b < ExactDoubleLimit then 0 else 1 + DroppedBits(b / 2)
  }

  /** DroppedBits(b) is the float64 spacing at b: dropping that many low
      bits leaves a 53-bit significand, in [2^52, 2^53). */
  lemma {:induction false} DroppedBitsSpacing(b: nat)
    requires b >= ExactDoubleLimit
    ensures ExactDoubleLimit <= 2 * (b / Pow2(DroppedBits(b)))
    ensures b / Pow2(DroppedBits(b)) < ExactDoubleLimit
    decreases b
  {
    var k := DroppedBits(b);
    assert k == 1 + DroppedBits(b / 2);
    assert Pow2(k) == 2 * Pow2(k - 1);
    DivDiv(b, 2, Pow2(k - 1));
    if b / 2 >= ExactDoubleLimit {
      DroppedBitsSpacing(b / 2);
    }
  }

  /** Go's `float64(b)` for a non-negative int64, as an integer:
      rounded to 53 significant bits, ties to even. */
  function DoubleOf(b: nat): (f: nat)
    ensures b < ExactDoubleLimit ==> f == b
    ensures f % Pow2(DroppedBits(b)) == 0
    ensures 2 * (f - b) <= Pow2(DroppedBits(b)) && 2 * (b - f) <= Pow2(DroppedBits(b))
    ensures b >= ExactDoubleLimit
      && (2 * (f - b) == Pow2(DroppedBits(b)) || 2 * (b - f) == Pow2(DroppedBits(b)))
      ==> (f / Pow2(DroppedBits(b))) % 2 == 0
  {
    if b < ExactDoubleLimit then b
    else
      var ulp := Pow2(DroppedBits(b));
      var m := RoundHalfEven(b, ulp);
      MultipleMod(m, ulp);
      ScaledTie(b, ulp, m);
      m * ulp
  }

  /** A tie broken toward an even multiplier `m` of `u` is still even
      once the product is divided back by `u`. */
  lemma ScaledTie(b: nat, u: nat, m: nat)
    requires u > 0
    requires 2 * (m * u) == 2 * b + u || 2 * b == 2 * (m * u) + u ==> m % 2 == 0
    ensures 2 * (m * u - b) == u || 2 * (b - m * u) == u ==> ((m * u) / u) % 2 == 0
  {
    assert (m + 1) * u == m * u + u;
    DivBracket(m * u, u, m, m + 1);
  }

  lemma MultipleMod(m: nat, d: nat)
    requires d > 0
    ensures (m * d) % d == 0
  {
    assert (m + 1) * d == m * d + d;
    DivBracket(m * d, d, m, m + 1);
  }

  /** `%.1f` of float64(bytes) / float64(div), in tenths. div is a power of
      two, so the float division is exact; `%.1f` then rounds ties to even. */
  function SizeTenths(bytes: nat, div: nat): nat
    requires div > 0
  {
    RoundHalfEven(10 * DoubleOf(bytes), div)
  }

  /** Reads `<digits>.<digit>` back into a count of tenths. */
  function ParseTenths(s: string): Option<nat> {
    if |s| >= 3 && s[|s| - 2] == '.' && IsDigit(s[|s| - 1]) then
      var whole :- ParseNat(s[..|s| - 2]);
      Some(10 * whole + DigitValue(s[|s| - 1]))
    else None
  }

  /** A non-negative count of tenths written with one decimal, as `%.1f`
      prints it; the text reads back as the count. */
  function TenthsText(t: nat): (s: string)
    ensures |s| >= 3 && s[|s| - 2] == '.'
    ensures ParseTenths(s) == Some(t)
  {
    var s := NatText(t / 10) + "." + [DigitChar(t % 10)];
    assert s[..|s| - 2] == NatText(t / 10);
    NatTextRoundTrip(t / 10);
    s
  }

  /** `<number> <prefix>iB` splits back into the number and the suffix. */
  lemma UnitSuffix(number: string, prefix: char)
    ensures var r := number + " " + [prefix] + "iB";
      && |r| == |number| + 4
      && r[..|r| - 4] == number
      && r[|r| - 4..] == [' ', prefix, 'i', 'B']
  {
  }

  /** formatSize (internal/util.go:81-95). From 1024 bytes on, the text is
      the rounded quotient in tenths followed by ` <prefix>iB`. */
  function FormatSize(bytes: Option<Int64>): (r: string)
    ensures bytes.None? <==> r == "N/A"
    ensures bytes.Some? && bytes.value < Unit ==> r == IntText(bytes.value) + " B"
    ensures bytes.Some? && bytes.value >= Unit ==>
      var e := SizeExponent(bytes.value);
      && |r| >= 7
      && r[|r| - 4..] == [' ', Prefixes[e], 'i', 'B']
      && ParseTenths(r[..|r| - 4]) == Some(SizeTenths(bytes.value, Pow1024(e + 1)))
  {
    match bytes
    case None => "N/A"
    case Some(b) =>
      if b < Unit then
        var r := IntText(b) + " B";
        assert r[|r| - 1] == 'B';
        r
      else
        var exp := SizeExponent(b);
        var number := TenthsText(SizeTenths(b, Pow1024(exp + 1)));
        UnitSuffix(number, Prefixes[exp]);
        number + " " + [Prefixes[exp]] + "iB"
  }

  /** Below 1024 bytes the decimal integer can be read back from the text. */
  lemma SmallSizeRoundTrip(b: Int64)
    requires b < Unit
    ensures var r := FormatSize(Some(b));
      |r| > 2 && r[|r| - 2..] == " B" && ParseInt(r[..|r| - 2]) == Some(b)
  {
    var r := FormatSize(Some(b));
    assert r[..|r| - 2] == IntText(b);
    IntTextRoundTrip(b);
  }

  /** The number formatSize prints from 1024 bytes on is float64(bytes) /
      1024^(e+1) rounded to the nearest tenth, ties to even:
      |10 * float64(bytes) - tenths * div| <= div / 2. For sizes a float64
      holds exactly, float64(bytes) is bytes itself. */
  lemma SizeTenthsAccurate(b: Int64, t: nat)
    requires b >= Unit
    requires var r := FormatSize(Some(b)); |r| >= 4 && ParseTenths(r[..|r| - 4]) == Some(t)
    ensures var div := Pow1024(SizeExponent(b) + 1);
      && 2 * (t * div) <= 20 * DoubleOf(b) + div && 20 * DoubleOf(b) <= 2 * (t * div) + div
      && (2 * (t * div) == 20 * DoubleOf(b) + div || 20 * DoubleOf(b) == 2 * (t * div) + div ==> t % 2 == 0)
      && (b < ExactDoubleLimit ==> 2 * (t * div) <= 20 * b + div && 20 * b <= 2 * (t * div) + div)
  {
    assert t == SizeTenths(b, Pow1024(SizeExponent(b) + 1));
  }

  // ------------------------------------------------------------------ ETA

  /** The days / hours / minutes / seconds decomposition of formatEta, with
      Go's truncating `/` and `%`. */
  function EtaParts(seconds: int): (p: (int, int, int, int))
    ensures p.0 * 86400 + p.1 * 3600 + p.2 * 60 + p.3 == seconds
    ensures -24 < p.1 < 24 && -60 < p.2 < 60 && -60 < p.3 < 60
    ensures seconds >= 0 ==> 0 <= p.0 && 0 <= p.1 && 0 <= p.2 && 0 <= p.3
    ensures seconds <= 0 ==> p.0 <= 0 && p.1 <= 0 && p.2 <= 0 && p.3 <= 0
  {
    var days, s1 := Quot(seconds, 86400), Rem(seconds, 86400);
    var hrs, s2 := Quot(s1, 3600), Rem(s1, 3600);
    var mins, secs := Quot(s2, 60), Rem(s2, 60);
    (days, hrs, mins, secs)
  }

  /** `%2.2d:%2.2d:%2.2d`. */
  function Clock(hrs: int, mins: int, secs: int): (c: string)
    ensures 0 <= hrs < 100 && 0 <= mins < 100 && 0 <= secs < 100 ==> |c| == 8
  {
    Pad2(hrs) + ":" + Pad2(mins) + ":" + Pad2(secs)
  }

  /** formatEta (internal/util.go:97-111). */
  function FormatEta(seconds: Option<Int64>): (r: string)
    ensures seconds.None? <==> r == "N/A"
    ensures seconds.Some? && 0 <= seconds.value < 86400 ==> |r| == 8
    ensures seconds.Some? && seconds.value >= 86400 ==> |r| >= 15 && r[|r| - 14..|r| - 8] == " days "
  {
    match seconds
    case None => "N/A"
    case Some(s) =>
      var p := EtaParts(s);
      var clock := Clock(p.1, p.2, p.3);
      assert |clock| >= 8;
      if p.0 > 0 then IntText(p.0) + " days " + clock else clock
  }

  /** Reads an `HH:MM:SS` clock back into seconds. */
  function ParseClock(c: string): Option<nat> {
    if |c| == 8 && c[2] == ':' && c[5] == ':'
       && AllDigits(c[0..2]) && AllDigits(c[3..5]) && AllDigits(c[6..8])
    then Some(DigitsValue(c[0..2]) * 3600 + DigitsValue(c[3..5]) * 60 + DigitsValue(c[6..8]))
    else None
  }

  /** Reads formatEta's output back into seconds: an optional
      `<d> days ` prefix and a clock. */
  function ParseEta(t: string): Option<int> {
    if |t| < 8 then None
    else
      var clock :- ParseClock(t[|t| - 8..]);
      var prefix := t[..|t| - 8];
      if prefix == "" then Some(clock)
      else if |prefix| > 6 && prefix[|prefix| - 6..] == " days " then
        var days :- ParseNat(prefix[..|prefix| - 6]);
        Some(days * 86400 + clock)
      else None
  }

  /** The clock part reads back as the seconds it shows. */
  lemma ClockRoundTrip(hrs: int, mins: int, secs: int)
    requires 0 <= hrs < 24 && 0 <= mins < 60 && 0 <= secs < 60
    ensures ParseClock(Clock(hrs, mins, secs)) == Some(hrs * 3600 + mins * 60 + secs)
  {
    var clock := Clock(hrs, mins, secs);
    assert clock[0..2] == Pad2(hrs);
    assert clock[3..5] == Pad2(mins);
    assert clock[6..8] == Pad2(secs);
  }

  /** A `<days> days ` prefix reads back as its day count. */
  lemma DaysPrefixRoundTrip(days: nat, clock: string)
    requires |clock| == 8
    ensures var t := NatText(days) + " days " + clock;
      && t[|t| - 8..] == clock
      && var prefix := t[..|t| - 8];
      && |prefix| > 6 && prefix[|prefix| - 6..] == " days "
      && ParseNat(prefix[..|prefix| - 6]) == Some(days)
  {
    var t := NatText(days) + " days " + clock;
    var prefix := t[..|t| - 8];
    assert prefix == NatText(days) + " days ";
    assert prefix[..|prefix| - 6] == NatText(days);
    NatTextRoundTrip(days);
  }

  /** The text formatEta produces for a non-negative duration. */
  function EtaText(days: nat, hrs: int, mins: int, secs: int): string {
    var clock := Clock(hrs, mins, secs);
    if days > 0 then NatText(days) + " days " + clock else clock
  }

  lemma FormatEtaShape(s: Int64)
    requires s >= 0
    ensures var p := EtaParts(s);
      p.0 >= 0 && FormatEta(Some(s)) == EtaText(p.0, p.1, p.2, p.3)
  {
  }

  /** A bare clock reads back as its seconds. */
  lemma ParseEtaClock(clock: string, v: nat)
    requires |clock| == 8 && ParseClock(clock) == Some(v)
    ensures ParseEta(clock) == Some(v)
  {
    assert clock[|clock| - 8..] == clock;
    assert clock[..|clock| - 8] == "";
  }

  /** A days prefix followed by a clock reads back as the days and the
      clock's seconds together. */
  lemma ParseEtaDays(days: nat, clock: string, v: nat)
    requires |clock| == 8 && ParseClock(clock) == Some(v)
    ensures ParseEta(NatText(days) + " days " + clock) == Some(days * 86400 + v)
  {
    DaysPrefixRoundTrip(days, clock);
  }

  /** ParseEta reads the parts back from the text. */
  lemma ParseEtaText(days: nat, hrs: int, mins: int, secs: int)
    requires 0 <= hrs < 24 && 0 <= mins < 60 && 0 <= secs < 60
    ensures ParseEta(EtaText(days, hrs, mins, secs)) == Some(days * 86400 + hrs * 3600 + mins * 60 + secs)
  {
    var clock := Clock(hrs, mins, secs);
    var v: nat := hrs * 3600 + mins * 60 + secs;
    ClockRoundTrip(hrs, mins, secs);
    if days > 0 {
      assert EtaText(days, hrs, mins, secs) == NatText(days) + " days " + clock;
      ParseEtaDays(days, clock, v);
    } else {
      assert EtaText(days, hrs, mins, secs) == clock;
      ParseEtaClock(clock, v);
    }
  }

  /** Any text built from parts that recombine to `s` reads back as `s`. */
  lemma ParseEtaFromParts(text: string, days: nat, hrs: int, mins: int, secs: int, s: int)
    requires 0 <= hrs < 24 && 0 <= mins < 60 && 0 <= secs < 60
    requires text == EtaText(days, hrs, mins, secs)
    requires days * 86400 + hrs * 3600 + mins * 60 + secs == s
    ensures ParseEta(text) == Some(s)
  {
    ParseEtaText(days, hrs, mins, secs);
  }

  /** formatEta is injective on non-negative durations: ParseEta recovers
      the number of seconds from the text, days prefix included. */
  lemma FormatEtaRoundTrip(s: Int64)
    requires s >= 0
    ensures ParseEta(FormatEta(Some(s))) == Some(s)
  {
    var p := EtaParts(s);
    FormatEtaShape(s);
    ParseEtaFromParts(FormatEta(Some(s)), p.0, p.1, p.2, p.3, s);
  }

  // ---------------------------------------------------------------- speed

  /** formatSpeed (internal/util.go:113-119): the truncated integer speed
      rendered as a size, followed by "/s". */
  function FormatSpeed(speed: Option<ConvertibleReal>): (r: string)
    ensures speed.None? <==> r == "N/A"
    ensures speed.Some? ==>
      && |r| > 2
      && r[|r| - 2..] == "/s"
      && r[..|r| - 2] == FormatSize(Some(Trunc(speed.value)))
  {
    match speed
    case None => "N/A"
    case Some(v) =>
      var size := FormatSize(Some(Trunc(v)));
      size + "/s"
  }

  // ------------------------------------------------------------------ URL

  /** compressUrl (internal/util.go:121-126): the first 80 bytes of a
      longer URL, a shorter one unchanged. */
  function CompressUrl<T>(url: seq<T>): (r: seq<T>)
    ensures |r| == if |url| <= UrlDisplayLength then |url| else UrlDisplayLength
    ensures r == url[..|r|]
  {
    if |url| > UrlDisplayLength then url[0..UrlDisplayLength] else url
  }

  lemma CompressUrlIdempotent<T>(url: seq<T>)
    ensures CompressUrl(CompressUrl(url)) == CompressUrl(url)
    ensures |url| <= UrlDisplayLength ==> CompressUrl(url) == url
  {
  }

  // ------------------------------------------------------------------- IDs

  /** The ID cell of every table, `strconv.FormatUint(uint64(uuid), 10)`:
      it reads back as the identifier's unsigned 64-bit value. */
  function IdText(uuid: Int64): (s: string)
    ensures AllDigits(s)
    ensures ParseNat(s) == Some(Uint64Of(uuid))
    ensures uuid >= 0 ==> ParseNat(s) == Some(uuid)
    ensures uuid < 0 ==> ParseNat(s) == Some(uuid + TwoTo64)
  {
    NatTextRoundTrip(Uint64Of(uuid));
    NatText(Uint64Of(uuid))
  }

  // ------------------------------------------------------------- examples

  /** The expectations of TestFormatSpeed (internal/util_test.go:45-51),
      one lemma per case. */
  lemma FormatSpeedByteExample()
    ensures FormatSpeed(Some(1000.0)) == "1000 B/s"
    ensures FormatSpeed(None) == "N/A"
  {
    assert Trunc(1000.0) == 1000;
    assert IntText(1000) == "1000";
  }

  lemma FormatSpeedSmallKibExample()
    ensures FormatSpeed(Some(10000.0)) == "9.8 KiB/s"
  {
    assert Trunc(10000.0) == 10000;
    assert UnitExponent(9) == 0;
    assert SizeExponent(10000) == 0;
    assert RoundHalfEven(100000, 1024) == 98;
    assert SizeTenths(10000, 1024) == 98;
    assert NatText(9) == "9";
    assert TenthsText(98) == "9.8";
    assert FormatSize(Some(10000)) == "9.8 KiB";
  }

  lemma FormatSpeedKibExample()
    ensures FormatSpeed(Some(1000000.0)) == "976.6 KiB/s"
  {
    assert Trunc(1000000.0) == 1000000;
    assert UnitExponent(976) == 0;
    assert SizeExponent(1000000) == 0;
    assert RoundHalfEven(10000000, 1024) == 9766;
    assert SizeTenths(1000000, 1024) == 9766;
    assert NatText(9) == "9";
    assert NatText(97) == "97";
    assert NatText(976) == "976";
    assert TenthsText(9766) == "976.6";
    assert FormatSize(Some(1000000)) == "976.6 KiB";
  }

  lemma FormatSpeedMibExample()
    ensures FormatSpeed(Some(100000000.0)) == "95.4 MiB/s"
  {
    assert Trunc(100000000.0) == 100000000;
    assert UnitExponent(95) == 0;
    assert UnitExponent(97656) == 1;
    assert SizeExponent(100000000) == 1;
    assert Pow1024(2) == 1048576;
    assert RoundHalfEven(1000000000, 1048576) == 954;
    assert SizeTenths(100000000, 1048576) == 954;
    assert NatText(95) == "95";
    assert TenthsText(954) == "95.4";
    assert FormatSize(Some(100000000)) == "95.4 MiB";
  }

  /** Just below 1 MiB the rounded number reaches 1024.0 while the unit
      stays KiB: the integer quotient is below 1024, the printed value is
      not. */
  lemma FormatSizeRoundsUpExample()
    ensures SizeExponent(1048575) == 0
    ensures FormatSize(Some(1048575)) == "1024.0 KiB"
  {
    assert UnitExponent(1023) == 0;
    assert RoundHalfEven(10485750, 1024) == 10240;
    assert SizeTenths(1048575, 1024) == 10240;
    assert NatText(10) == "10";
    assert NatText(102) == "102";
    assert NatText(1024) == "1024";
    assert TenthsText(10240) == "1024.0";
  }

  /** The expectations of TestFormatEta (internal/util_test.go:53-57). */
  lemma FormatEtaClockExample()
    ensures FormatEta(Some(1000)) == "00:16:40"
    ensures FormatEta(None) == "N/A"
  {
    assert EtaParts(1000) == (0, 0, 16, 40);
  }

  lemma FormatEtaDaysExample()
    ensures FormatEta(Some(768754)) == "8 days 21:32:34"
  {
    assert Quot(768754, 86400) == 8 && Rem(768754, 86400) == 77554;
    assert Quot(77554, 3600) == 21 && Rem(77554, 3600) == 1954;
    assert Quot(1954, 60) == 32 && Rem(1954, 60) == 34;
    assert EtaParts(768754) == (8, 21, 32, 34);
    assert FormatEta(Some(768754)) == IntText(8) + " days " + Clock(21, 32, 34);
    assert Pad2(21) == "21" && Pad2(32) == "32" && Pad2(34) == "34";
    assert IntText(8) == "8";
  }
}
