/** Fixed-point decimal rendering, the model's stand-in for Python's
    `f'{v:.{round}f}'` on a value that is already rounded to `round`
    decimals: the value is given as an integer number of units of
    10^-round. */
module Decimal {
  import opened Wrappers

  function Pow10(k: nat): (p: nat)
    ensures p >= 1
  {
    if k == 0 then 1 else 10 * Pow10(k - 1)
  }

  predicate IsDigit(c: char) {
    '0' <= c <= '9'
  }

  predicate IsDigits(s: string) {
    forall i :: 0 <= i < |s| ==> IsDigit(s[i])
  }

  function DigitChar(d: nat): (c: char)
    requires d < 10
    ensures IsDigit(c)
  {
    (48 + d) as char
  }

  /** Decimal digits of `n` without leading zeros ("0" for zero). */
  function Digits(n: nat): (s: string)
    ensures s != [] && IsDigits(s)
  {
    if n < 10 then [DigitChar(n)] else Digits(n / 10) + [DigitChar(n % 10)]
  }

  /** The last `width` decimal digits of `n`, zero-padded on the left. */
  function PadDigits(n: nat, width: nat): (s: string)
    ensures |s| == width && IsDigits(s)
  {
    if width == 0 then [] else PadDigits(n / 10, width - 1) + [DigitChar(n % 10)]
  }

  /** Rendering of a non-negative `a * 10^-round`: the integer part and,
      when `round` is positive, a point followed by the zero-padded
      fraction. */
  function Magnitude(a: nat, round: nat): (s: string)
    ensures s != [] && IsDigit(s[0]) && IsDigit(s[|s| - 1])
  {
    var p := Pow10(round);
    DivMod(a, p);
    var intPart := Digits(a / p);
    if round == 0 then intPart else intPart + "." + PadDigits(a % p, round)
  }

  /** Rendering of `units * 10^-round` with exactly `round` decimals, with a
      minus sign for negative values. */
  function Fmt(units: int, round: nat): (r: string)
    ensures r != [] && (r[0] == '-' <==> units < 0)
  {
    if units < 0 then "-" + Magnitude(-units, round) else Magnitude(units, round)
  }

  /** The value a string of decimal digits denotes. */
  function DigitsValue(s: string): nat
    requires IsDigits(s)
  {
    if s == [] then 0 else 10 * DigitsValue(s[..|s| - 1]) + (s[|s| - 1] as int - 48)
  }

  /** Reading back a rendering made by `Magnitude` with the same `round`. */
  function ParseMagnitude(s: string, round: nat): Option<nat> {
    if round == 0 then
      if s != [] && IsDigits(s) then Some(DigitsValue(s)) else None
    else if |s| >= round + 2 && s[|s| - round - 1] == '.'
         && IsDigits(s[..|s| - round - 1]) && IsDigits(s[|s| - round..]) then
      Some(DigitsValue(s[..|s| - round - 1]) * Pow10(round) + DigitsValue(s[|s| - round..]))
    else None
  }

  /** Reading back a rendering made by `Fmt` with the same `round`. */
  function ParseFixed(s: string, round: nat): Option<int> {
    if s != [] && s[0] == '-' then Negated(ParseMagnitude(s[1..], round))
    else Widened(ParseMagnitude(s, round))
  }

  function Negated(m: Option<nat>): Option<int> {
    match m
    case Some(v) => Some(-(v as int))
    case None => None
  }

  function Widened(m: Option<nat>): Option<int> {
    match m
    case Some(v) => Some(v as int)
    case None => None
  }

  lemma {:induction false} DigitsRoundTrip(n: nat)
    ensures DigitsValue(Digits(n)) == n
  {
    if n >= 10 {
      var s := Digits(n);
      assert s[..|s| - 1] == Digits(n / 10);
      DigitsRoundTrip(n / 10);
    }
  }

  lemma DivMod(a: nat, p: nat)
    requires p >= 1
    ensures a / p >= 0 && 0 <= a % p < p && a == (a / p) * p + a % p
  {
  }

  lemma MulBound(d: int, x: int)
    requires d >= 1
    ensures x >= 1 ==> d * x >= d
    ensures x <= -1 ==> d * x <= -d
  {
    if x >= 1 { assert d * x == d + d * (x - 1); }
    if x <= -1 { assert d * x == -d + d * (x + 1); }
  }

  /** Euclidean quotient and remainder are unique. */
  lemma DivModUnique(n: int, d: int, k: int, m: int)
    requires d >= 1 && n == d * k + m && 0 <= m < d
    ensures n % d == m && n / d == k
  {
    var q, r := n / d, n % d;
    assert n == d * q + r && 0 <= r < d;
    assert d * (k - q) == r - m;
    MulBound(d, k - q);
  }

  /** `n mod 10P` from the last digit and `(n div 10) mod P`. */
  lemma ModTen(n: nat, p: nat)
    requires p >= 1
    ensures n % (10 * p) == 10 * ((n / 10) % p) + n % 10
  {
    var q := n / 10;
    var m := q % p;
    var k := q / p;
    DivMod(n, 10);
    DivMod(q, p);
    assert n == (10 * p) * k + (10 * m + n % 10);
    DivModUnique(n, 10 * p, k, 10 * m + n % 10);
  }

  lemma {:induction false} PadRoundTrip(n: nat, width: nat)
    ensures DigitsValue(PadDigits(n, width)) == n % Pow10(width)
  {
    if width > 0 {
      var s := PadDigits(n, width);
      assert s[..|s| - 1] == PadDigits(n / 10, width - 1);
      PadRoundTrip(n / 10, width - 1);
      ModTen(n, Pow10(width - 1));
    }
  }

  lemma MagnitudeRoundTrip(a: nat, round: nat)
    ensures ParseMagnitude(Magnitude(a, round), round) == Some(a)
  {
    var p := Pow10(round);
    DivMod(a, p);
    DigitsRoundTrip(a / p);
    var intPart := Digits(a / p);
    var s := Magnitude(a, round);
    if round > 0 {
      var pad := PadDigits(a % p, round);
      assert s == intPart + "." + pad;
      PadRoundTrip(a % p, round);
      DivModUnique(a % p, p, 0, a % p);
      assert DigitsValue(pad) == a % p;
      FractionSplit(intPart, pad, round);
      assert ParseMagnitude(s, round) == Some(DigitsValue(intPart) * p + DigitsValue(pad));
    } else {
      assert s == intPart;
    }
  }

  lemma FractionSplit(intPart: string, pad: string, round: nat)
    requires round > 0 && |pad| == round && intPart != []
    requires IsDigits(intPart) && IsDigits(pad)
    ensures var s := intPart + "." + pad;
      && |s| >= round + 2 && s[|s| - round - 1] == '.'
      && s[..|s| - round - 1] == intPart && s[|s| - round..] == pad
  {
    var s := intPart + "." + pad;
    assert s[..|s| - round - 1] == intPart;
    assert s[|s| - round..] == pad;
  }

  lemma ParseFixedSign(m: string, round: nat)
    requires m != [] && m[0] != '-'
    ensures ParseFixed("-" + m, round) == Negated(ParseMagnitude(m, round))
    ensures ParseFixed(m, round) == Widened(ParseMagnitude(m, round))
  {
    assert ("-" + m)[1..] == m;
  }

  /** `Fmt` loses nothing: its rendering reads back as the value. */
  lemma FmtRoundTrip(units: int, round: nat)
    ensures ParseFixed(Fmt(units, round), round) == Some(units)
  {
    var a: nat := if units < 0 then -units else units;
    var m := Magnitude(a, round);
    MagnitudeRoundTrip(a, round);
    ParseFixedSign(m, round);
  }
}
