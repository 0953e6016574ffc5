/**
 * The text JavaScript produces when a number that is a whole number of
 * hundredths is interpolated into a template string (`${x}`): an optional
 * minus sign, the integer part without leading zeros, and at most two
 * fractional digits with no trailing zero. `Parse` reads such text back.
 */
module Decimal {
  import opened Wrappers

  predicate IsDigit(c: char) { '0' <= c <= '9' }

  function Digit(d: nat): (c: char)
    requires d < 10
    ensures IsDigit(c) && (c as int) - ('0' as int) == d
  {
    ('0' as int + d) as char
  }

  function DigitValue(c: char): nat
    requires IsDigit(c)
  {
    (c as int) - ('0' as int)
  }

  predicate AllDigits(s: string) { forall i :: 0 <= i < |s| ==> IsDigit(s[i]) }

  /** Decimal digits of n, most significant first, without leading zeros. */
  function NatText(n: nat): (s: string)
    ensures |s| > 0 && AllDigits(s)
    ensures |s| > 1 ==> s[0] != '0'
  {
    if n < 10 then [Digit(n)] else NatText(n / 10) + [Digit(n % 10)]
  }

  /** The value of a string of decimal digits. */
  function DigitsValue(s: string): nat
    requires AllDigits(s)
  {
    if s == [] then 0 else DigitsValue(s[..|s| - 1]) * 10 + DigitValue(s[|s| - 1])
  }

  lemma {:induction false} NatTextValue(n: nat)
    ensures DigitsValue(NatText(n)) == n
  {
    if n >= 10 {
      var s := NatText(n);
      assert s[..|s| - 1] == NatText(n / 10);
      NatTextValue(n / 10);
    }
  }

  /** The fractional part of r hundredths (r < 100): empty, one or two digits. */
  function Fraction(r: nat): (s: string)
    requires r < 100
  {
    if r == 0 then ""
    else if r % 10 == 0 then ['.', Digit(r / 10)]
    else ['.', Digit(r / 10), Digit(r % 10)]
  }

  /** An integer part as JavaScript writes it: digits, no leading zero unless it is "0". */
  predicate WholeShape(w: string)
  {
    |w| > 0 && AllDigits(w) && (|w| > 1 ==> w[0] != '0')
  }

  /** A fractional part as JavaScript writes it: nothing, or '.' and one or two digits, the last not '0'. */
  predicate FracShape(f: string)
  {
    f == [] || (2 <= |f| <= 3 && f[0] == '.' && AllDigits(f[1..]) && f[|f| - 1] != '0')
  }

  predicate CanonicalUnsigned(u: string)
  {
    var k := DotIndex(u);
    WholeShape(u[..k]) && FracShape(u[k..])
  }

  /**
   * The shortest text of a number of hundredths: a minus sign before a
   * non-zero magnitude only, then the integer part and the fractional part.
   */
  predicate Canonical(s: string)
  {
    if |s| > 0 && s[0] == '-' then CanonicalUnsigned(s[1..]) && s[1..] != "0"
    else CanonicalUnsigned(s)
  }

  lemma NatTextZero(n: nat)
    ensures NatText(n) == "0" <==> n == 0
  {
    if n >= 10 {
      assert |NatText(n)| == |NatText(n / 10)| + 1;
    } else {
      assert NatText(n) == [Digit(n)];
    }
  }

  lemma FractionShape(r: nat)
    requires r < 100
    ensures FracShape(Fraction(r))
  {
    var f := Fraction(r);
    if r != 0 {
      assert f[1..] == if r % 10 == 0 then [Digit(r / 10)] else [Digit(r / 10), Digit(r % 10)];
      assert r / 10 > 0 || r % 10 > 0;
    }
  }

  /** An integer text followed by a fractional text is canonical, split at its dot. */
  lemma JoinShapes(w: string, f: string)
    requires WholeShape(w) && FracShape(f)
    ensures CanonicalUnsigned(w + f)
  {
    var u := w + f;
    assert forall i :: 0 <= i < |w| ==> u[i] == w[i] && u[i] != '.';
    if f != [] {
      assert u[|w|] == f[0] == '.';
    }
    assert DotIndex(u) == |w|;
    assert u[..|w|] == w && u[|w|..] == f;
  }

  /** The text of m / 100 for m >= 0: canonical, and "0" exactly for zero. */
  function Unsigned(m: nat): (s: string)
    ensures |s| > 0 && IsDigit(s[0])
    ensures CanonicalUnsigned(s)
    ensures s == "0" <==> m == 0
  {
    var w, f := NatText(m / 100), Fraction(m % 100);
    NatTextZero(m / 100);
    FractionShape(m % 100);
    JoinShapes(w, f);
    assert |w + f| == |w| + |f|;
    w + f
  }

  /** The text of h / 100: canonical, with a minus sign exactly when h is negative. */
  function Text(h: int): (s: string)
    ensures |s| > 0
    ensures Canonical(s)
    ensures s[0] == '-' <==> h < 0
  {
    if h < 0 then
      var u := Unsigned(-h);
      assert ("-" + u)[1..] == u;
      "-" + u
    else Unsigned(h)
  }

  /** The value of the digits after a decimal point: ".d0 d1 ..." */
  function FracValue(f: string): (v: real)
    requires AllDigits(f)
    ensures 0.0 <= v <= 1.0
  {
    if f == [] then 0.0 else (DigitValue(f[0]) as real + FracValue(f[1..])) / 10.0
  }

  /** Position of the first '.' in s, or |s| when there is none. */
  function DotIndex(s: string): (k: nat)
    ensures k <= |s|
    ensures forall i :: 0 <= i < k ==> s[i] != '.'
    ensures k < |s| ==> s[k] == '.'
  {
    if s == [] then 0 else if s[0] == '.' then 0 else 1 + DotIndex(s[1..])
  }

  /** Reads `digits` or `digits.digits`; anything else is None. */
  function ParseUnsigned(s: string): Option<real>
  {
    var k := DotIndex(s);
    var whole := s[..k];
    if whole == [] || !AllDigits(whole) then None
    else if k == |s| then Some(DigitsValue(whole) as real)
    else
      var frac := s[k + 1..];
      if frac == [] || !AllDigits(frac) then None
      else Some(DigitsValue(whole) as real + FracValue(frac))
  }

  /** Reads an optionally signed decimal number. */
  function Parse(s: string): Option<real>
  {
    if |s| > 0 && s[0] == '-' then
      match ParseUnsigned(s[1..])
      case Some(x) => Some(-x)
      case None => None
    else ParseUnsigned(s)
  }

  lemma FractionValue(r: nat)
    requires 0 < r < 100
    ensures var f := Fraction(r);
      |f| > 1 && f[0] == '.' && AllDigits(f[1..]) && FracValue(f[1..]) == r as real / 100.0
  {
    var f := Fraction(r);
    var hi, lo := r / 10, r % 10;
    assert r as real == 10.0 * hi as real + lo as real;
    assert DigitValue(Digit(hi)) == hi && DigitValue(Digit(lo)) == lo;
    if lo == 0 {
      assert f[1..] == [Digit(hi)];
      assert f[1..][1..] == [];
      assert FracValue(f[1..]) == hi as real / 10.0;
    } else {
      assert f[1..] == [Digit(hi), Digit(lo)];
      assert f[1..][1..] == [Digit(lo)];
      assert f[1..][1..][1..] == [];
      assert FracValue(f[1..][1..]) == lo as real / 10.0;
      assert FracValue(f[1..]) == (hi as real + lo as real / 10.0) / 10.0;
    }
  }

  /** Digits without a dot read back as their value. */
  lemma ParseUnsignedWhole(w: string)
    requires w != [] && AllDigits(w)
    ensures ParseUnsigned(w) == Some(DigitsValue(w) as real)
  {
    assert forall i :: 0 <= i < |w| ==> w[i] != '.';
    assert DotIndex(w) == |w|;
    assert w[..|w|] == w;
  }

  /** Digits, a dot and digits read back as whole part plus scaled fraction. */
  lemma ParseUnsignedDotted(w: string, f: string)
    requires w != [] && AllDigits(w)
    requires |f| > 1 && f[0] == '.' && AllDigits(f[1..])
    ensures ParseUnsigned(w + f) == Some(DigitsValue(w) as real + FracValue(f[1..]))
  {
    var s := w + f;
    assert forall i :: 0 <= i < |w| ==> s[i] == w[i] && s[i] != '.';
    assert s[|w|] == '.';
    assert DotIndex(s) == |w|;
    assert s[..|w|] == w;
    assert s[|w| + 1..] == f[1..];
  }

  lemma SplitHundredths(m: nat)
    ensures (m / 100) as real + (m % 100) as real / 100.0 == m as real / 100.0
  {
    var q, r := m / 100, m % 100;
    assert m == 100 * q + r;
    assert m as real == 100.0 * q as real + r as real;
  }

  lemma ParseUnsignedText(m: nat)
    ensures ParseUnsigned(Unsigned(m)) == Some(m as real / 100.0)
  {
    var w := NatText(m / 100);
    NatTextValue(m / 100);
    SplitHundredths(m);
    if m % 100 == 0 {
      assert w + Fraction(m % 100) == w;
      ParseUnsignedWhole(w);
    } else {
      FractionValue(m % 100);
      ParseUnsignedDotted(w, Fraction(m % 100));
    }
  }

  lemma ParseNegative(u: string, x: real)
    requires ParseUnsigned(u) == Some(x)
    ensures Parse("-" + u) == Some(-x)
  {
    assert ("-" + u)[1..] == u;
  }

  lemma ParseNonNegative(u: string)
    requires u != [] && IsDigit(u[0])
    ensures Parse(u) == ParseUnsigned(u)
  {
  }

  /** Text and Parse are inverse: the text denotes exactly h hundredths. */
  lemma ParseText(h: int)
    ensures Parse(Text(h)) == Some(h as real / 100.0)
  {
    if h < 0 {
      assert Text(h) == "-" + Unsigned(-h);
      ParseUnsignedText(-h);
      ParseNegative(Unsigned(-h), (-h) as real / 100.0);
    } else {
      ParseUnsignedText(h);
      ParseNonNegative(Unsigned(h));
    }
  }
}
