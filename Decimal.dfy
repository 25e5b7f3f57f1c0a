/** Decimal numerals: the value of a digit string, the zero-padded and the
    canonical numeral of a number, and the exact value of the digits after
    a decimal point. The validators only read numerals; these functions
    are the inverses the properties about them are stated with. */
module Decimal {
  import opened CharClasses

  function Pow10(n: nat): (p: nat)
    ensures p >= 1
  {
    if n == 0 then 1 else 10 * Pow10(n - 1)
  }

  lemma {:induction false} Pow10Monotone(m: nat, n: nat)
    requires m <= n
    ensures Pow10(m) <= Pow10(n)
  {
    if m < n { Pow10Monotone(m, n - 1); }
  }

  function DigitValue(c: char): (d: nat)
    requires IsDigit(c)
    ensures d < 10
  {
    c as int - '0' as int
  }

  function DigitChar(d: nat): (c: char)
    requires d < 10
    ensures IsDigit(c) && DigitValue(c) == d
  {
    ('0' as int + d) as char
  }

  /** The number a string of decimal digits denotes, most significant first. */
  function Value(s: string): (n: nat)
    requires All(s, IsDigit)
    ensures n < Pow10(|s|)
  {
    if s == [] then 0 else Value(s[..|s| - 1]) * 10 + DigitValue(s[|s| - 1])
  }

  /** The `w`-digit numeral of `n`, padded with leading zeros. */
  function Digits(n: nat, w: nat): (s: string)
    requires n < Pow10(w)
    ensures |s| == w && All(s, IsDigit) && Value(s) == n
  {
    if w == 0 then ""
    else
      var p := Digits(n / 10, w - 1);
      var s := p + [DigitChar(n % 10)];
      assert s[..|s| - 1] == p;
      s
  }

  /** A digit is the digit of its own value. */
  lemma DigitCharOfValue(c: char)
    requires IsDigit(c)
    ensures DigitChar(DigitValue(c)) == c
  {
    var e := DigitChar(DigitValue(c));
    assert e as int == c as int;
  }

  /** Dividing by ten takes off the last digit. */
  lemma DivMod10(v: nat, d: nat)
    requires d < 10
    ensures (v * 10 + d) / 10 == v && (v * 10 + d) % 10 == d
  {
  }

  lemma LastSplit<T>(s: seq<T>)
    requires |s| >= 1
    ensures s == s[..|s| - 1] + [s[|s| - 1]]
  {
  }

  /** The last digit and the rest of a digit string, as `Value` splits it. */
  lemma SplitLast(s: string)
    requires |s| >= 1 && All(s, IsDigit)
    ensures All(s[..|s| - 1], IsDigit)
    ensures Value(s) / 10 == Value(s[..|s| - 1])
    ensures Value(s) % 10 == DigitValue(s[|s| - 1])
    ensures DigitChar(DigitValue(s[|s| - 1])) == s[|s| - 1]
    ensures s == s[..|s| - 1] + [s[|s| - 1]]
  {
    LastSplit(s);
    DigitCharOfValue(s[|s| - 1]);
    ValueOfLast(s);
    DivMod10(Value(s[..|s| - 1]), DigitValue(s[|s| - 1]));
  }

  /** `Value` reads the last digit as the units. */
  lemma ValueOfLast(s: string)
    requires |s| >= 1 && All(s, IsDigit)
    ensures All(s[..|s| - 1], IsDigit)
    ensures Value(s) == Value(s[..|s| - 1]) * 10 + DigitValue(s[|s| - 1])
  {
  }

  /** Reading a digit string and writing it back at the same width gives
      the string back. */
  lemma {:induction false} DigitsOfValue(s: string)
    requires All(s, IsDigit)
    ensures Digits(Value(s), |s|) == s
  {
    if s != [] {
      var p := s[..|s| - 1];
      SplitLast(s);
      DigitsOfValue(p);
    }
  }

  /** A numeral without a leading zero has at least the value of its
      leading digit's place. */
  lemma {:induction false} LeadingDigitBound(s: string)
    requires |s| >= 1 && All(s, IsDigit) && s[0] != '0'
    ensures Value(s) >= Pow10(|s| - 1)
  {
    if |s| > 1 {
      LeadingDigitBound(s[..|s| - 1]);
    }
  }

  /** The decimal numeral of `n`, without leading zeros: "0" for zero. */
  function Numeral(n: nat): (s: string)
    ensures |s| >= 1 && All(s, IsDigit) && Value(s) == n
    ensures |s| > 1 ==> s[0] != '0'
  {
    if n < 10 then [DigitChar(n)]
    else
      var p := Numeral(n / 10);
      var s := p + [DigitChar(n % 10)];
      assert s[..|s| - 1] == p;
      s
  }

  /** Every digit string without a superfluous leading zero is the
      canonical numeral of its value. */
  lemma {:induction false} NumeralOfValue(s: string)
    requires |s| >= 1 && All(s, IsDigit) && (|s| == 1 || s[0] != '0')
    ensures Numeral(Value(s)) == s
  {
    if |s| > 1 {
      var p := s[..|s| - 1];
      SplitLast(s);
      assert p[0] == s[0];
      LeadingDigitBound(p);
      NumeralOfValue(p);
    }
  }

  /** The canonical numeral of `n` has exactly `w` digits when `n` lies
      between 10^(w-1) and 10^w (below 10 for a single digit). */
  lemma NumeralLength(n: nat)
    ensures var w := |Numeral(n)|; n < Pow10(w) && (w > 1 ==> Pow10(w - 1) <= n)
  {
    var s := Numeral(n);
    if |s| > 1 { LeadingDigitBound(s); }
  }

  predicate IsZeroDigit(c: char) { c == '0' }

  /** The exact value of the digits after a decimal point, the first digit
      worth a tenth. */
  function FractionValue(s: string): (r: real)
    requires All(s, IsDigit)
    ensures 0.0 <= r < 1.0
    ensures r == 0.0 <==> All(s, IsZeroDigit)
  {
    if s == [] then 0.0
    else
      var r := (DigitValue(s[0]) as real + FractionValue(s[1..])) / 10.0;
      assert All(s, IsZeroDigit) <==> s[0] == '0' && All(s[1..], IsZeroDigit) by {
        assert forall i :: 1 <= i < |s| ==> s[i] == s[1..][i - 1];
      }
      r
  }
}
