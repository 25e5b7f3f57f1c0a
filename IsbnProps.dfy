/** Properties of the ISBN validators: what the unit patterns accept,
    stated over characters, and the quirks of the separator class. */
module IsbnProps {
  import opened CharClasses
  import opened Validators

  /** The number of decimal digits in `s`. */
  function DigitCount(s: string): (n: nat)
    ensures n <= |s|
  {
    if s == [] then 0 else (if IsDigit(s[0]) then 1 else 0) + DigitCount(s[1..])
  }

  predicate IsDigitOrSeparator(c: char) { IsDigit(c) || IsIsbnSeparator(c) }

  /** Digits and separators only, starting with a digit, and every
      separator right after a digit: no two separators in a row. A
      separator may end the string. */
  predicate IsbnShape(s: string)
  {
    && All(s, IsDigitOrSeparator)
    && (s != [] ==> IsDigit(s[0]))
    && forall i | 1 <= i < |s| :: IsIsbnSeparator(s[i]) ==> IsDigit(s[i - 1])
  }

  lemma {:induction false} ShapeOfTail(s: string, k: nat)
    requires IsbnShape(s) && 1 <= k <= |s|
    requires k < |s| ==> IsDigit(s[k])
    ensures IsbnShape(s[k..])
  {
    var r := s[k..];
    assert forall i | 0 <= i < |r| :: r[i] == s[k + i];
  }

  lemma {:induction false} ShapeOfCons(s: string, k: nat)
    requires 1 <= k <= 2 && k <= |s| && IsDigit(s[0]) && IsbnShape(s[k..])
    requires k == 2 ==> IsIsbnSeparator(s[1])
    ensures IsbnShape(s)
  {
    var r := s[k..];
    assert forall i | 0 <= i < |r| :: r[i] == s[k + i];
  }

  lemma {:induction false} DigitCountTail(s: string, k: nat)
    requires 1 <= k <= 2 && k <= |s| && IsDigit(s[0])
    requires k == 2 ==> IsIsbnSeparator(s[1])
    ensures DigitCount(s) == 1 + DigitCount(s[k..])
  {
    if k == 2 {
      assert s[1..][1..] == s[2..];
    }
  }

  /** `n` units are exactly a string of the ISBN shape holding `n` digits. */
  lemma {:induction false} UnitsCharacterization(s: string, n: nat)
    ensures IsbnUnits(s, n) <==> IsbnShape(s) && DigitCount(s) == n
    decreases n
  {
    if n == 0 {
      if IsbnShape(s) && s != [] {
        assert DigitCount(s) >= 1;
      }
    } else if s == [] {
    } else if IsDigit(s[0]) && |s| >= 2 && IsIsbnSeparator(s[1]) {
      UnitsCharacterization(s[2..], n - 1);
      UnitsCharacterization(s[1..], n - 1);
      DigitCountTail(s, 2);
      DigitCountTail(s, 1);
      if IsbnShape(s) {
        assert |s| > 2 ==> IsDigit(s[2]);
        ShapeOfTail(s, 2);
      }
      if IsbnUnits(s[2..], n - 1) {
        ShapeOfCons(s, 2);
      }
      // s[1..] starts with a separator, so it has no shape
      assert s[1..][0] == s[1];
    } else if IsDigit(s[0]) {
      UnitsCharacterization(s[1..], n - 1);
      DigitCountTail(s, 1);
      if IsbnShape(s) {
        ShapeOfTail(s, 1);
      }
      if IsbnUnits(s[1..], n - 1) {
        ShapeOfCons(s, 1);
      }
    }
  }

  /** An ISBN-13 is thirteen digits, with a single space, '|' or '-' after
      any of them; nothing checks the check digit. */
  lemma Isbn13Characterization(s: string)
    ensures IsIsbn13(s) <==> IsbnShape(s) && DigitCount(s) == 13
  {
    UnitsCharacterization(s, 13);
  }

  /** An ISBN-10 is nine digits with optional single separators, then a
      last digit or 'X'. */
  lemma Isbn10Characterization(s: string)
    ensures IsIsbn10(s) <==>
      && |s| >= 1 && (IsDigit(s[|s| - 1]) || s[|s| - 1] == 'X')
      && IsbnShape(s[..|s| - 1]) && DigitCount(s[..|s| - 1]) == 9
  {
    if |s| >= 1 {
      UnitsCharacterization(s[..|s| - 1], 9);
    }
  }

  /** `isISBN` accepts what either form accepts. */
  lemma IsbnEitherForm(s: string)
    ensures IsISBN(s) <==> IsIsbn10(s) || IsIsbn13(s)
    ensures IsIsbn10(s) ==> 10 <= |s| <= 19
    ensures IsIsbn13(s) ==> 13 <= |s| <= 26
  {
    Isbn10Characterization(s);
    Isbn13Characterization(s);
    if IsIsbn10(s) { UnitsLength(s[..|s| - 1], 9); }
    if IsIsbn13(s) { UnitsLength(s, 13); }
  }

  /** `n` units take between `n` and `2n` characters. */
  lemma {:induction false} UnitsLength(s: string, n: nat)
    requires IsbnUnits(s, n)
    ensures n <= |s| <= 2 * n
    decreases n
  {
    if n > 0 {
      if IsbnUnits(s[1..], n - 1) {
        UnitsLength(s[1..], n - 1);
      } else {
        UnitsLength(s[2..], n - 1);
      }
    }
  }

  /** A run of digits is that many units. */
  lemma {:induction false} UnitsOfDigits(s: string)
    requires All(s, IsDigit)
    ensures IsbnUnits(s, |s|)
    decreases |s|
  {
    if s != [] {
      UnitsOfDigits(s[1..]);
    }
  }

  /** A group of digits followed by one separator is as many units as it
      has digits. */
  lemma {:induction false} UnitsOfGroup(g: string, sep: char)
    requires |g| >= 1 && All(g, IsDigit) && IsIsbnSeparator(sep)
    ensures IsbnUnits(g + [sep], |g|)
    decreases |g|
  {
    var s := g + [sep];
    assert s[0] == g[0];
    if |g| == 1 {
      assert s[1] == sep && s[2..] == [];
    } else {
      UnitsOfGroup(g[1..], sep);
      assert s[1..] == g[1..] + [sep];
    }
  }

  lemma ConcatTail(a: string, b: string, k: nat)
    requires k <= |a|
    ensures (a + b)[k..] == a[k..] + b
  {
  }

  /** Units concatenate. */
  lemma {:induction false} UnitsConcat(a: string, b: string, m: nat, n: nat)
    requires IsbnUnits(a, m) && IsbnUnits(b, n)
    ensures IsbnUnits(a + b, m + n)
    decreases m
  {
    if m == 0 {
      assert a + b == b;
    } else {
      assert (a + b)[0] == a[0];
      if IsbnUnits(a[1..], m - 1) {
        UnitsConcat(a[1..], b, m - 1, n);
        ConcatTail(a, b, 1);
      } else {
        UnitsConcat(a[2..], b, m - 1, n);
        assert (a + b)[1] == a[1];
        ConcatTail(a, b, 2);
      }
    }
  }

  lemma {:induction false} DigitCountOfDigits(s: string)
    requires All(s, IsDigit)
    ensures DigitCount(s) == |s|
  {
    if s != [] {
      DigitCountOfDigits(s[1..]);
    }
  }

  /** A string whose digit count is not `n` is not `n` units. */
  lemma TooFewDigits(s: string, n: nat)
    requires DigitCount(s) != n
    ensures !IsbnUnits(s, n)
  {
    UnitsCharacterization(s, n);
  }

  /** Two separators in a row are never units. */
  lemma DoubleSeparator(s: string, n: nat, i: nat)
    requires 1 <= i < |s| && IsIsbnSeparator(s[i - 1]) && IsIsbnSeparator(s[i])
    ensures !IsbnUnits(s, n)
  {
    UnitsCharacterization(s, n);
  }

  /** A leading separator is never units. */
  lemma LeadingSeparator(s: string, n: nat)
    requires |s| >= 1 && IsIsbnSeparator(s[0])
    ensures !IsbnUnits(s, n)
  {
    if n > 0 { assert !IsDigit(s[0]); }
  }

  /** The number of characters in all groups together. */
  function Total(gs: seq<string>): nat
    decreases |gs|
  {
    if gs == [] then 0 else |gs[0]| + Total(gs[1..])
  }

  predicate DigitGroups(gs: seq<string>)
  {
    forall i | 0 <= i < |gs| :: |gs[i]| >= 1 && All(gs[i], IsDigit)
  }

  /** Digit groups, each closed by one separator, are as many units as
      they have digits. */
  lemma {:induction false} UnitsOfTerminated(gs: seq<string>, sep: char)
    requires DigitGroups(gs) && IsIsbnSeparator(sep)
    ensures IsbnUnits(Terminated(gs, sep), Total(gs))
    decreases |gs|
  {
    if gs != [] {
      assert DigitGroups(gs[1..]) by {
        assert forall i | 0 <= i < |gs| - 1 :: gs[1..][i] == gs[i + 1];
      }
      UnitsOfTerminated(gs[1..], sep);
      UnitsOfGroup(gs[0], sep);
      UnitsConcat(gs[0] + [sep], Terminated(gs[1..], sep), |gs[0]|, Total(gs[1..]));
    }
  }

  /** Nine digits, grouped and separated by single separators, then a
      last digit or 'X' make an ISBN-10. */
  lemma Isbn10OfGroups(gs: seq<string>, sep: char, last: char)
    requires DigitGroups(gs) && IsIsbnSeparator(sep) && Total(gs) == 9
    requires IsDigit(last) || last == 'X'
    ensures IsIsbn10(Terminated(gs, sep) + [last])
  {
    UnitsOfTerminated(gs, sep);
    var s := Terminated(gs, sep) + [last];
    assert s[..|s| - 1] == Terminated(gs, sep);
  }

  /** Digit groups closed by separators, then a run of digits, with
      thirteen digits in all, make an ISBN-13. */
  lemma Isbn13OfGroups(gs: seq<string>, sep: char, tail: string)
    requires DigitGroups(gs) && IsIsbnSeparator(sep)
    requires All(tail, IsDigit) && Total(gs) + |tail| == 13
    ensures IsIsbn13(Terminated(gs, sep) + tail)
  {
    UnitsOfTerminated(gs, sep);
    UnitsOfDigits(tail);
    UnitsConcat(Terminated(gs, sep), tail, Total(gs), |tail|);
  }

  /** A string of digits alone is an ISBN exactly when it has 10 or 13 of
      them. */
  lemma DigitsIsbn(s: string)
    requires All(s, IsDigit)
    ensures IsISBN(s) <==> |s| == 10 || |s| == 13
  {
    DigitCountOfDigits(s);
    Isbn13Characterization(s);
    if |s| >= 1 {
      assert All(s[..|s| - 1], IsDigit);
      DigitCountOfDigits(s[..|s| - 1]);
      Isbn10Characterization(s);
      if |s| == 10 {
        UnitsOfDigits(s[..9]);
      }
    }
    if |s| == 13 {
      UnitsOfDigits(s);
    }
  }

  /** Two separators in a row, anywhere but at the very end, rule out both
      forms. */
  lemma NotIsbnWithDoubleSeparator(s: string, i: nat)
    requires 1 <= i < |s| && IsIsbnSeparator(s[i - 1]) && IsIsbnSeparator(s[i])
    ensures !IsISBN(s)
  {
    if i < |s| - 1 {
      var t := s[..|s| - 1];
      assert t[i - 1] == s[i - 1] && t[i] == s[i];
      DoubleSeparator(t, 9, i);
    } else {
      assert !IsDigit(s[|s| - 1]) && s[|s| - 1] != 'X';
    }
    DoubleSeparator(s, 13, i);
  }

  /** A separator at the start rules out both forms. */
  lemma NotIsbnWithLeadingSeparator(s: string)
    requires |s| >= 1 && IsIsbnSeparator(s[0])
    ensures !IsISBN(s)
  {
    if |s| >= 2 {
      assert s[..|s| - 1][0] == s[0];
      LeadingSeparator(s[..|s| - 1], 9);
    } else {
      assert !IsDigit(s[0]) && s[0] != 'X';
    }
    LeadingSeparator(s, 13);
  }

  /** Nine digits and a last digit or 'X' make an ISBN-10. */
  lemma Isbn10OfDigits(d: string, last: char)
    requires |d| == 9 && All(d, IsDigit) && (IsDigit(last) || last == 'X')
    ensures IsIsbn10(d + [last])
  {
    UnitsOfDigits(d);
    assert (d + [last])[..9] == d;
  }

  lemma Isbn10Example()
    ensures IsIsbn10("0306406152")
  {
    assert "0306406152" == "030640615" + ['2'];
    Isbn10OfDigits("030640615", '2');
  }

  lemma Isbn13Example()
    ensures IsIsbn13("9780306406157")
  {
    Isbn13OfDigits("9780306406157");
  }

  lemma Isbn13OfDigits(d: string)
    requires |d| == 13 && All(d, IsDigit)
    ensures IsIsbn13(d)
  {
    UnitsOfDigits(d);
  }

  /** The check character of an ISBN-10 may be 'X'. */
  lemma IsbnCheckX()
    ensures IsIsbn10("030640615X")
  {
    assert "030640615X" == "030640615" + ['X'];
    Isbn10OfDigits("030640615", 'X');
  }

  /** Hyphens between the groups are accepted. */
  lemma IsbnWithHyphens()
    ensures IsIsbn10("0-306-40615-2")
  {
    var gs := ["0", "306", "40615"];
    assert Terminated(gs, '-') + ['2'] == "0-306-40615-2";
    Isbn10OfGroups(gs, '-', '2');
  }

  /** Spaces between the groups are accepted. */
  lemma IsbnWithSpaces()
    ensures IsIsbn13("978 0 306 40615 7")
  {
    var gs := ["978", "0", "306", "40615"];
    assert Terminated(gs, ' ') + "7" == "978 0 306 40615 7";
    Isbn13OfGroups(gs, ' ', "7");
  }

  /** The separator class also admits '|'. */
  lemma IsbnWithBars()
    ensures IsIsbn10("0|306|40615|2")
  {
    var gs := ["0", "306", "40615"];
    assert Terminated(gs, '|') + ['2'] == "0|306|40615|2";
    Isbn10OfGroups(gs, '|', '2');
  }

  /** A separator may end an ISBN-13. */
  lemma IsbnTrailingSeparator()
    ensures IsIsbn13("9780306406157-")
  {
    var gs := ["9780306406157"];
    assert Terminated(gs, '-') + "" == "9780306406157-";
    Isbn13OfGroups(gs, '-', "");
  }

  lemma IsbnRejectsDoubleSeparator()
    ensures !IsISBN("0--306406152")
  {
    NotIsbnWithDoubleSeparator("0--306406152", 2);
  }

  lemma IsbnRejectsLeadingSeparator()
    ensures !IsISBN("-0306406152")
  {
    NotIsbnWithLeadingSeparator("-0306406152");
  }

  lemma IsbnRejectsTwelveDigits()
    ensures !IsISBN("978030640615")
  {
    DigitsNotIsbn("978030640615");
  }

  lemma DigitsNotIsbn(s: string)
    requires All(s, IsDigit) && |s| != 10 && |s| != 13
    ensures !IsISBN(s)
  {
    DigitsIsbn(s);
  }
}
