/** Properties of the validators for ways to reach someone: email
    addresses, URLs and phone numbers. */
module ContactProps {
  import opened CharClasses
  import opened Decimal
  import opened Validators

  // ---------------------------------------------------------------- Email

  /** Some '.' of `d` has at least one character on each side. */
  predicate HasInnerDot(d: string)
  {
    exists j | 0 < j < |d| - 1 :: d[j] == '.'
  }

  /** An email part is a non-empty run without white space and without '@'. */
  lemma {:induction false} EmailPartIff(x: string)
    ensures EmailPart(x) <==> |x| > 0 && All(x, IsNonSpace) && Count(x, '@') == 0
  {
    CountZero(x, '@');
  }

  /** The right-hand side of the email characterization. */
  predicate EmailShape(s: string)
  {
    && Count(s, '@') == 1 && All(s, IsNonSpace)
    && exists i | 0 < i < |s| :: s[i] == '@' && HasInnerDot(s[i + 1..])
  }

  /** How `s` falls apart around the '@' at `i` and the '.' at `i + 1 + j`. */
  lemma {:induction false} EmailSplit(s: string, i: nat, j: nat)
    requires i < |s| && j < |s| - i - 1
    ensures s == s[..i] + [s[i]] + (s[i + 1..][..j] + [s[i + 1 + j]] + s[i + 1..][j + 1..])
    ensures Count(s, '@') == Count(s[..i], '@') + Count([s[i]], '@') + Count(s[i + 1..], '@')
    ensures All(s, IsNonSpace) <==> All(s[..i], IsNonSpace) && IsNonSpace(s[i]) && All(s[i + 1..], IsNonSpace)
    ensures var d := s[i + 1..];
      && Count(d, '@') == Count(d[..j], '@') + Count([d[j]], '@') + Count(d[j + 1..], '@')
      && (All(d, IsNonSpace) <==> All(d[..j], IsNonSpace) && IsNonSpace(d[j]) && All(d[j + 1..], IsNonSpace))
  {
    var d := s[i + 1..];
    assert s == s[..i] + [s[i]] + d;
    assert d == d[..j] + [d[j]] + d[j + 1..];
    CountConcat(s[..i] + [s[i]], d, '@');
    CountConcat(s[..i], [s[i]], '@');
    CountConcat(d[..j] + [d[j]], d[j + 1..], '@');
    CountConcat(d[..j], [d[j]], '@');
    AllConcat(s[..i] + [s[i]], d, IsNonSpace);
    AllConcat(s[..i], [s[i]], IsNonSpace);
    AllConcat(d[..j] + [d[j]], d[j + 1..], IsNonSpace);
    AllConcat(d[..j], [d[j]], IsNonSpace);
  }

  /** The characters around an '@' at `i` and a '.' at `i + 1 + j` that
      the pattern accepts: one '@' in all and no white space. */
  lemma {:induction false} EmailPiecesCount(s: string, i: nat, j: nat)
    requires i < |s| && j < |s| - i - 1
    requires s[i] == '@' && EmailPart(s[..i])
    requires var d := s[i + 1..]; d[j] == '.' && EmailPart(d[..j]) && EmailPart(d[j + 1..])
    ensures Count(s, '@') == 1
  {
    var d := s[i + 1..];
    EmailPartIff(s[..i]);
    EmailPartIff(d[..j]);
    EmailPartIff(d[j + 1..]);
    CountAt(d, j, '@');
    CountAt(s, i, '@');
  }

  lemma {:induction false} EmailPiecesNonSpace(s: string, i: nat, j: nat)
    requires i < |s| && j < |s| - i - 1
    requires s[i] == '@' && EmailPart(s[..i])
    requires var d := s[i + 1..]; d[j] == '.' && EmailPart(d[..j]) && EmailPart(d[j + 1..])
    ensures All(s, IsNonSpace)
  {
    var d := s[i + 1..];
    EmailPartIff(s[..i]);
    EmailPartIff(d[..j]);
    EmailPartIff(d[j + 1..]);
    AllAround(d, j, IsNonSpace);
    AllAround(s, i, IsNonSpace);
  }

  lemma {:induction false} EmailAccepted(s: string)
    requires IsEmail(s)
    ensures EmailShape(s)
  {
    var i :| 0 <= i < |s| && s[i] == '@' && EmailPart(s[..i]) && EmailDomain(s[i + 1..]);
    var d := s[i + 1..];
    var j :| 0 <= j < |d| && d[j] == '.' && EmailPart(d[..j]) && EmailPart(d[j + 1..]);
    EmailPiecesCount(s, i, j);
    EmailPiecesNonSpace(s, i, j);
    assert HasInnerDot(d) by { assert 0 < j < |d| - 1; }
  }

  lemma {:induction false} EmailShapeAccepted(s: string)
    requires EmailShape(s)
    ensures IsEmail(s)
  {
    var i :| 0 < i < |s| && s[i] == '@' && HasInnerDot(s[i + 1..]);
    var d := s[i + 1..];
    var j :| 0 < j < |d| - 1 && d[j] == '.';
    EmailSplit(s, i, j);
    EmailPartIff(s[..i]);
    EmailPartIff(d[..j]);
    EmailPartIff(d[j + 1..]);
    assert EmailDomain(d);
  }

  /** An email address holds exactly one '@' and no white space, has at
      least one character before the '@', and the part after it holds a
      '.' with at least one character on each side. */
  lemma EmailCharacterization(s: string)
    ensures IsEmail(s) <==> EmailShape(s)
  {
    if IsEmail(s) { EmailAccepted(s); }
    if EmailShape(s) { EmailShapeAccepted(s); }
  }

  /** White space anywhere, the last index included, rules an address out. */
  lemma EmailRejectsSpace(s: string, k: nat)
    requires k < |s|
    ensures IsSpace(s[k]) ==> !IsEmail(s)
  {
    EmailCharacterization(s);
  }

  /** Two '@' at different places, or any white space, rule an address out. */
  lemma EmailRejects(s: string, k: nat, m: nat)
    requires k < m < |s|
    ensures s[k] == '@' && s[m] == '@' ==> !IsEmail(s)
    ensures IsSpace(s[k]) ==> !IsEmail(s)
  {
    EmailRejectsSpace(s, k);
    EmailCharacterization(s);
    if s[k] == '@' && s[m] == '@' {
      assert s == s[..m] + [s[m]] + s[m + 1..];
      assert s[..m] == s[..k] + [s[k]] + s[k + 1..m];
      CountConcat(s[..m] + [s[m]], s[m + 1..], '@');
      CountConcat(s[..m], [s[m]], '@');
      CountConcat(s[..k] + [s[k]], s[k + 1..m], '@');
      CountConcat(s[..k], [s[k]], '@');
    }
  }

  /** An address needs exactly one '@'. */
  lemma EmailNeedsOneAt(s: string)
    requires Count(s, '@') != 1
    ensures !IsEmail(s)
  {
    EmailCharacterization(s);
  }

  lemma EmailExamples()
    ensures IsEmail("user@example.com")
  {
    var a := "user@example.com";
    assert a[4] == '@' && a[4 + 1..][7] == '.';
    assert EmailPart(a[..4]);
    assert EmailPart(a[4 + 1..][..7]) && EmailPart(a[4 + 1..][7 + 1..]);
  }

  /** An address needs an '@'. */
  lemma EmailNeedsAt(s: string)
    requires forall i | 0 <= i < |s| :: s[i] != '@'
    ensures !IsEmail(s)
  {
  }

  lemma EmailWithoutAt()
    ensures !IsEmail("example.com")
  {
    var s := "example.com";
    assert forall i | 0 <= i < |s| :: s[i] in "examplco.";
    EmailNeedsAt(s);
  }

  lemma EmailWithTwoAts()
    ensures !IsEmail("user@@example.com")
  {
    EmailNeedsOneAt("user@@example.com");
  }

  lemma EmailWithSpace()
    ensures !IsEmail("us er@example.com")
  {
    var s := "us er@example.com";
    assert s[2] == ' ';
    EmailRejects(s, 2, 3);
  }

  // ------------------------------------------------------------------ URL

  /** No string starts with both "http://" and "https://". */
  lemma SchemesExclusive(s: string)
    ensures !(StartsWith(s, "http://") && StartsWith(s, "https://"))
  {
    if StartsWith(s, "https://") {
      assert s[4] == s[..8][4] == 's';
      assert s[..7][4] == 's';
    }
  }

  /** The length of the scheme and "://" an accepted URL starts with. */
  function SchemeLength(s: string): nat
  {
    if StartsWith(s, "https://") then 8 else 7
  }

  /** An accepted URL starts with "http://" or "https://" followed by at
      least two characters; a white-space character can stand only as the
      second of them, and then it is not a line terminator. */
  lemma UrlWhiteSpace(s: string)
    requires IsURL(s)
    ensures StartsWith(s, "http://") || StartsWith(s, "https://")
    ensures |s| >= SchemeLength(s) + 2
    ensures forall i | 0 <= i < |s| && i != SchemeLength(s) + 1 :: !IsSpace(s[i])
    ensures !IsLineTerminator(s[SchemeLength(s) + 1])
  {
    var p := SchemeLength(s);
    SchemesExclusive(s);
    var r := s[p..];
    assert UrlRest(r);
    AllSlice(r, 2, |r|, IsNonSpace);
    forall i | 0 <= i < |s| && i != p + 1 ensures !IsSpace(s[i]) {
      if i < p {
        assert s[i] == s[..p][i];
      } else {
        assert s[i] == r[i - p];
      }
    }
    assert s[p + 1] == r[1];
  }

  /** Appending non-space characters to a URL keeps it a URL. */
  lemma UrlExtension(s: string, t: string)
    requires IsURL(s) && All(t, IsNonSpace)
    ensures IsURL(s + t)
  {
    var p := SchemeLength(s);
    SchemesExclusive(s);
    assert (s + t)[..p] == s[..p];
    assert (s + t)[p..] == s[p..] + t;
    assert (s[p..] + t)[2..] == s[p..][2..] + t;
    AllConcat(s[p..][2..], t, IsNonSpace);
  }

  lemma UrlExamples()
    ensures IsURL("https://a.io/x?q")
  {
    var s := "https://a.io/x?q";
    AllSlice(s[8..], 2, |s| - 8, IsNonSpace);
  }

  lemma UrlSpaceSecond()
    ensures IsURL("http://a b")
  {
  }

  lemma UrlTooShort()
    ensures !IsURL("http://a")
  {
  }

  lemma UrlOtherScheme()
    ensures !IsURL("ftp://example.com")
  {
    var s := "ftp://example.com";
    assert s[..7][0] == 'f';
  }

  lemma UrlSlashAfterScheme()
    ensures !IsURL("http:///example")
  {
    var s := "http:///example";
    assert s[7] == '/' && s[4] == ':';
    assert s[..8][4] == ':';
  }

  lemma UrlInnerSpace()
    ensures !IsURL("http://ex ample.com")
  {
    var s := "http://ex ample.com";
    assert s[9] == ' ';
    SchemesExclusive(s);
    AllSlice(s[7..], 2, |s| - 7, IsNonSpace);
    assert s[7..][2] == s[9];
  }

  // --------------------------------------------------------- Phone number

  /** The digits of an accepted phone number are the numeral of a number
      from 10 to 10^15 - 1. */
  lemma {:induction false} PhoneDigitsNumeral(t: string)
    requires PhoneDigits(t)
    ensures All(t, IsDigit) && 10 <= Value(t) < Pow10(15) && Numeral(Value(t)) == t
  {
    assert All(t, IsDigit) by {
      forall i | 0 <= i < |t| ensures IsDigit(t[i]) { if i > 0 { assert t[i] == t[1..][i - 1]; } }
    }
    NumeralOfValue(t);
    LeadingDigitBound(t);
    Pow10Monotone(1, |t| - 1);
    Pow10Monotone(|t|, 15);
  }

  /** The numeral of a number from 10 to 10^15 - 1 is accepted as the
      digits of a phone number. */
  lemma {:induction false} NumeralPhoneDigits(n: nat)
    requires 10 <= n < Pow10(15)
    ensures PhoneDigits(Numeral(n))
  {
    var t := Numeral(n);
    NumeralLength(n);
    var w := |t|;
    if w == 1 { assert false; }
    if w > 15 { Pow10Monotone(15, w - 1); assert false; }
    PhoneDigitsOfRun(t);
  }

  lemma PhoneDigitsOfRun(t: string)
    requires 2 <= |t| <= 15 && All(t, IsDigit) && t[0] != '0'
    ensures PhoneDigits(t)
  {
    AllSlice(t, 1, |t|, IsDigit);
    assert IsDigit(t[0]);
  }

  /** Every accepted phone number is the numeral of a number from 10 to
      10^15 - 1, with or without a '+' in front. */
  lemma PhoneNumberFormats(s: string)
    requires IsPhoneNumber(s)
    ensures exists n: nat | 10 <= n < Pow10(15) :: s == Numeral(n) || s == "+" + Numeral(n)
  {
    if PhoneDigits(s) {
      PhoneDigitsNumeral(s);
      assert s == Numeral(Value(s));
    } else {
      var t := s[1..];
      PhoneDigitsNumeral(t);
      assert s == "+" + t;
      assert s == "+" + Numeral(Value(t));
    }
  }

  /** The numeral of every number from 10 to 10^15 - 1 is a phone number,
      with or without a '+' in front. */
  lemma NumeralPhoneNumber(n: nat)
    requires 10 <= n < Pow10(15)
    ensures IsPhoneNumber(Numeral(n)) && IsPhoneNumber("+" + Numeral(n))
  {
    NumeralPhoneDigits(n);
    assert ("+" + Numeral(n))[1..] == Numeral(n);
  }

  /** A phone number is an optional '+' followed by the decimal numeral of
      a number from 10 to 10^15 - 1: two to fifteen digits, no leading zero. */
  lemma PhoneNumberCharacterization(s: string)
    ensures IsPhoneNumber(s) <==>
      exists n: nat | 10 <= n < Pow10(15) :: s == Numeral(n) || s == "+" + Numeral(n)
  {
    if IsPhoneNumber(s) {
      PhoneNumberFormats(s);
    }
    forall n: nat | 10 <= n < Pow10(15)
      ensures IsPhoneNumber(Numeral(n)) && IsPhoneNumber("+" + Numeral(n))
    {
      NumeralPhoneNumber(n);
    }
  }

  lemma PhoneExamples()
    ensures IsPhoneNumber("+14155552671") && IsPhoneNumber("12")
    ensures !IsPhoneNumber("+0123456789") && !IsPhoneNumber("1") && !IsPhoneNumber("1234567890123456")
  {
  }
}
