/** Properties of the validators for fixed digit layouts: dates, social
    security numbers, postal codes, date-times, currency amounts and card
    numbers. Each fixed layout is the image of a formatter that writes
    numbers as zero-padded digit fields. */
module FormatProps {
  import opened CharClasses
  import opened Decimal
  import opened Options
  import opened Validators

  /** A digit run is the zero-padded numeral of its own value. */
  lemma RunIsDigits(s: string, n: nat)
    requires Run(s, IsDigit, n)
    ensures Value(s) < Pow10(n) && Digits(Value(s), n) == s
  {
    DigitsOfValue(s);
  }

  // ----------------------------------------------------------------- Date

  /** A year, month and day written as "YYYY-MM-DD". */
  function FormatDate(y: nat, m: nat, d: nat): string
    requires y < 10000 && m < 100 && d < 100
  {
    Digits(y, 4) + "-" + Digits(m, 2) + "-" + Digits(d, 2)
  }

  /** The year, month and day fields of a date string. */
  function ParseDate(s: string): (r: (nat, nat, nat))
    requires IsDateString(s)
    ensures r.0 < 10000 && r.1 < 100 && r.2 < 100
  {
    (Value(s[..4]), Value(s[5..7]), Value(s[8..]))
  }

  /** Every formatted date is a date string, and reading it back gives the
      fields it was written from: no calendar check is made, so any month
      and day below 100 will do. */
  lemma {:induction false} FormatDateParses(y: nat, m: nat, d: nat)
    requires y < 10000 && m < 100 && d < 100
    ensures IsDateString(FormatDate(y, m, d))
    ensures ParseDate(FormatDate(y, m, d)) == (y, m, d)
  {
    var s := FormatDate(y, m, d);
    assert s[..4] == Digits(y, 4);
    assert s[5..7] == Digits(m, 2);
    assert s[8..] == Digits(d, 2);
  }

  /** Every date string is the formatting of its own fields. */
  lemma {:induction false} DateStringFormats(s: string)
    requires IsDateString(s)
    ensures var (y, m, d) := ParseDate(s); FormatDate(y, m, d) == s
  {
    RunIsDigits(s[..4], 4);
    RunIsDigits(s[5..7], 2);
    RunIsDigits(s[8..], 2);
    assert s == s[..4] + "-" + s[5..7] + "-" + s[8..];
  }

  lemma DateExamples()
    ensures IsDateString("2023-01-31")
    ensures IsDateString("2023-99-99")
    ensures !IsDateString("2023-1-31") && !IsDateString("2023/01/31")
  {
  }

  // ------------------------------------------------------------------ SSN

  /** Area, group and serial numbers written as "AAA-GG-SSSS". */
  function FormatSSN(area: nat, group: nat, serial: nat): string
    requires area < 1000 && group < 100 && serial < 10000
  {
    Digits(area, 3) + "-" + Digits(group, 2) + "-" + Digits(serial, 4)
  }

  /** The area, group and serial numbers of a social security number. */
  function ParseSSN(s: string): (r: (nat, nat, nat))
    requires IsSSN(s)
    ensures r.0 < 1000 && r.1 < 100 && r.2 < 10000
  {
    (Value(s[..3]), Value(s[4..6]), Value(s[7..]))
  }

  lemma {:induction false} FormatSSNParses(a: nat, g: nat, n: nat)
    requires a < 1000 && g < 100 && n < 10000
    ensures IsSSN(FormatSSN(a, g, n))
    ensures ParseSSN(FormatSSN(a, g, n)) == (a, g, n)
  {
    var s := FormatSSN(a, g, n);
    assert s[..3] == Digits(a, 3);
    assert s[4..6] == Digits(g, 2);
    assert s[7..] == Digits(n, 4);
  }

  lemma {:induction false} SSNFormats(s: string)
    requires IsSSN(s)
    ensures var (a, g, n) := ParseSSN(s); FormatSSN(a, g, n) == s
  {
    RunIsDigits(s[..3], 3);
    RunIsDigits(s[4..6], 2);
    RunIsDigits(s[7..], 4);
    SSNPieces(s);
  }

  /** An eleven-character string is its three fields and two separators. */
  lemma SSNPieces(s: string)
    requires |s| == 11 && s[3] == '-' && s[6] == '-'
    ensures s == s[..3] + "-" + s[4..6] + "-" + s[7..]
  {
  }

  lemma SSNExamples()
    ensures IsSSN("123-45-6789") && !IsSSN("123456789") && !IsSSN("12-345-6789")
  {
  }

  // ---------------------------------------------------------- Postal code

  /** A five-digit ZIP code, with the four-digit extension when there is one. */
  function FormatZip(zip: nat, plus4: Option<nat>): string
    requires zip < 100000
    requires plus4.Some? ==> plus4.value < 10000
  {
    match plus4
    case None => Digits(zip, 5)
    case Some(p) => Digits(zip, 5) + "-" + Digits(p, 4)
  }

  /** Every ZIP code, with or without an extension, is accepted. */
  lemma FormatZipAccepted(zip: nat, plus4: Option<nat>)
    requires zip < 100000
    requires plus4.Some? ==> plus4.value < 10000
    ensures IsPostalCode(FormatZip(zip, plus4))
  {
    if plus4.Some? {
      var s := FormatZip(zip, plus4);
      assert s[..5] == Digits(zip, 5);
      assert s[6..] == Digits(plus4.value, 4);
    }
  }

  /** Every accepted postal code is the formatting of the code it holds. */
  lemma PostalCodeFormats(s: string)
    requires IsPostalCode(s)
    ensures exists z: nat, p: Option<nat> | z < 100000 && (p.Some? ==> p.value < 10000) :: s == FormatZip(z, p)
  {
    if Run(s, IsDigit, 5) {
      RunIsDigits(s, 5);
      assert s == FormatZip(Value(s), None);
    } else {
      RunIsDigits(s[..5], 5);
      RunIsDigits(s[6..], 4);
      assert s == s[..5] + "-" + s[6..];
      assert s == FormatZip(Value(s[..5]), Some(Value(s[6..])));
    }
  }

  lemma PostalCodeCharacterization(s: string)
    ensures IsPostalCode(s) <==>
      exists z: nat, p: Option<nat> | z < 100000 && (p.Some? ==> p.value < 10000) :: s == FormatZip(z, p)
  {
    if IsPostalCode(s) {
      PostalCodeFormats(s);
    }
    forall z: nat, p: Option<nat> | z < 100000 && (p.Some? ==> p.value < 10000)
      ensures IsPostalCode(FormatZip(z, p))
    {
      FormatZipAccepted(z, p);
    }
  }

  lemma PostalCodeExamples()
    ensures IsPostalCode("12345") && IsPostalCode("12345-6789")
    ensures !IsPostalCode("1234") && !IsPostalCode("12345-678") && !IsPostalCode("123456")
  {
  }

  // ------------------------------------------------------------ Date-time

  /** The optional fraction of a second: nothing, or '.' and its digits. */
  function FractionText(f: string): string
  {
    if f == [] then [] else "." + f
  }

  /** A date, 'T', a clock time, an optional fraction of one to three
      digits and a zone make a date-time. */
  lemma {:induction false} DateTimeCompose(date: string, clock: string, f: string, zone: string)
    requires IsDateString(date) && ClockFields(clock) && ZoneFields(zone)
    requires |f| <= 3 && All(f, IsDigit)
    ensures IsDateTime(date + "T" + clock + FractionText(f) + zone)
  {
    var s := date + "T" + clock + FractionText(f) + zone;
    assert s[..10] == date;
    assert s[11..19] == clock;
    var t := s[19..];
    assert t == FractionText(f) + zone;
    if f != [] {
      var k := |f| + 1;
      assert t[1..k] == f;
      assert t[k..] == zone;
      assert t[0] == '.';
    }
  }

  /** Every date-time starts with a date string and has one of the eight
      lengths its optional parts allow. */
  lemma {:induction false} DateTimeShape(s: string)
    requires IsDateTime(s)
    ensures IsDateString(s[..10])
    ensures |s| in {20, 22, 23, 24, 25, 27, 28, 29}
  {
    var t := s[19..];
    if !ZoneFields(t) {
      var k :| 2 <= k <= 4 && k <= |t| && t[0] == '.' && Run(t[1..k], IsDigit, k - 1) && ZoneFields(t[k..]);
      assert |t[k..]| == 1 || |t[k..]| == 6;
    }
  }

  /** The parts a date-time is composed of, as DateTimeCompose takes them. */
  predicate DateTimeParts(date: string, clock: string, f: string, zone: string)
  {
    IsDateString(date) && ClockFields(clock) && ZoneFields(zone) && |f| <= 3 && All(f, IsDigit)
  }

  function DateTimeText(date: string, clock: string, f: string, zone: string): string
  {
    date + "T" + clock + FractionText(f) + zone
  }

  /** Every date-time is the composition of a date, a clock time, a fraction
      of at most three digits and a zone, which the lemma gives back. */
  lemma {:induction false} DateTimeDecompose(s: string) returns (date: string, clock: string, f: string, zone: string)
    requires IsDateTime(s)
    ensures DateTimeParts(date, clock, f, zone)
    ensures s == DateTimeText(date, clock, f, zone)
  {
    date, clock := s[..10], s[11..19];
    var t := s[19..];
    if ZoneFields(t) {
      f, zone := [], t;
    } else {
      var k :| 2 <= k <= 4 && k <= |t| && t[0] == '.' && Run(t[1..k], IsDigit, k - 1) && ZoneFields(t[k..]);
      f, zone := t[1..k], t[k..];
      assert t == "." + f + zone;
    }
    assert s == s[..10] + [s[10]] + s[11..19] + t;
  }

  /** A string is a date-time exactly when it is such a composition. */
  lemma DateTimeCharacterization(s: string)
    ensures IsDateTime(s) <==>
      exists date, clock, f, zone :: DateTimeParts(date, clock, f, zone) && s == DateTimeText(date, clock, f, zone)
  {
    if IsDateTime(s) {
      var date, clock, f, zone := DateTimeDecompose(s);
    }
    if exists date, clock, f, zone :: DateTimeParts(date, clock, f, zone) && s == DateTimeText(date, clock, f, zone) {
      var date, clock, f, zone :| DateTimeParts(date, clock, f, zone) && s == DateTimeText(date, clock, f, zone);
      DateTimeCompose(date, clock, f, zone);
    }
  }

  lemma DateTimeExamples()
    ensures IsDateTime("2023-01-31T12:00:00Z")
  {
    var s := "2023-01-31T12:00:00Z";
    assert s[..10] == "2023-01-31" && s[11..19] == "12:00:00" && s[19..] == "Z";
  }

  lemma DateOfExample()
    ensures IsDateString("2023-01-31")
  {
  }

  lemma ClockOfExample()
    ensures ClockFields("12:00:00")
  {
  }

  lemma ZoneOfExample()
    ensures ZoneFields("+05:30")
  {
    var z := "+05:30";
    assert z[1..3] == "05" && z[4..] == "30";
  }

  lemma DateTimeWithFraction()
    ensures IsDateTime("2023-01-31T12:00:00.123+05:30")
  {
    DateOfExample();
    ClockOfExample();
    ZoneOfExample();
    DateTimeCompose("2023-01-31", "12:00:00", "123", "+05:30");
    assert "2023-01-31" + "T" + "12:00:00" + FractionText("123") + "+05:30" == "2023-01-31T12:00:00.123+05:30";
  }

  lemma DateTimeRejections()
    ensures !IsDateTime("2023-01-31T12:00:00.1234Z")
    ensures !IsDateTime("2023-01-31T12:00:00")
    ensures !IsDateTime("2023-01-31 12:00:00Z")
  {
    var a := "2023-01-31T12:00:00.1234Z";
    if IsDateTime(a) { DateTimeShape(a); }
    var b := "2023-01-31T12:00:00";
    if IsDateTime(b) { DateTimeShape(b); }
    assert "2023-01-31 12:00:00Z"[10] == ' ';
  }

  // ------------------------------------------------------------- Currency

  /** An amount is one or more digits, optionally followed by '.' and
      exactly two digits: if it holds a '.', that '.' is third from the end. */
  lemma {:induction false} AmountCharacterization(t: string)
    ensures Amount(t) <==>
      || (|t| >= 1 && All(t, IsDigit))
      || (|t| >= 4 && All(t[..|t| - 3], IsDigit) && t[|t| - 3] == '.' && All(t[|t| - 2..], IsDigit))
  {
    var n := |t|;
    if Amount(t) {
      var k :| 1 <= k <= n && All(t[..k], IsDigit) && (k == n || Cents(t[k..]));
      if k < n {
        assert k == n - 3;
        assert t[k..][1..] == t[n - 2..];
      } else {
        assert t[..k] == t;
      }
    }
    if n >= 1 && All(t, IsDigit) {
      assert t[..n] == t;
    }
    if n >= 4 && All(t[..n - 3], IsDigit) && t[n - 3] == '.' && All(t[n - 2..], IsDigit) {
      assert t[n - 3..][1..] == t[n - 2..];
      assert Cents(t[n - 3..]);
    }
  }

  /** No amount starts with '$'. */
  lemma AmountNoDollar(t: string)
    requires |t| > 0 && t[0] == '$'
    ensures !Amount(t)
  {
    forall k | 1 <= k <= |t| ensures !All(t[..k], IsDigit) {
      assert t[..k][0] == '$';
    }
  }

  /** A '$' in front of an amount is accepted once, and only in front. */
  lemma DollarSign(t: string)
    ensures IsCurrency("$" + t) <==> IsCurrency(t) && !StartsWith(t, "$")
  {
    var s := "$" + t;
    assert s[1..] == t;
    AmountNoDollar(s);
    if |t| > 0 && t[0] == '$' {
      AmountNoDollar(t);
    }
  }

  /** Whole dollars, written as a numeral, and dollars with cents, written
      with two decimals, are accepted with or without the '$'. */
  lemma CurrencyOfAmount(dollars: nat, cents: nat)
    requires cents < 100
    ensures IsCurrency(Numeral(dollars))
    ensures IsCurrency(Numeral(dollars) + "." + Digits(cents, 2))
    ensures IsCurrency("$" + Numeral(dollars) + "." + Digits(cents, 2))
  {
    var d := Numeral(dollars);
    var c := Digits(cents, 2);
    AmountOfDigits(d, c);
    assert ("$" + d + "." + c)[1..] == d + "." + c;
  }

  /** A run of digits is an amount, and so is the run followed by '.' and
      two more digits. */
  lemma AmountOfDigits(d: string, c: string)
    requires |d| >= 1 && All(d, IsDigit) && Run(c, IsDigit, 2)
    ensures Amount(d) && Amount(d + "." + c)
  {
    assert d[..|d|] == d;
    var t := d + "." + c;
    assert t[..|d|] == d;
    assert t[|d|..] == "." + c;
    assert t[|d|..][1..] == c;
  }

  lemma CurrencyExamples()
    ensures IsCurrency("$100.00") && IsCurrency("100") && IsCurrency("007")
  {
    AmountCharacterization("100.00");
    assert "$100.00"[1..] == "100.00";
    AmountCharacterization("100");
    AmountCharacterization("007");
  }

  lemma CurrencyRejections()
    ensures !IsCurrency("$100.0") && !IsCurrency("$") && !IsCurrency("1,000")
  {
    AmountCharacterization("$100.0");
    AmountCharacterization("100.0");
    assert "$100.0"[1..] == "100.0";
    assert "100.0"[..2] == "10";
    assert !IsDigit("100.0"[3]);
    AmountCharacterization("1,000");
    assert !IsDigit("1,000"[1]);
  }

  // ---------------------------------------------------------- Credit card

  /** The issuer each alternative of the card pattern stands for. */
  datatype Issuer = Visa | Mastercard | Amex | Diners | Discover | Seven

  predicate IssuedBy(s: string, i: Issuer)
  {
    match i
    case Visa => VisaPattern(s)
    case Mastercard => MastercardPattern(s)
    case Amex => AmexPattern(s)
    case Diners => DinersPattern(s)
    case Discover => DiscoverPattern(s)
    case Seven => SevenPattern(s)
  }

  /** The alternatives are disjoint: a card number belongs to one issuer. */
  lemma IssuerUnique(s: string, i: Issuer, j: Issuer)
    requires IssuedBy(s, i) && IssuedBy(s, j)
    ensures i == j
  {
    if i == Discover || j == Discover { assert s[1..4][0] == s[1]; }
  }

  /** The issuer of a card number, decided by its first digit and length. */
  function IssuerOf(s: string): (r: Option<Issuer>)
    ensures r.Some? <==> IsCreditCard(s)
    ensures r.Some? ==> IssuedBy(s, r.value)
  {
    if VisaPattern(s) then Some(Visa)
    else if MastercardPattern(s) then Some(Mastercard)
    else if AmexPattern(s) then Some(Amex)
    else if DinersPattern(s) then Some(Diners)
    else if DiscoverPattern(s) then Some(Discover)
    else if SevenPattern(s) then Some(Seven)
    else None
  }

  /** Card numbers are 13 to 16 ASCII digits starting with 3 to 7; no
      checksum is involved. */
  lemma CreditCardDigits(s: string)
    requires IsCreditCard(s)
    ensures All(s, IsDigit) && 13 <= |s| <= 16 && '3' <= s[0] <= '7'
  {
  }

  lemma VisaExamples()
    ensures IssuerOf("4111111111111111") == Some(Visa)
    ensures IssuerOf("4222222222222") == Some(Visa)
  {
  }

  /** The check digit is not verified: a Luhn failure is still a card. */
  lemma VisaWithoutLuhn()
    ensures IssuerOf("4111111111111112") == Some(Visa)
  {
  }

  lemma OtherIssuerExamples()
    ensures IssuerOf("378282246310005") == Some(Amex)
    ensures IssuerOf("6011111111111117") == Some(Discover)
  {
  }

  lemma CreditCardRejections()
    ensures !IsCreditCard("41111111111111") && !IsCreditCard("5611111111111111")
  {
  }
}
