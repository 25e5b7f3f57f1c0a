/** The validator set: one predicate per exported `is*` function, each the
    acceptance condition of that function's regular expression (and, for
    the coordinates, its range check) written out over the characters of
    the input. A pattern anchored at both ends is a condition on the whole
    string; the one unanchored pattern (IPv6) asks for a matching slice.
    Where the pattern may split the input in more than one way, the
    predicate asks for some split (an `exists` over the cut), as a
    backtracking matcher does. */
module Validators {
  import opened CharClasses
  import opened Decimal

  // ---------------------------------------------------------------- Email

  /** A character that is neither white space nor '@'. */
  predicate IsEmailChar(c: char) { !IsSpace(c) && c != '@' }

  /** One or more characters that are neither white space nor '@'. */
  predicate EmailPart(s: string) { |s| > 0 && All(s, IsEmailChar) }

  /** Two email parts joined by some '.', which may be any '.' of the domain. */
  predicate EmailDomain(d: string)
  {
    exists j | 0 <= j < |d| :: d[j] == '.' && EmailPart(d[..j]) && EmailPart(d[j + 1..])
  }

  predicate IsEmail(s: string)
  {
    exists i | 0 <= i < |s| :: s[i] == '@' && EmailPart(s[..i]) && EmailDomain(s[i + 1..])
  }

  // ------------------------------------------------------------------ URL

  /** A character that may follow the scheme's "://": not white space and
      none of '/', '$', '.', '?', '#'. */
  predicate IsUrlLeadChar(c: char)
  {
    !IsSpace(c) && c != '/' && c != '$' && c != '.' && c != '?' && c != '#'
  }

  /** What follows "://": a lead character, then any one character but a
      line terminator (a space is allowed here), then non-space characters. */
  predicate UrlRest(r: string)
  {
    |r| >= 2 && IsUrlLeadChar(r[0]) && !IsLineTerminator(r[1]) && All(r[2..], IsNonSpace)
  }

  predicate IsURL(s: string)
  {
    || (StartsWith(s, "http://") && UrlRest(s[7..]))
    || (StartsWith(s, "https://") && UrlRest(s[8..]))
  }

  // --------------------------------------------------------- Phone number

  /** A digit 1-9 followed by one to fourteen digits. */
  predicate PhoneDigits(t: string)
  {
    2 <= |t| <= 15 && '1' <= t[0] <= '9' && All(t[1..], IsDigit)
  }

  predicate IsPhoneNumber(s: string)
  {
    PhoneDigits(s) || (|s| > 0 && s[0] == '+' && PhoneDigits(s[1..]))
  }

  // ----------------------------------------------------------------- Date

  /** Four digits, '-', two digits, '-', two digits. */
  predicate DateFields(s: string)
  {
    && |s| == 10
    && Run(s[..4], IsDigit, 4) && s[4] == '-'
    && Run(s[5..7], IsDigit, 2) && s[7] == '-'
    && Run(s[8..], IsDigit, 2)
  }

  predicate IsDateString(s: string) { DateFields(s) }

  // ----------------------------------------------------------------- UUID

  predicate IsUUID(s: string)
  {
    && |s| == 36
    && Run(s[..8], IsHex, 8) && s[8] == '-'
    && Run(s[9..13], IsHex, 4) && s[13] == '-'
    && Run(s[14..18], IsHex, 4) && s[18] == '-'
    && Run(s[19..23], IsHex, 4) && s[23] == '-'
    && Run(s[24..], IsHex, 12)
  }

  // ---------------------------------------------------------- Credit card

  /** The six alternatives of the card pattern, all over ASCII digits. */
  predicate VisaPattern(s: string)
  {
    (|s| == 13 || |s| == 16) && s[0] == '4' && All(s, IsDigit)
  }

  predicate MastercardPattern(s: string)
  {
    |s| == 16 && s[0] == '5' && '1' <= s[1] <= '5' && All(s, IsDigit)
  }

  predicate AmexPattern(s: string)
  {
    |s| == 15 && s[0] == '3' && (s[1] == '4' || s[1] == '7') && All(s, IsDigit)
  }

  predicate DinersPattern(s: string)
  {
    && |s| == 14 && s[0] == '3'
    && ((s[1] == '0' && '0' <= s[2] <= '5') || s[1] == '6' || s[1] == '8')
    && All(s, IsDigit)
  }

  predicate DiscoverPattern(s: string)
  {
    && |s| == 16 && s[0] == '6'
    && (s[1..4] == "011" || s[1] == '5')
    && All(s, IsDigit)
  }

  predicate SevenPattern(s: string)
  {
    |s| == 16 && s[0] == '7' && All(s, IsDigit)
  }

  predicate IsCreditCard(s: string)
  {
    || VisaPattern(s) || MastercardPattern(s) || AmexPattern(s)
    || DinersPattern(s) || DiscoverPattern(s) || SevenPattern(s)
  }

  // ---------------------------------------------------------- Postal code

  predicate IsPostalCode(s: string)
  {
    || Run(s, IsDigit, 5)
    || (|s| == 10 && Run(s[..5], IsDigit, 5) && s[5] == '-' && Run(s[6..], IsDigit, 4))
  }

  // ------------------------------------------------------------ Hex color

  predicate IsHexColor(s: string)
  {
    |s| == 7 && s[0] == '#' && Run(s[1..], IsHex, 6)
  }

  // ----------------------------------------------------------------- IPv4

  /** One digit, optionally followed by a second one. */
  predicate DigitOptDigit(t: string)
  {
    (|t| == 1 && IsDigit(t[0])) || (|t| == 2 && IsDigit(t[0]) && IsDigit(t[1]))
  }

  /** The three alternatives of an octet: "25" and a digit 0-5; '2', a
      digit 0-4 and a digit; an optional '0' or '1', a digit and an
      optional digit. */
  predicate OctetPattern(t: string)
  {
    || (|t| == 3 && t[0] == '2' && t[1] == '5' && '0' <= t[2] <= '5')
    || (|t| == 3 && t[0] == '2' && '0' <= t[1] <= '4' && IsDigit(t[2]))
    || (|t| >= 1 && '0' <= t[0] <= '1' && DigitOptDigit(t[1..]))
    || DigitOptDigit(t)
  }

  /** `n` octets, separated by single dots. */
  predicate DottedOctets(s: string, n: nat)
    requires n >= 1
    decreases n
  {
    if n == 1 then OctetPattern(s)
    else exists k {:trigger DottedOctets(s[k + 1..], n - 1)} | 0 <= k < |s| :: s[k] == '.' && OctetPattern(s[..k]) && DottedOctets(s[k + 1..], n - 1)
  }

  predicate IsIPv4(s: string) { DottedOctets(s, 4) }

  // ----------------------------------------------------------------- IPv6

  /** One to four hex digits. */
  predicate HexGroup(t: string) { 1 <= |t| <= 4 && All(t, IsHex) }

  /** `n` hex groups each followed by ':', then a last hex group or a
      single ':'. */
  predicate ColonGroups(t: string, n: nat)
    decreases n
  {
    if n == 0 then HexGroup(t) || t == ":"
    else exists k {:trigger ColonGroups(t[k + 1..], n - 1)} | 0 <= k < |t| :: t[k] == ':' && HexGroup(t[..k]) && ColonGroups(t[k + 1..], n - 1)
  }

  /** Some slice of `s` is `n` colon groups and a last group. */
  predicate GroupsWithin(s: string, n: nat)
  {
    exists i, j | 0 <= i <= j <= |s| :: ColonGroups(s[i..j], n)
  }

  /** The pattern is not anchored: some slice of the input must match. */
  predicate IsIPv6(s: string) { GroupsWithin(s, 7) }

  // ------------------------------------------------------------- Currency

  /** '.' followed by exactly two digits. */
  predicate Cents(t: string) { |t| == 3 && t[0] == '.' && Run(t[1..], IsDigit, 2) }

  /** One or more digits, then optionally the cents. */
  predicate Amount(t: string)
  {
    exists k | 1 <= k <= |t| :: All(t[..k], IsDigit) && (k == |t| || Cents(t[k..]))
  }

  predicate IsCurrency(s: string)
  {
    Amount(s) || (|s| > 0 && s[0] == '$' && Amount(s[1..]))
  }

  // ------------------------------------------------------------------ SSN

  predicate IsSSN(s: string)
  {
    && |s| == 11
    && Run(s[..3], IsDigit, 3) && s[3] == '-'
    && Run(s[4..6], IsDigit, 2) && s[6] == '-'
    && Run(s[7..], IsDigit, 4)
  }

  // ------------------------------------------------------------ Date-time

  /** Two digits, ':', two digits, ':', two digits. */
  predicate ClockFields(t: string)
  {
    && |t| == 8
    && Run(t[..2], IsDigit, 2) && t[2] == ':'
    && Run(t[3..5], IsDigit, 2) && t[5] == ':'
    && Run(t[6..], IsDigit, 2)
  }

  /** "Z", or '+' or '-' followed by two digits, ':' and two digits. */
  predicate ZoneFields(z: string)
  {
    || z == "Z"
    || (&& |z| == 6 && (z[0] == '+' || z[0] == '-')
        && Run(z[1..3], IsDigit, 2) && z[3] == ':' && Run(z[4..], IsDigit, 2))
  }

  /** An optional '.' with one to three digits, then the zone. */
  predicate FractionAndZone(t: string)
  {
    || ZoneFields(t)
    || exists k | 2 <= k <= 4 && k <= |t| :: t[0] == '.' && Run(t[1..k], IsDigit, k - 1) && ZoneFields(t[k..])
  }

  predicate IsDateTime(s: string)
  {
    && |s| >= 19
    && DateFields(s[..10]) && s[10] == 'T'
    && ClockFields(s[11..19])
    && FractionAndZone(s[19..])
  }

  // --------------------------------------------------------------- Gender

  /** The closed list of gender values, in the order validators.ts lists them. */
  const GenderNames: seq<string> := ["male", "female", "non-binary", "other"]

  /** Exact, case-sensitive membership of the list. */
  predicate IsGender(s: string) { s in GenderNames }

  // --------------------------------------------------------- Country code

  predicate IsCountryCode(s: string) { Run(s, IsUpper, 2) }

  // ------------------------------------------------------------- Username

  predicate IsUsername(s: string) { 3 <= |s| <= 16 && All(s, IsWordChar) }

  // ------------------------------------------------------------- Password

  /** The lookahead "any characters but line terminators, then one of class
      `p`", tried from the start of the string. */
  predicate LooksAheadTo(s: string, p: char -> bool)
  {
    exists i | 0 <= i < |s| :: p(s[i]) && forall j | 0 <= j < i :: !IsLineTerminator(s[j])
  }

  predicate IsPassword(s: string)
  {
    && LooksAheadTo(s, IsLetter)
    && LooksAheadTo(s, IsDigit)
    && |s| >= 8 && All(s, IsAlnum)
  }

  // ---------------------------------------------------------- MAC address

  predicate IsMacSeparator(c: char) { c == ':' || c == '-' }

  /** `n` groups of two hex digits each followed by ':' or '-' (each chosen
      on its own), then a last group of two hex digits. */
  predicate MacGroups(s: string, n: nat)
    decreases n
  {
    if n == 0 then Run(s, IsHex, 2)
    else |s| >= 3 && IsHex(s[0]) && IsHex(s[1]) && IsMacSeparator(s[2]) && MacGroups(s[3..], n - 1)
  }

  predicate IsMACAddress(s: string) { MacGroups(s, 5) }

  // ------------------------------------------------ Latitude and longitude

  /** The input without its optional leading '-'. */
  function Magnitude(s: string): (t: string)
    ensures |t| <= |s|
  {
    if |s| > 0 && s[0] == '-' then s[1..] else s
  }

  /** '.' followed by one or more digits. */
  predicate DecimalFraction(f: string) { |f| >= 2 && f[0] == '.' && All(f[1..], IsDigit) }

  /** An optional '-', one to `maxWhole` digits, then optionally a
      decimal fraction. */
  predicate CoordinatePattern(s: string, maxWhole: nat)
  {
    var t := Magnitude(s);
    exists k | 1 <= k <= maxWhole && k <= |t| :: All(t[..k], IsDigit) && (k == |t| || DecimalFraction(t[k..]))
  }

  /** The length of the leading run of digits. */
  function LeadingDigits(t: string): (k: nat)
    ensures k <= |t| && All(t[..k], IsDigit)
    ensures k < |t| ==> !IsDigit(t[k])
  {
    if t == [] || !IsDigit(t[0]) then 0
    else
      var k := 1 + LeadingDigits(t[1..]);
      assert forall i :: 1 <= i < k ==> t[..k][i] == t[1..][..k - 1][i - 1];
      k
  }

  /** A run of digits that ends the string or is followed by a decimal
      fraction is the whole leading run. */
  lemma {:induction false} WholePartIsLeadingRun(t: string, k: nat)
    requires k <= |t| && All(t[..k], IsDigit) && (k == |t| || DecimalFraction(t[k..]))
    ensures LeadingDigits(t) == k
  {
    if k > 0 {
      assert t[1..][..k - 1] == t[..k][1..];
      assert t[1..][k - 1..] == t[k..];
      WholePartIsLeadingRun(t[1..], k - 1);
    } else if |t| > 0 {
      assert t[0] == t[k..][0];
    }
  }

  /** The value of the whole part of an admitted numeral. */
  function WholePart(s: string, maxWhole: nat): nat
    requires CoordinatePattern(s, maxWhole)
  {
    var t := Magnitude(s);
    Value(t[..LeadingDigits(t)])
  }

  /** The exact value of the digits after the point, if there is one. */
  function FractionPart(s: string, maxWhole: nat): (f: real)
    requires CoordinatePattern(s, maxWhole)
    ensures 0.0 <= f < 1.0
  {
    var t := Magnitude(s);
    var k := LeadingDigits(t);
    if k == |t| then 0.0
    else
      var k' :| 1 <= k' <= maxWhole && k' <= |t| && All(t[..k'], IsDigit) && (k' == |t| || DecimalFraction(t[k'..]));
      WholePartIsLeadingRun(t, k');
      assert t[k + 1..] == t[k..][1..];
      FractionValue(t[k + 1..])
  }

  /** The exact value of a numeral the coordinate patterns admit: what
      `parseFloat` reads from it, before rounding to a double. */
  function CoordinateValue(s: string, maxWhole: nat): real
    requires CoordinatePattern(s, maxWhole)
  {
    var m := WholePart(s, maxWhole) as real + FractionPart(s, maxWhole);
    if |s| > 0 && s[0] == '-' then -m else m
  }

  predicate IsLatitude(s: string)
  {
    CoordinatePattern(s, 2) && -90.0 <= CoordinateValue(s, 2) && CoordinateValue(s, 2) <= 90.0
  }

  predicate IsLongitude(s: string)
  {
    CoordinatePattern(s, 3) && -180.0 <= CoordinateValue(s, 3) && CoordinateValue(s, 3) <= 180.0
  }

  // ----------------------------------------------------------------- ISBN

  /** The separator class: a space, '|' or '-'. */
  predicate IsIsbnSeparator(c: char) { c == ' ' || c == '|' || c == '-' }

  /** `n` units, each a digit optionally followed by one separator. */
  predicate IsbnUnits(s: string, n: nat)
    decreases n
  {
    if n == 0 then s == []
    else
      && |s| >= 1 && IsDigit(s[0])
      && (IsbnUnits(s[1..], n - 1) || (|s| >= 2 && IsIsbnSeparator(s[1]) && IsbnUnits(s[2..], n - 1)))
  }

  /** Nine units, then a last digit or 'X'. */
  predicate IsIsbn10(s: string)
  {
    |s| >= 1 && (IsDigit(s[|s| - 1]) || s[|s| - 1] == 'X') && IsbnUnits(s[..|s| - 1], 9)
  }

  /** Thirteen units. */
  predicate IsIsbn13(s: string) { IsbnUnits(s, 13) }

  predicate IsISBN(s: string) { IsIsbn10(s) || IsIsbn13(s) }

  // ---------------------------------------------------------- Hexadecimal

  predicate IsHexadecimal(s: string) { |s| >= 1 && All(s, IsHex) }

  // --------------------------------------------------------------- Base64

  /** Four characters of the base64 alphabet. */
  predicate Base64Quad(q: string) { Run(q, IsBase64Char, 4) }

  /** A padded last group: two alphabet characters and "==", or three and "=". */
  predicate Base64Padded(q: string)
  {
    && |q| == 4
    && IsBase64Char(q[0]) && IsBase64Char(q[1])
    && ((q[2] == '=' && q[3] == '=') || (IsBase64Char(q[2]) && q[3] == '='))
  }

  /** Any number of quads, then optionally one padded group. */
  predicate IsBase64(s: string)
    decreases |s|
  {
    || s == []
    || Base64Padded(s)
    || (|s| >= 4 && Base64Quad(s[..4]) && IsBase64(s[4..]))
  }

  // ------------------------------------------------------- Twitter handle

  predicate IsTwitterHandle(s: string)
  {
    2 <= |s| <= 16 && s[0] == '@' && All(s[1..], IsWordChar)
  }

  // ----------------------------------------------------------------- Slug

  /** Zero or more groups of '-' followed by one or more of [a-z0-9]. */
  predicate SlugTail(t: string)
    decreases |t|
  {
    || t == []
    || exists k {:trigger SlugTail(t[k..])} | 2 <= k <= |t| :: t[0] == '-' && All(t[1..k], IsLowerAlnum) && SlugTail(t[k..])
  }

  /** One or more of [a-z0-9], then a slug tail. */
  predicate IsSlug(s: string)
  {
    exists k {:trigger SlugTail(s[k..])} | 1 <= k <= |s| :: All(s[..k], IsLowerAlnum) && SlugTail(s[k..])
  }
}
