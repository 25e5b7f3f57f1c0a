/** Properties of the latitude and longitude validators: the numeral they
    admit, and where the range check puts the boundary. */
module CoordinateProps {
  import opened CharClasses
  import opened Decimal
  import opened Validators

  /** The numeral has no fraction, or a fraction of zeros only. */
  predicate ZeroFraction(s: string, maxWhole: nat)
    requires CoordinatePattern(s, maxWhole)
  {
    var t := Magnitude(s);
    var k := LeadingDigits(t);
    k == |t| || All(t[k + 1..], IsZeroDigit)
  }

  /** The fraction read is zero exactly when all its digits are. */
  lemma FractionZero(s: string, maxWhole: nat)
    requires CoordinatePattern(s, maxWhole)
    ensures FractionPart(s, maxWhole) == 0.0 <==> ZeroFraction(s, maxWhole)
  {
    var t := Magnitude(s);
    var k := LeadingDigits(t);
    if k < |t| {
      var k' :| 1 <= k' <= maxWhole && k' <= |t| && All(t[..k'], IsDigit) && (k' == |t| || DecimalFraction(t[k'..]));
      WholePartIsLeadingRun(t, k');
      assert t[k + 1..] == t[k..][1..];
    }
  }

  /** A value in `[-bound, bound]` is one whose whole part is below the
      bound, or equal to it with nothing but zeros after the point. */
  lemma CoordinateInRange(s: string, maxWhole: nat, bound: nat)
    requires CoordinatePattern(s, maxWhole)
    ensures -(bound as real) <= CoordinateValue(s, maxWhole) <= bound as real <==>
      WholePart(s, maxWhole) < bound || (WholePart(s, maxWhole) == bound && ZeroFraction(s, maxWhole))
  {
    FractionZero(s, maxWhole);
    var w := WholePart(s, maxWhole);
    var f := FractionPart(s, maxWhole);
    if w < bound {
      assert w as real + f < bound as real;
    }
  }

  /** A latitude is a numeral of at most two whole digits whose value lies
      in [-90, 90]: up to 89 with any fraction, or 90 with a zero one. */
  lemma LatitudeCharacterization(s: string)
    ensures IsLatitude(s) <==>
      && CoordinatePattern(s, 2)
      && (WholePart(s, 2) < 90 || (WholePart(s, 2) == 90 && ZeroFraction(s, 2)))
  {
    if CoordinatePattern(s, 2) { CoordinateInRange(s, 2, 90); }
  }

  /** A longitude is a numeral of at most three whole digits whose value
      lies in [-180, 180]. */
  lemma LongitudeCharacterization(s: string)
    ensures IsLongitude(s) <==>
      && CoordinatePattern(s, 3)
      && (WholePart(s, 3) < 180 || (WholePart(s, 3) == 180 && ZeroFraction(s, 3)))
  {
    if CoordinatePattern(s, 3) { CoordinateInRange(s, 3, 180); }
  }

  /** Every latitude is a longitude. */
  lemma LatitudeIsLongitude(s: string)
    requires IsLatitude(s)
    ensures IsLongitude(s)
  {
    var t := Magnitude(s);
    var k :| 1 <= k <= 2 && k <= |t| && All(t[..k], IsDigit) && (k == |t| || DecimalFraction(t[k..]));
    assert CoordinatePattern(s, 3);
    LatitudeCharacterization(s);
    LongitudeCharacterization(s);
  }

  lemma ValueOf90()
    ensures Value("90") == 90 && Value("91") == 91
  {
    assert "90"[..1] == "9" && "9"[..0] == "";
    assert "91"[..1] == "9";
  }

  lemma ValueOf180()
    ensures Value("180") == 180 && Value("181") == 181
  {
    assert "180"[..2] == "18" && "18"[..1] == "1" && "1"[..0] == "";
    assert "181"[..2] == "18";
  }

  /** 90 and -90 are latitudes, at the boundary. */
  lemma LatitudeBoundary()
    ensures IsLatitude("90") && IsLatitude("-90")
  {
    ValueOf90();
    var t := "90";
    assert t[..2] == t && All(t, IsDigit);
    WholePartIsLeadingRun(t, 2);
    assert Magnitude(t) == t;
    assert CoordinatePattern(t, 2);
    assert WholePart(t, 2) == 90;
    LatitudeCharacterization(t);
    var n := "-90";
    assert n[1..] == t;
    assert Magnitude(n) == t;
    LatitudeCharacterization(n);
  }

  /** Zeros after the point keep 90 at the boundary. */
  lemma LatitudeBoundaryZeros()
    ensures IsLatitude("90.000")
  {
    ValueOf90();
    var t := "90.000";
    assert t[..2] == "90" && t[2..] == ".000" && t[3..] == "000";
    WholePartIsLeadingRun(t, 2);
    LatitudeCharacterization(t);
  }

  lemma LatitudeAboveBoundary()
    ensures !IsLatitude("90.1")
  {
    ValueOf90();
    var t := "90.1";
    assert t[..2] == "90" && t[2..] == ".1" && t[3..] == "1";
    WholePartIsLeadingRun(t, 2);
    LatitudeCharacterization(t);
  }

  lemma LatitudeBelowBoundary()
    ensures !IsLatitude("-91")
  {
    ValueOf90();
    assert "-91"[1..] == "91" && "91"[..2] == "91";
    WholePartIsLeadingRun("91", 2);
    LatitudeCharacterization("-91");
  }

  /** Three whole digits are not a latitude, whatever their value. */
  lemma LatitudeThreeDigits()
    ensures !IsLatitude("100") && !IsLatitude("010")
  {
    assert !DecimalFraction("100"[1..]) && !DecimalFraction("100"[2..]);
    assert !DecimalFraction("010"[1..]) && !DecimalFraction("010"[2..]);
  }

  /** 180 and -180 are longitudes, at the boundary. */
  lemma LongitudeBoundary()
    ensures IsLongitude("180") && IsLongitude("-180")
  {
    ValueOf180();
    var t := "180";
    assert t[..3] == t && All(t, IsDigit);
    WholePartIsLeadingRun(t, 3);
    assert Magnitude(t) == t;
    assert CoordinatePattern(t, 3);
    assert WholePart(t, 3) == 180;
    LongitudeCharacterization(t);
    var n := "-180";
    assert n[1..] == t;
    assert Magnitude(n) == t;
    LongitudeCharacterization(n);
  }

  lemma LongitudeAboveBoundary()
    ensures !IsLongitude("180.1") && !IsLongitude("181")
  {
    ValueOf180();
    var t := "180.1";
    assert t[..3] == "180" && t[3..] == ".1" && t[4..] == "1";
    WholePartIsLeadingRun(t, 3);
    LongitudeCharacterization(t);
    assert "181"[..3] == "181";
    WholePartIsLeadingRun("181", 3);
    LongitudeCharacterization("181");
  }

  /** The numeral needs a digit before the point and one after it. */
  lemma CoordinateNeedsDigits()
    ensures !IsLatitude(".5") && !IsLatitude("5.") && !IsLatitude("")
  {
    assert !DecimalFraction("5."[1..]);
  }

  /** The numeral admits no exponent. */
  lemma CoordinateRejectsExponent()
    ensures !IsLatitude("1e1")
  {
    assert !DecimalFraction("1e1"[1..]) && !DecimalFraction("1e1"[2..]);
  }
}
