/** Properties of the validators for network addresses: IPv4 in dotted
    decimal, IPv6 in its full colon form, and MAC addresses. */
module NetworkProps {
  import opened CharClasses
  import opened Decimal
  import opened Validators

  /** The parts joined with `sep` between neighbours. */
  function Join(parts: seq<string>, sep: char): string
    requires |parts| >= 1
    decreases |parts|
  {
    if |parts| == 1 then parts[0] else parts[0] + [sep] + Join(parts[1..], sep)
  }

  // ----------------------------------------------------------------- IPv4

  /** One to three decimal digits denoting at most 255, leading zeros
      allowed. */
  predicate IsOctetText(t: string)
  {
    1 <= |t| <= 3 && All(t, IsDigit) && Value(t) <= 255
  }

  lemma ValueOfThree(t: string)
    requires |t| == 3 && All(t, IsDigit)
    ensures Value(t) == 100 * DigitValue(t[0]) + 10 * DigitValue(t[1]) + DigitValue(t[2])
  {
    var a, b := t[..1], t[..2];
    assert b[..1] == a && a[..0] == [];
    assert Value(a) == DigitValue(t[0]);
    assert Value(b) == 10 * DigitValue(t[0]) + DigitValue(t[1]);
    assert t[..|t| - 1] == b;
  }

  lemma ValueOfTwo(t: string)
    requires |t| == 2 && All(t, IsDigit)
    ensures Value(t) == 10 * DigitValue(t[0]) + DigitValue(t[1])
  {
    assert t[..1][..0] == [];
  }

  /** The octet pattern accepts exactly the decimal texts of 0 to 255 of at
      most three digits: "001" is an octet, "256" and "0000" are not. */
  lemma {:induction false} OctetCharacterization(t: string)
    ensures OctetPattern(t) <==> IsOctetText(t)
  {
    if |t| == 3 && All(t, IsDigit) {
      ValueOfThree(t);
      assert t[1..][0] == t[1] && t[1..][1] == t[2];
    } else if |t| == 2 && All(t, IsDigit) {
      ValueOfTwo(t);
      assert t[1..][0] == t[1];
    } else if |t| == 1 && All(t, IsDigit) {
      assert t[..0] == [];
    }
    if OctetPattern(t) && |t| >= 1 && '0' <= t[0] <= '1' && DigitOptDigit(t[1..]) {
      assert forall i | 1 <= i < |t| :: t[i] == t[1..][i - 1];
    }
  }

  /** An octet holds no '.'. */
  lemma OctetNoDot(t: string)
    requires OctetPattern(t)
    ensures forall j | 0 <= j < |t| :: t[j] != '.'
  {
    OctetCharacterization(t);
  }

  /** The dot that ends the first of several octets. */
  lemma FirstDot(s: string, n: nat) returns (k: nat)
    requires n >= 2 && DottedOctets(s, n)
    ensures k < |s| && s[k] == '.' && OctetPattern(s[..k]) && DottedOctets(s[k + 1..], n - 1)
  {
    k :| 0 <= k < |s| && s[k] == '.' && OctetPattern(s[..k]) && DottedOctets(s[k + 1..], n - 1);
  }

  /** The first '.' is where the first octet ends. */
  lemma {:induction false} DottedSplit(s: string, n: nat, k: nat)
    requires n >= 2 && k < |s| && s[k] == '.'
    requires forall j | 0 <= j < k :: s[j] != '.'
    ensures DottedOctets(s, n) <==> OctetPattern(s[..k]) && DottedOctets(s[k + 1..], n - 1)
  {
    if DottedOctets(s, n) {
      var k' := FirstDot(s, n);
      OctetNoDot(s[..k']);
    }
  }

  /** `n` octet texts, all valid. */
  predicate OctetTexts(parts: seq<string>, n: nat)
  {
    |parts| == n && forall i | 0 <= i < n :: IsOctetText(parts[i])
  }

  lemma JoinCons(head: string, rest: seq<string>, sep: char)
    requires |rest| >= 1
    ensures Join([head] + rest, sep) == head + [sep] + Join(rest, sep)
  {
    assert ([head] + rest)[1..] == rest;
  }

  lemma OctetTextsCons(head: string, rest: seq<string>, n: nat)
    requires IsOctetText(head) && OctetTexts(rest, n)
    ensures OctetTexts([head] + rest, n + 1)
  {
    assert forall i | 1 <= i < n + 1 :: ([head] + rest)[i] == rest[i - 1];
  }

  /** An octet text, a '.' and joined octet texts are joined octet texts. */
  lemma JoinStep(s: string, k: nat, rest: seq<string>, n: nat)
    requires k < |s| && s[k] == '.' && IsOctetText(s[..k])
    requires n >= 1 && OctetTexts(rest, n) && Join(rest, '.') == s[k + 1..]
    ensures OctetTexts([s[..k]] + rest, n + 1) && Join([s[..k]] + rest, '.') == s
  {
    OctetTextsCons(s[..k], rest, n);
    JoinCons(s[..k], rest, '.');
    assert s == s[..k] + ['.'] + s[k + 1..];
  }

  lemma {:induction false} JoinOfDotted(s: string, n: nat) returns (parts: seq<string>)
    requires n >= 1 && DottedOctets(s, n)
    ensures OctetTexts(parts, n) && Join(parts, '.') == s
    decreases n
  {
    if n == 1 {
      OctetCharacterization(s);
      parts := [s];
    } else {
      var k := FirstDot(s, n);
      OctetCharacterization(s[..k]);
      var rest := JoinOfDotted(s[k + 1..], n - 1);
      JoinStep(s, k, rest, n - 1);
      parts := [s[..k]] + rest;
    }
  }

  lemma {:induction false} DottedOfJoin(parts: seq<string>, n: nat)
    requires n >= 1 && OctetTexts(parts, n)
    ensures DottedOctets(Join(parts, '.'), n)
    decreases n
  {
    OctetCharacterization(parts[0]);
    if n > 1 {
      var rest := parts[1..];
      assert parts == [parts[0]] + rest;
      JoinCons(parts[0], rest, '.');
      OctetTextsTail(parts, n);
      DottedOfJoin(rest, n - 1);
      DottedCons(parts[0], Join(rest, '.'), n);
    }
  }

  lemma OctetTextsTail(parts: seq<string>, n: nat)
    requires n >= 2 && OctetTexts(parts, n)
    ensures OctetTexts(parts[1..], n - 1)
  {
    assert forall i | 0 <= i < n - 1 :: parts[1..][i] == parts[i + 1];
  }

  /** An octet and a dot in front of dotted octets add one octet. */
  lemma DottedCons(head: string, t: string, n: nat)
    requires n >= 2 && OctetPattern(head) && DottedOctets(t, n - 1)
    ensures DottedOctets(head + ['.'] + t, n)
  {
    var s := head + ['.'] + t;
    var k := |head|;
    assert s[k] == '.' && s[..k] == head && s[k + 1..] == t;
  }

  /** `n` dotted octets are exactly `n` octet texts joined with dots. */
  lemma DottedOctetsJoin(s: string, n: nat)
    requires n >= 1
    ensures DottedOctets(s, n) <==> exists parts: seq<string> | OctetTexts(parts, n) :: Join(parts, '.') == s
  {
    if DottedOctets(s, n) {
      var parts := JoinOfDotted(s, n);
    }
    if exists parts: seq<string> | OctetTexts(parts, n) :: Join(parts, '.') == s {
      var parts: seq<string> :| OctetTexts(parts, n) && Join(parts, '.') == s;
      DottedOfJoin(parts, n);
    }
  }

  /** An IPv4 address is four octet texts joined with dots. */
  lemma IPv4Characterization(s: string)
    ensures IsIPv4(s) <==> exists parts: seq<string> | OctetTexts(parts, 4) :: Join(parts, '.') == s
  {
    DottedOctetsJoin(s, 4);
  }

  /** The canonical numeral of a number up to 255 is an octet text. */
  lemma NumeralOctet(a: nat)
    requires a <= 255
    ensures IsOctetText(Numeral(a))
  {
    NumeralLength(a);
    var w := |Numeral(a)|;
    assert Pow10(3) == 1000;
    if w >= 4 {
      Pow10Monotone(3, w - 1);
    }
  }

  /** The four numbers as dotted decimal, without leading zeros. */
  function FormatIPv4(a: nat, b: nat, c: nat, d: nat): string
  {
    Numeral(a) + "." + Numeral(b) + "." + Numeral(c) + "." + Numeral(d)
  }

  /** Every address written out from four numbers up to 255 is accepted. */
  lemma FormatIPv4Accepted(a: nat, b: nat, c: nat, d: nat)
    requires a <= 255 && b <= 255 && c <= 255 && d <= 255
    ensures IsIPv4(FormatIPv4(a, b, c, d))
  {
    var parts := [Numeral(a), Numeral(b), Numeral(c), Numeral(d)];
    NumeralOctet(a);
    NumeralOctet(b);
    NumeralOctet(c);
    NumeralOctet(d);
    JoinFour(Numeral(a), Numeral(b), Numeral(c), Numeral(d), '.');
    assert Join(parts, '.') == FormatIPv4(a, b, c, d);
    assert OctetTexts(parts, 4);
    DottedOfJoin(parts, 4);
  }

  /** Four parts joined by a separator. */
  lemma JoinFour(a: string, b: string, c: string, d: string, sep: char)
    ensures Join([a, b, c, d], sep) == a + [sep] + b + [sep] + c + [sep] + d
  {
    var p3 := [d];
    var p2 := [c] + p3;
    var p1 := [b] + p2;
    assert [a, b, c, d] == [a] + p1;
    JoinCons(c, p3, sep);
    JoinCons(b, p2, sep);
    JoinCons(a, p1, sep);
  }

  /** Four octet texts joined with dots are accepted. */
  lemma IPv4OfParts(a: string, b: string, c: string, d: string)
    requires IsOctetText(a) && IsOctetText(b) && IsOctetText(c) && IsOctetText(d)
    ensures IsIPv4(a + "." + b + "." + c + "." + d)
  {
    var parts := [a, b, c, d];
    JoinFour(a, b, c, d, '.');
    assert OctetTexts(parts, 4);
    DottedOfJoin(parts, 4);
  }

  lemma IPv4Example()
    ensures IsIPv4("192.168.1.1")
  {
    OctetCharacterization("192");
    OctetCharacterization("168");
    OctetCharacterization("1");
    IPv4OfParts("192", "168", "1", "1");
    ExampleAddressText();
  }

  lemma ExampleAddressText()
    ensures "192" + "." + "168" + "." + "1" + "." + "1" == "192.168.1.1"
  {
  }

  /** Leading zeros are allowed. */
  lemma IPv4LeadingZeros()
    ensures IsIPv4("001.002.003.004")
  {
    OctetCharacterization("001");
    OctetCharacterization("002");
    OctetCharacterization("003");
    OctetCharacterization("004");
    IPv4OfParts("001", "002", "003", "004");
    LeadingZerosText();
  }

  lemma LeadingZerosText()
    ensures "001" + "." + "002" + "." + "003" + "." + "004" == "001.002.003.004"
  {
  }

  lemma IPv4Rejects256()
    ensures !IsIPv4("256.1.1.1")
  {
    var s := "256.1.1.1";
    assert s[..3] == "256";
    assert !OctetPattern("256");
    BadFirstOctet(s, 3);
  }

  /** An address whose text before the first dot is no octet is rejected. */
  lemma BadFirstOctet(s: string, k: nat)
    requires k < |s| && s[k] == '.' && forall j | 0 <= j < k :: s[j] != '.'
    requires !OctetPattern(s[..k])
    ensures !IsIPv4(s)
  {
    DottedSplit(s, 4, k);
  }

  /** `n` dotted octets hold exactly `n - 1` dots. */
  lemma {:induction false} DottedOctetsDots(s: string, n: nat)
    requires n >= 1 && DottedOctets(s, n)
    ensures Count(s, '.') == n - 1
    decreases n
  {
    if n == 1 {
      OctetNoDot(s);
      CountZero(s, '.');
    } else {
      var k := FirstDot(s, n);
      DotsAfterOctet(s, k);
      DottedOctetsDots(s[k + 1..], n - 1);
    }
  }

  lemma DotsAfterOctet(s: string, k: nat)
    requires k < |s| && s[k] == '.' && OctetPattern(s[..k])
    ensures Count(s, '.') == 1 + Count(s[k + 1..], '.')
  {
    OctetNoDot(s[..k]);
    CountZero(s[..k], '.');
    assert s == s[..k] + ['.'] + s[k + 1..];
    CountConcat(s[..k] + ['.'], s[k + 1..], '.');
    CountConcat(s[..k], ['.'], '.');
  }

  /** Three or five parts are rejected: an address holds exactly three dots. */
  lemma IPv4RejectsThreeParts()
    ensures !IsIPv4("1.2.3")
  {
    if IsIPv4("1.2.3") { DottedOctetsDots("1.2.3", 4); }
  }

  lemma IPv4RejectsFiveParts()
    ensures !IsIPv4("1.2.3.4.5")
  {
    if IsIPv4("1.2.3.4.5") { DottedOctetsDots("1.2.3.4.5", 4); }
  }

  // ----------------------------------------------------------------- IPv6

  /** The pattern is unanchored, so any text around an accepted string
      leaves it accepted. */
  lemma GroupsWithinSubstring(s: string, p: string, q: string, n: nat)
    requires GroupsWithin(s, n)
    ensures GroupsWithin(p + s + q, n)
  {
    var i, j :| 0 <= i <= j <= |s| && ColonGroups(s[i..j], n);
    var u := p + s + q;
    assert u[|p| + i..|p| + j] == s[i..j];
  }

  lemma IPv6Substring(s: string, p: string, q: string)
    requires IsIPv6(s)
    ensures IsIPv6(p + s + q)
  {
    GroupsWithinSubstring(s, p, q, 7);
  }

  /** A colon occurs in every string holding one. */
  lemma CountPositive(s: string, k: nat, c: char)
    requires k < |s| && s[k] == c
    ensures Count(s, c) >= 1
  {
    CountZero(s, c);
  }

  /** `n` groups and their colons take at least `n` colons and between
      2n+1 and 5n+4 characters. */
  lemma {:induction false} ColonGroupsBounds(t: string, n: nat)
    requires ColonGroups(t, n)
    ensures Count(t, ':') >= n && 2 * n + 1 <= |t| <= 5 * n + 4
    decreases n
  {
    if n > 0 {
      var k :| 0 <= k < |t| && t[k] == ':' && HexGroup(t[..k]) && ColonGroups(t[k + 1..], n - 1);
      ColonGroupsBounds(t[k + 1..], n - 1);
      CountAround(t, k, ':');
    }
  }

  /** Splitting after an occurrence of `c` leaves a piece that counts it. */
  lemma CountAround(t: string, k: nat, c: char)
    requires k < |t| && t[k] == c
    ensures Count(t, c) >= 1 + Count(t[k + 1..], c)
  {
    var h, r := t[..k + 1], t[k + 1..];
    assert t == h + r;
    CountConcat(h, r, c);
    CountPositive(h, k, c);
  }

  /** Every accepted string holds at least seven colons and fifteen
      characters, so compressed forms such as "::1" are rejected. */
  lemma IPv6Necessary(s: string)
    requires IsIPv6(s)
    ensures Count(s, ':') >= 7 && |s| >= 15
  {
    var i, j :| 0 <= i <= j <= |s| && ColonGroups(s[i..j], 7);
    ColonGroupsBounds(s[i..j], 7);
    CountSlice(s, i, j, ':');
  }

  lemma {:induction false} ColonGroupsCons(g: string, t: string, n: nat)
    requires n >= 1 && HexGroup(g) && ColonGroups(t, n - 1)
    ensures ColonGroups(g + ":" + t, n)
  {
    var s := g + ":" + t;
    assert s[..|g|] == g && s[|g| + 1..] == t;
  }

  /** Groups of one to four hex digits, each followed by a colon, then a
      last group or a lone colon, make colon groups. */
  lemma {:induction false} ColonGroupsOfTerminated(gs: seq<string>, last: string)
    requires forall i | 0 <= i < |gs| :: HexGroup(gs[i])
    requires HexGroup(last) || last == ":"
    ensures ColonGroups(Terminated(gs, ':') + last, |gs|)
    decreases |gs|
  {
    if gs != [] {
      var rest := gs[1..];
      assert forall i | 0 <= i < |rest| :: rest[i] == gs[i + 1];
      ColonGroupsOfTerminated(rest, last);
      assert Terminated(gs, ':') + last == gs[0] + ":" + (Terminated(rest, ':') + last);
      ColonGroupsCons(gs[0], Terminated(rest, ':') + last, |gs|);
    }
  }

  lemma GroupsWithinWhole(t: string, n: nat)
    requires ColonGroups(t, n)
    ensures GroupsWithin(t, n)
  {
    assert t[0..|t|] == t;
  }

  lemma GroupsWithinOfTerminated(gs: seq<string>, last: string, p: string, q: string)
    requires forall i | 0 <= i < |gs| :: HexGroup(gs[i])
    requires HexGroup(last) || last == ":"
    ensures GroupsWithin(p + (Terminated(gs, ':') + last) + q, |gs|)
  {
    var s := Terminated(gs, ':') + last;
    ColonGroupsOfTerminated(gs, last);
    GroupsWithinWhole(s, |gs|);
    GroupsWithinSubstring(s, p, q, |gs|);
  }

  /** Seven colon-terminated groups and a last group or colon, inside any text,
      are accepted. */
  lemma IPv6OfGroups(gs: seq<string>, last: string, p: string, q: string)
    requires |gs| == 7 && forall i | 0 <= i < 7 :: HexGroup(gs[i])
    requires HexGroup(last) || last == ":"
    ensures IsIPv6(p + (Terminated(gs, ':') + last) + q)
  {
    GroupsWithinOfTerminated(gs, last, p, q);
  }

  /** One more colon-terminated group in front. */
  lemma TerminatedCons(g: string, gs: seq<string>)
    ensures Terminated([g] + gs, ':') == g + ":" + Terminated(gs, ':')
  {
    assert ([g] + gs)[1..] == gs;
  }

  /** Seven groups written out, each followed by its colon. */
  lemma TerminatedSeven(g0: string, g1: string, g2: string, g3: string, g4: string, g5: string, g6: string)
    ensures Terminated([g0, g1, g2, g3, g4, g5, g6], ':')
      == g0 + ":" + g1 + ":" + g2 + ":" + g3 + ":" + g4 + ":" + g5 + ":" + g6 + ":"
  {
    TerminatedCons(g6, []);
    TerminatedCons(g5, [g6]);
    TerminatedCons(g4, [g5, g6]);
    TerminatedCons(g3, [g4, g5, g6]);
    TerminatedCons(g2, [g3, g4, g5, g6]);
    TerminatedCons(g1, [g2, g3, g4, g5, g6]);
    TerminatedCons(g0, [g1, g2, g3, g4, g5, g6]);
  }

  /** Seven hex groups each followed by ':', then a last group or a colon,
      inside any text, are accepted. */
  lemma IPv6OfSeven(g0: string, g1: string, g2: string, g3: string, g4: string, g5: string, g6: string,
                    last: string, p: string, q: string)
    requires HexGroup(g0) && HexGroup(g1) && HexGroup(g2) && HexGroup(g3)
    requires HexGroup(g4) && HexGroup(g5) && HexGroup(g6)
    requires HexGroup(last) || last == ":"
    ensures IsIPv6(p + (g0 + ":" + g1 + ":" + g2 + ":" + g3 + ":" + g4 + ":" + g5 + ":" + g6 + ":" + last) + q)
  {
    var gs := [g0, g1, g2, g3, g4, g5, g6];
    TerminatedSeven(g0, g1, g2, g3, g4, g5, g6);
    IPv6OfGroups(gs, last, p, q);
  }

  lemma IPv6Examples()
    ensures IsIPv6("2001:0db8:85a3:0000:0000:8a2e:0370:7334")
  {
    assert HexGroup("2001") && HexGroup("0db8") && HexGroup("85a3") && HexGroup("0000");
    assert HexGroup("8a2e") && HexGroup("0370") && HexGroup("7334");
    IPv6OfSeven("2001", "0db8", "85a3", "0000", "0000", "8a2e", "0370", "7334", "", "");
    FullFormText();
  }

  lemma FullFormText()
    ensures "" + ("2001" + ":" + "0db8" + ":" + "85a3" + ":" + "0000" + ":" + "0000" + ":" + "8a2e" + ":" + "0370" + ":" + "7334") + ""
      == "2001:0db8:85a3:0000:0000:8a2e:0370:7334"
  {
  }

  /** Seven groups and a doubled final colon match. */
  lemma IPv6DoubleColonEnd()
    ensures IsIPv6("1:2:3:4:5:6:7::")
  {
    assert HexGroup("1") && HexGroup("2") && HexGroup("3") && HexGroup("4");
    assert HexGroup("5") && HexGroup("6") && HexGroup("7");
    IPv6OfSeven("1", "2", "3", "4", "5", "6", "7", ":", "", "");
    DoubleColonText();
  }

  lemma DoubleColonText()
    ensures "" + ("1" + ":" + "2" + ":" + "3" + ":" + "4" + ":" + "5" + ":" + "6" + ":" + "7" + ":" + ":") + ""
      == "1:2:3:4:5:6:7::"
  {
  }

  /** An address inside other text matches. */
  lemma IPv6InsideText()
    ensures IsIPv6("ip=1:2:3:4:5:6:7:8;")
  {
    assert HexGroup("1") && HexGroup("2") && HexGroup("3") && HexGroup("4");
    assert HexGroup("5") && HexGroup("6") && HexGroup("7") && HexGroup("8");
    IPv6OfSeven("1", "2", "3", "4", "5", "6", "7", "8", "ip=", ";");
    InsideTextText();
  }

  lemma InsideTextText()
    ensures "ip=" + ("1" + ":" + "2" + ":" + "3" + ":" + "4" + ":" + "5" + ":" + "6" + ":" + "7" + ":" + "8") + ";"
      == "ip=1:2:3:4:5:6:7:8;"
  {
  }

  lemma IPv6Rejections()
    ensures !IsIPv6("::1") && !IsIPv6("2001:db8::1") && !IsIPv6("1:2:3:4:5:6:7:")
  {
    if IsIPv6("::1") { IPv6Necessary("::1"); }
    if IsIPv6("2001:db8::1") { IPv6Necessary("2001:db8::1"); }
    if IsIPv6("1:2:3:4:5:6:7:") { IPv6Necessary("1:2:3:4:5:6:7:"); }
  }

  // ---------------------------------------------------------- MAC address

  /** Every third character, from the third on, is a separator; all the
      others are hex digits. */
  predicate MacPositions(s: string)
  {
    forall i | 0 <= i < |s| :: if i % 3 == 2 then IsMacSeparator(s[i]) else IsHex(s[i])
  }

  lemma {:induction false} MacGroupsPositions(s: string, n: nat)
    ensures MacGroups(s, n) <==> |s| == 3 * n + 2 && MacPositions(s)
    decreases n
  {
    if n > 0 && |s| >= 3 {
      var r := s[3..];
      MacGroupsPositions(r, n - 1);
      assert forall i | 3 <= i < |s| :: s[i] == r[i - 3] && (i - 3) % 3 == i % 3;
      if MacPositions(s) {
        assert MacPositions(r) by {
          forall i | 0 <= i < |r| ensures if i % 3 == 2 then IsMacSeparator(r[i]) else IsHex(r[i]) {
            assert r[i] == s[i + 3] && (i + 3) % 3 == i % 3;
          }
        }
        assert IsHex(s[0]) && IsHex(s[1]) && IsMacSeparator(s[2]);
      }
    }
  }

  /** A MAC address is seventeen characters: six pairs of hex digits with
      ':' or '-' between them, each separator chosen on its own. */
  lemma MacCharacterization(s: string)
    ensures IsMACAddress(s) <==> |s| == 17 && MacPositions(s)
  {
    MacGroupsPositions(s, 5);
  }

  /** Two hex digits and a separator in front of a shorter address. */
  lemma MacCons(h0: char, h1: char, sep: char, r: string, n: nat)
    requires IsHex(h0) && IsHex(h1) && IsMacSeparator(sep) && MacGroups(r, n)
    ensures MacGroups([h0, h1, sep] + r, n + 1)
  {
    var s := [h0, h1, sep] + r;
    assert s[3..] == r;
  }

  lemma MacExample()
    ensures IsMACAddress("00:1A:2B:3C:4D:5E")
  {
    assert MacGroups("5E", 0);
    MacCons('4', 'D', ':', "5E", 0);
    MacCons('3', 'C', ':', "4D:5E", 1);
    MacCons('2', 'B', ':', "3C:4D:5E", 2);
    MacCons('1', 'A', ':', "2B:3C:4D:5E", 3);
    MacCons('0', '0', ':', "1A:2B:3C:4D:5E", 4);
  }

  /** Dashes and lower-case digits are accepted too. */
  lemma MacDashExample()
    ensures IsMACAddress("00-1a-2b-3c-4d-5e")
  {
    assert MacGroups("5e", 0);
    MacCons('4', 'd', '-', "5e", 0);
    MacCons('3', 'c', '-', "4d-5e", 1);
    MacCons('2', 'b', '-', "3c-4d-5e", 2);
    MacCons('1', 'a', '-', "2b-3c-4d-5e", 3);
    MacCons('0', '0', '-', "1a-2b-3c-4d-5e", 4);
  }

  /** Colons and dashes may be mixed. */
  lemma MacMixedSeparators()
    ensures IsMACAddress("00:1A-2B:3C-4D:5E")
  {
    assert MacGroups("5E", 0);
    MacCons('4', 'D', ':', "5E", 0);
    MacCons('3', 'C', '-', "4D:5E", 1);
    MacCons('2', 'B', ':', "3C-4D:5E", 2);
    MacCons('1', 'A', '-', "2B:3C-4D:5E", 3);
    MacCons('0', '0', ':', "1A-2B:3C-4D:5E", 4);
  }

  lemma MacRejections()
    ensures !IsMACAddress("00:1A:2B:3C:4D") && !IsMACAddress("001A.2B3C.4D5E")
    ensures !IsMACAddress("00:1A:2B:3C:4D:5E:")
  {
    MacCharacterization("00:1A:2B:3C:4D");
    MacCharacterization("001A.2B3C.4D5E");
    MacCharacterization("00:1A:2B:3C:4D:5E:");
  }

  lemma MacRejectsNonHex()
    ensures !IsMACAddress("00:1A:2B:3C:4D:5G")
  {
    var s := "00:1A:2B:3C:4D:5G";
    MacCharacterization(s);
    assert !IsHex(s[16]) && 16 % 3 == 1;
  }
}
