/** Properties of the validators for names people choose: slugs,
    usernames, Twitter handles, passwords, country codes and genders. */
module IdentityProps {
  import opened CharClasses
  import opened Options
  import opened Validators

  // ----------------------------------------------------------------- Slug

  predicate IsSlugChar(c: char) { IsLowerAlnum(c) || c == '-' }

  /** No '-' is directly followed by another '-'. */
  predicate NoDoubleDash(s: string)
  {
    forall i | 0 <= i < |s| - 1 :: !(s[i] == '-' && s[i + 1] == '-')
  }

  /** The slug rule stated over characters: non-empty, only [a-z0-9-],
      no '-' at either end and never two in a row. */
  predicate SlugShape(s: string)
  {
    |s| > 0 && All(s, IsSlugChar) && s[0] != '-' && s[|s| - 1] != '-' && NoDoubleDash(s)
  }

  /** The same rule for what follows the first segment: empty, or starting
      with '-' and not ending with one. */
  predicate TailShape(t: string)
  {
    All(t, IsSlugChar) && NoDoubleDash(t) && (t != [] ==> t[0] == '-' && t[|t| - 1] != '-')
  }

  /** The first index from `i` on that holds a '-', or the length. */
  function NextDash(t: string, i: nat): (k: nat)
    requires i <= |t|
    ensures i <= k <= |t|
    ensures forall j | i <= j < k :: t[j] != '-'
    ensures k < |t| ==> t[k] == '-'
    decreases |t| - i
  {
    if i == |t| || t[i] == '-' then i else NextDash(t, i + 1)
  }

  /** Characters of a segment and its tail put together keep the shape. */
  lemma {:induction false} SegmentThenTail(t: string, i: nat, k: nat)
    requires i <= 1 && i < k <= |t|
    requires forall j | 0 <= j < i :: IsSlugChar(t[j])
    requires forall j | i <= j < k :: IsLowerAlnum(t[j])
    requires TailShape(t[k..])
    ensures All(t, IsSlugChar) && NoDoubleDash(t) && t[|t| - 1] != '-'
  {
    var rest := t[k..];
    assert forall j | k <= j < |t| :: t[j] == rest[j - k];
    assert IsLowerAlnum(t[k - 1]);
  }

  lemma {:induction false} SlugTailForward(t: string)
    requires SlugTail(t)
    ensures TailShape(t)
    decreases |t|
  {
    if t != [] {
      var k :| 2 <= k <= |t| && t[0] == '-' && All(t[1..k], IsLowerAlnum) && SlugTail(t[k..]);
      SlugTailForward(t[k..]);
      assert forall j | 1 <= j < k :: t[j] == t[1..k][j - 1];
      SegmentThenTail(t, 1, k);
    }
  }

  lemma {:induction false} SlugTailBackward(t: string)
    requires TailShape(t)
    ensures SlugTail(t)
    decreases |t|
  {
    if t != [] {
      assert t[1] != '-' && |t| >= 2;
      var k := NextDash(t, 1);
      var rest := t[k..];
      assert forall j | 0 <= j < |rest| :: rest[j] == t[k + j];
      assert TailShape(rest);
      SlugTailBackward(rest);
      assert forall j | 1 <= j < k :: t[1..k][j - 1] == t[j];
      assert All(t[1..k], IsLowerAlnum);
    }
  }

  /** The repeated "-segment" part matches exactly the strings of the tail
      shape. */
  lemma SlugTailShape(t: string)
    ensures SlugTail(t) <==> TailShape(t)
  {
    if SlugTail(t) { SlugTailForward(t); }
    if TailShape(t) { SlugTailBackward(t); }
  }

  /** A slug is a non-empty string over [a-z0-9-] that neither starts nor
      ends with '-' and never holds "--". */
  lemma {:induction false} SlugCharacterization(s: string)
    ensures IsSlug(s) <==> SlugShape(s)
  {
    if IsSlug(s) {
      var k :| 1 <= k <= |s| && All(s[..k], IsLowerAlnum) && SlugTail(s[k..]);
      SlugTailForward(s[k..]);
      assert forall j | 0 <= j < k :: s[j] == s[..k][j];
      SegmentThenTail(s, 0, k);
    }
    if SlugShape(s) {
      var k := NextDash(s, 0);
      var rest := s[k..];
      assert forall j | 0 <= j < |rest| :: rest[j] == s[k + j];
      assert TailShape(rest);
      SlugTailBackward(rest);
      assert forall j | 0 <= j < k :: s[..k][j] == s[j];
      assert All(s[..k], IsLowerAlnum);
    }
  }

  lemma SlugExample()
    ensures IsSlug("hello-world-123")
  {
    SlugCharacterization("hello-world-123");
  }

  lemma SlugRejections()
    ensures !IsSlug("Hello-World") && !IsSlug("-hello") && !IsSlug("hello-") && !IsSlug("")
  {
    SlugCharacterization("Hello-World");
    SlugCharacterization("-hello");
    SlugCharacterization("hello-");
  }

  lemma SlugRejectsDoubleDash()
    ensures !IsSlug("hello--world")
  {
    SlugCharacterization("hello--world");
    assert "hello--world"[5] == '-' && "hello--world"[6] == '-';
  }

  // ------------------------------------------- Username and Twitter handle

  /** A Twitter handle is '@' followed by one to fifteen of the characters
      a username is made of. */
  lemma TwitterHandleOfName(u: string)
    ensures IsTwitterHandle("@" + u) <==> 1 <= |u| <= 15 && All(u, IsWordChar)
  {
    assert ("@" + u)[1..] == u;
  }

  /** Every username of at most fifteen characters, prefixed with '@', is a
      Twitter handle; and the name of every handle of at least three
      characters after the '@' is a username. */
  lemma UsernameHandle(s: string)
    ensures IsUsername(s) && |s| <= 15 ==> IsTwitterHandle("@" + s)
    ensures IsTwitterHandle(s) && |s| >= 4 ==> IsUsername(s[1..])
  {
    TwitterHandleOfName(s);
  }

  lemma UsernameExamples()
    ensures IsUsername("user_01") && IsUsername("abc") && !IsUsername("ab")
    ensures !IsUsername("seventeen_chars_x") && !IsUsername("user-1")
    ensures IsTwitterHandle("@jack") && !IsTwitterHandle("@") && !IsTwitterHandle("jack")
    ensures !IsTwitterHandle("@sixteen_chars_xy")
    ensures IsUsername("sixteen_chars_xy") && IsTwitterHandle("@fifteen_chars_x")
  {
    assert "user-1"[4] == '-';
  }

  // ------------------------------------------------------------- Password

  /** A password has at least eight characters, only ASCII letters and
      digits, at least one letter and at least one digit. The lookaheads
      scan past any characters but line terminators, and no letter or digit
      is one, so they amount to "somewhere in the string". */
  lemma PasswordCharacterization(s: string)
    ensures IsPassword(s) <==>
      && |s| >= 8 && All(s, IsAlnum)
      && (exists i | 0 <= i < |s| :: IsLetter(s[i]))
      && (exists i | 0 <= i < |s| :: IsDigit(s[i]))
  {
    if && |s| >= 8 && All(s, IsAlnum)
       && (exists i | 0 <= i < |s| :: IsLetter(s[i]))
       && (exists i | 0 <= i < |s| :: IsDigit(s[i]))
    {
      var i :| 0 <= i < |s| && IsLetter(s[i]);
      var d :| 0 <= d < |s| && IsDigit(s[d]);
      assert forall j | 0 <= j < |s| :: !IsLineTerminator(s[j]) by {
        forall j | 0 <= j < |s| ensures !IsLineTerminator(s[j]) { assert IsAlnum(s[j]); }
      }
      assert LooksAheadTo(s, IsLetter) by { assert IsLetter(s[i]); }
      assert LooksAheadTo(s, IsDigit) by { assert IsDigit(s[d]); }
    }
  }

  /** A password of at most sixteen characters is also a username. */
  lemma PasswordIsUsername(s: string)
    requires IsPassword(s) && |s| <= 16
    ensures IsUsername(s)
  {
  }

  /** Letters alone never make a password, nor do digits alone. */
  lemma PasswordNeedsBoth(s: string)
    ensures All(s, IsLetter) ==> !IsPassword(s)
    ensures All(s, IsDigit) ==> !IsPassword(s)
  {
    PasswordCharacterization(s);
  }

  lemma PasswordExample()
    ensures IsPassword("abc12345")
  {
    var s := "abc12345";
    assert IsLetter(s[0]) && IsDigit(s[3]);
    PasswordCharacterization(s);
  }

  lemma PasswordRejectsLetters()
    ensures !IsPassword("abcdefgh")
  {
    PasswordNeedsBoth("abcdefgh");
  }

  lemma PasswordRejectsDigits()
    ensures !IsPassword("12345678")
  {
    PasswordNeedsBoth("12345678");
  }

  /** Seven characters are too few, even with a letter and a digit. */
  lemma PasswordRejectsShort()
    ensures !IsPassword("abc1234")
  {
  }

  // --------------------------------------------------------- Country code

  function UpperChar(c: char): char
  {
    if IsLower(c) then (c as int - 'a' as int + 'A' as int) as char else c
  }

  /** ASCII upper-casing, leaving every other character alone. */
  function AsciiUpper(s: string): (u: string)
    ensures |u| == |s|
    ensures forall i | 0 <= i < |s| :: u[i] == UpperChar(s[i])
  {
    seq(|s|, i requires 0 <= i < |s| => UpperChar(s[i]))
  }

  /** Upper-casing any two ASCII letters gives a country code, no other
      string becomes one, and country codes are left as they are. */
  lemma CountryCodeOfUpper(s: string)
    ensures IsCountryCode(AsciiUpper(s)) <==> |s| == 2 && All(s, IsLetter)
    ensures IsCountryCode(s) ==> AsciiUpper(s) == s
  {
    var u := AsciiUpper(s);
    if IsCountryCode(u) {
      assert IsUpper(u[0]) && IsUpper(u[1]);
      assert IsLetter(s[0]) && IsLetter(s[1]);
    }
  }

  lemma CountryCodeExamples()
    ensures IsCountryCode("US") && !IsCountryCode("us") && !IsCountryCode("USA") && !IsCountryCode("U")
  {
    assert !IsUpper("us"[0]);
  }

  // --------------------------------------------------------------- Gender

  /** The four gender values as an enumeration. */
  datatype GenderValue = Male | Female | NonBinary | Other

  function GenderName(g: GenderValue): (s: string)
    ensures IsGender(s)
  {
    match g
    case Male => "male"
    case Female => "female"
    case NonBinary => "non-binary"
    case Other => "other"
  }

  /** The gender value a string names, if any. */
  function ParseGender(s: string): (r: Option<GenderValue>)
    ensures r.Some? <==> IsGender(s)
    ensures r.Some? ==> GenderName(r.value) == s
  {
    if s == "male" then Some(Male)
    else if s == "female" then Some(Female)
    else if s == "non-binary" then Some(NonBinary)
    else if s == "other" then Some(Other)
    else None
  }

  /** Naming a gender value and reading the name back gives the value:
      the names are distinct. */
  lemma GenderRoundTrip(g: GenderValue)
    ensures ParseGender(GenderName(g)) == Some(g)
  {
  }

  /** The accepted strings are exactly the four names. */
  lemma GenderCharacterization(s: string)
    ensures IsGender(s) <==> exists g: GenderValue :: GenderName(g) == s
  {
    if IsGender(s) {
      assert GenderName(ParseGender(s).value) == s;
    }
  }

  lemma GenderExamples()
    ensures IsGender("female") && IsGender("non-binary")
    ensures !IsGender("Female") && !IsGender("nonbinary") && !IsGender("")
  {
  }
}
