/** The character classes the validators' patterns are built from, as
    JavaScript regular expressions without the `u` flag interpret them
    (`\d` is ASCII only, `\s` is the ECMAScript WhiteSpace and
    LineTerminator set, `.` is any character but a line terminator), and
    a few facts about strings over them. */
module CharClasses {

  predicate IsDigit(c: char) { '0' <= c <= '9' }

  predicate IsUpper(c: char) { 'A' <= c <= 'Z' }

  predicate IsLower(c: char) { 'a' <= c <= 'z' }

  /** `[A-Za-z]` */
  predicate IsLetter(c: char) { IsUpper(c) || IsLower(c) }

  /** `[A-Za-z\d]` */
  predicate IsAlnum(c: char) { IsLetter(c) || IsDigit(c) }

  /** `[a-zA-Z0-9_]` */
  predicate IsWordChar(c: char) { IsAlnum(c) || c == '_' }

  /** `[a-z0-9]` */
  predicate IsLowerAlnum(c: char) { IsLower(c) || IsDigit(c) }

  /** `[0-9a-fA-F]` */
  predicate IsHex(c: char) { IsDigit(c) || 'a' <= c <= 'f' || 'A' <= c <= 'F' }

  /** `[A-Za-z\d+\/]`, the base64 alphabet */
  predicate IsBase64Char(c: char) { IsAlnum(c) || c == '+' || c == '/' }

  /** The ECMAScript LineTerminator set: the characters `.` does not match. */
  predicate IsLineTerminator(c: char)
  {
    c == '\n' || c == '\r' || c == '\U{2028}' || c == '\U{2029}'
  }

  /** `\s`: ECMAScript WhiteSpace (tab, vertical tab, form feed, space,
      no-break space, zero-width no-break space and the Zs category) plus
      the line terminators. */
  predicate IsSpace(c: char)
  {
    || IsLineTerminator(c)
    || c == '\t' || c == '\U{000B}' || c == '\U{000C}' || c == ' '
    || c == '\U{00A0}' || c == '\U{1680}' || '\U{2000}' <= c <= '\U{200A}'
    || c == '\U{202F}' || c == '\U{205F}' || c == '\U{3000}' || c == '\U{FEFF}'
  }

  /** `[^\s]` */
  predicate IsNonSpace(c: char) { !IsSpace(c) }

  /** Every character of `s` belongs to the class `p`. */
  predicate All(s: string, p: char -> bool)
  {
    forall i :: 0 <= i < |s| ==> p(s[i])
  }

  /** `s` is a run of exactly `n` characters of the class `p`, as `p{n}`. */
  predicate Run(s: string, p: char -> bool, n: nat)
  {
    |s| == n && All(s, p)
  }

  predicate StartsWith(s: string, prefix: string)
  {
    |prefix| <= |s| && s[..|prefix|] == prefix
  }

  /** The number of occurrences of `c` in `s`. */
  function Count(s: string, c: char): (n: nat)
    ensures n <= |s|
  {
    if s == [] then 0 else (if s[0] == c then 1 else 0) + Count(s[1..], c)
  }

  lemma {:induction false} AllConcat(a: string, b: string, p: char -> bool)
    ensures All(a + b, p) <==> All(a, p) && All(b, p)
  {
    if All(a, p) && All(b, p) {
      forall i | 0 <= i < |a + b| ensures p((a + b)[i]) {
        if i < |a| { assert (a + b)[i] == a[i]; } else { assert (a + b)[i] == b[i - |a|]; }
      }
    }
    if All(a + b, p) {
      forall i | 0 <= i < |a| ensures p(a[i]) { assert (a + b)[i] == a[i]; }
      forall i | 0 <= i < |b| ensures p(b[i]) { assert (a + b)[|a| + i] == b[i]; }
    }
  }

  lemma {:induction false} CountConcat(a: string, b: string, c: char)
    ensures Count(a + b, c) == Count(a, c) + Count(b, c)
  {
    if a == [] {
      assert a + b == b;
    } else {
      assert (a + b)[1..] == a[1..] + b;
      CountConcat(a[1..], b, c);
    }
  }

  /** A string holds no `c` exactly when it counts none. */
  lemma {:induction false} CountZero(s: string, c: char)
    ensures Count(s, c) == 0 <==> forall i :: 0 <= i < |s| ==> s[i] != c
  {
    if s != [] {
      CountZero(s[1..], c);
      assert forall i :: 1 <= i < |s| ==> s[i] == s[1..][i - 1];
    }
  }

  /** A slice never holds more occurrences than the whole string. */
  lemma {:induction false} CountSlice(s: string, i: nat, j: nat, c: char)
    requires i <= j <= |s|
    ensures Count(s[i..j], c) <= Count(s, c)
  {
    assert s == s[..i] + s[i..j] + s[j..];
    CountConcat(s[..i] + s[i..j], s[j..], c);
    CountConcat(s[..i], s[i..j], c);
  }

  /** A slice is all of class `p` exactly when its positions in the whole
      string are. */
  lemma AllSlice(s: string, a: nat, b: nat, p: char -> bool)
    requires a <= b <= |s|
    ensures All(s[a..b], p) <==> forall k | a <= k < b :: p(s[k])
  {
    assert forall k | a <= k < b :: s[k] == s[a..b][k - a];
  }

  /** A string is all of class `p` when the parts around one position and
      that position are. */
  lemma AllAround(s: string, i: nat, p: char -> bool)
    requires i < |s|
    ensures All(s, p) <==> All(s[..i], p) && p(s[i]) && All(s[i + 1..], p)
  {
    if All(s[..i], p) && p(s[i]) && All(s[i + 1..], p) {
      forall k | 0 <= k < |s| ensures p(s[k]) {
        if k < i { assert s[k] == s[..i][k]; }
        else if k > i { assert s[k] == s[i + 1..][k - i - 1]; }
      }
    }
  }

  /** The count of `c` in the parts around one position and at it. */
  lemma CountAt(s: string, i: nat, c: char)
    requires i < |s|
    ensures Count(s, c) == Count(s[..i], c) + Count([s[i]], c) + Count(s[i + 1..], c)
  {
    assert s == s[..i] + [s[i]] + s[i + 1..];
    CountConcat(s[..i] + [s[i]], s[i + 1..], c);
    CountConcat(s[..i], [s[i]], c);
  }

  /** Strings, each followed by the separator `sep`: the ISBN groups with
      their separators, and the IPv6 groups with their colons. */
  function Terminated(gs: seq<string>, sep: char): string
    decreases |gs|
  {
    if gs == [] then "" else gs[0] + [sep] + Terminated(gs[1..], sep)
  }
}
