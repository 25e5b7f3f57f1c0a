/** Properties of the validators for encoded data: base64, hexadecimal
    strings, hex colours and UUIDs. Each is paired with the encoder whose
    output it accepts. */
module EncodingProps {
  import opened CharClasses
  import opened Validators

  type Byte = b: int | 0 <= b < 256

  // ---------------------------------------------------------- Hexadecimal

  function HexValue(c: char): (v: nat)
    requires IsHex(c)
    ensures v < 16
  {
    if IsDigit(c) then c as int - '0' as int
    else if 'a' <= c <= 'f' then c as int - 'a' as int + 10
    else c as int - 'A' as int + 10
  }

  /** The upper-case hex digit of a value below sixteen. */
  function HexChar(v: nat): (c: char)
    requires v < 16
    ensures IsHex(c) && HexValue(c) == v
  {
    if v < 10 then ('0' as int + v) as char else ('A' as int + v - 10) as char
  }

  /** A hexadecimal string of a length divisible by four is also base64:
      every hex digit is in the base64 alphabet. */
  lemma HexadecimalIsBase64(s: string)
    requires IsHexadecimal(s) && |s| % 4 == 0
    ensures IsBase64(s)
  {
    Base64Characterization(s);
  }

  // ------------------------------------------------------------ Hex color

  /** A colour's red, green and blue components as "#RRGGBB". */
  function FormatHexColor(r: Byte, g: Byte, b: Byte): (s: string)
    ensures |s| == 7
  {
    ['#', HexChar(r / 16), HexChar(r % 16), HexChar(g / 16), HexChar(g % 16), HexChar(b / 16), HexChar(b % 16)]
  }

  /** The components of a hex colour. */
  function ParseHexColor(s: string): (rgb: (Byte, Byte, Byte))
    requires IsHexColor(s)
  {
    (16 * HexValue(s[1]) + HexValue(s[2]),
     16 * HexValue(s[3]) + HexValue(s[4]),
     16 * HexValue(s[5]) + HexValue(s[6]))
  }

  /** Every formatted colour is accepted and reads back as itself. */
  lemma FormatHexColorParses(r: Byte, g: Byte, b: Byte)
    ensures IsHexColor(FormatHexColor(r, g, b))
    ensures ParseHexColor(FormatHexColor(r, g, b)) == (r, g, b)
  {
    var s := FormatHexColor(r, g, b);
    assert forall i | 1 <= i < 7 :: IsHex(s[i]);
    assert forall i | 0 <= i < 6 :: s[1..][i] == s[i + 1];
  }

  /** A hex colour is '#' followed by a hexadecimal string of six digits,
      in either case. */
  lemma HexColorCharacterization(s: string)
    ensures IsHexColor(s) <==> |s| == 7 && s[0] == '#' && IsHexadecimal(s[1..])
  {
  }

  /** An upper-case hex digit is the digit of its own value. */
  lemma HexCharOfValue(c: char)
    requires IsHex(c) && !('a' <= c <= 'f')
    ensures HexChar(HexValue(c)) == c
  {
  }

  lemma SplitByte(hi: nat, lo: nat)
    requires hi < 16 && lo < 16
    ensures (16 * hi + lo) / 16 == hi && (16 * hi + lo) % 16 == lo
  {
  }

  /** Formatting a parsed colour written in upper case gives it back. */
  lemma {:induction false} ParseHexColorFormats(s: string)
    requires IsHexColor(s) && forall i | 0 <= i < |s| :: !('a' <= s[i] <= 'f')
    ensures var (r, g, b) := ParseHexColor(s); FormatHexColor(r, g, b) == s
  {
    assert forall i | 1 <= i < 7 :: IsHex(s[i]) by {
      assert forall i | 1 <= i < 7 :: s[i] == s[1..][i - 1];
    }
    var (r, g, b) := ParseHexColor(s);
    SplitByte(HexValue(s[1]), HexValue(s[2]));
    SplitByte(HexValue(s[3]), HexValue(s[4]));
    SplitByte(HexValue(s[5]), HexValue(s[6]));
    HexCharOfValue(s[1]);
    HexCharOfValue(s[2]);
    HexCharOfValue(s[3]);
    HexCharOfValue(s[4]);
    HexCharOfValue(s[5]);
    HexCharOfValue(s[6]);
  }

  lemma HexColorExamples()
    ensures IsHexColor("#1A2B3C") && IsHexColor("#ffffff")
    ensures !IsHexColor("#1A2") && !IsHexColor("123456") && !IsHexColor("#GGGGGG")
  {
    assert !IsHex("#GGGGGG"[1..][0]);
  }

  // --------------------------------------------------------------- Base64

  /** The last two characters of a non-empty base64 string: two alphabet
      characters, an alphabet character and '=', or "==". */
  predicate PadTail(x: char, y: char)
  {
    (IsBase64Char(x) && (IsBase64Char(y) || y == '=')) || (x == '=' && y == '=')
  }

  /** The base64 rule stated over characters: a multiple of four long,
      every character but the last two in the alphabet, and the last two
      allowing padding. */
  predicate Base64Shape(s: string)
  {
    && |s| % 4 == 0
    && (|s| >= 4 ==> All(s[..|s| - 2], IsBase64Char) && PadTail(s[|s| - 2], s[|s| - 1]))
  }

  lemma {:induction false} Base64Forward(s: string)
    requires IsBase64(s)
    ensures Base64Shape(s)
    decreases |s|
  {
    var n := |s|;
    if s == [] {
    } else if Base64Padded(s) {
      assert forall i | 0 <= i < 2 :: s[..2][i] == s[i];
    } else {
      var r := s[4..];
      Base64Forward(r);
      if r == [] {
        assert forall i | 0 <= i < 2 :: s[..2][i] == s[..4][i];
        assert s[2] == s[..4][2] && s[3] == s[..4][3];
      } else {
        var m := |r|;
        assert s[..n - 2] == s[..4] + r[..m - 2];
        AllConcat(s[..4], r[..m - 2], IsBase64Char);
        assert s[n - 2] == r[m - 2] && s[n - 1] == r[m - 1];
      }
    }
  }

  lemma {:induction false} Base64Backward(s: string)
    requires Base64Shape(s)
    ensures IsBase64(s)
    decreases |s|
  {
    if |s| == 4 {
      ShapeOfFour(s);
    } else if |s| >= 8 {
      ShapeTail(s);
      Base64Backward(s[4..]);
    }
  }

  /** Four characters of the base64 shape are a quad or a padded group. */
  lemma ShapeOfFour(s: string)
    requires Base64Shape(s) && |s| == 4
    ensures IsBase64(s)
  {
    if IsBase64Char(s[2]) && IsBase64Char(s[3]) {
      assert forall i | 0 <= i < 4 :: s[..4][i] == s[i] && (i < 2 ==> s[i] == s[..2][i]);
      assert s[4..] == [];
    } else {
      assert s[0] == s[..2][0] && s[1] == s[..2][1];
    }
  }

  /** A longer string of the base64 shape starts with a quad, and the rest
      has the shape. */
  lemma ShapeTail(s: string)
    requires Base64Shape(s) && |s| >= 8
    ensures Base64Quad(s[..4]) && Base64Shape(s[4..])
  {
    var n := |s|;
    var r := s[4..];
    var m := |r|;
    AllSlice(s, 0, n - 2, IsBase64Char);
    assert forall i | 0 <= i < 4 :: s[..4][i] == s[i];
    assert r[..m - 2] == s[4..n - 2];
    AllSlice(s, 4, n - 2, IsBase64Char);
    assert r[m - 2] == s[n - 2] && r[m - 1] == s[n - 1];
  }

  /** A string is accepted exactly when it has the base64 shape; the empty
      string has it. */
  lemma Base64Characterization(s: string)
    ensures IsBase64(s) <==> Base64Shape(s)
  {
    if IsBase64(s) { Base64Forward(s); }
    if Base64Shape(s) { Base64Backward(s); }
  }

  /** Every accepted string is a multiple of four characters long. */
  lemma Base64Length(s: string)
    requires IsBase64(s)
    ensures |s| % 4 == 0
  {
    Base64Forward(s);
  }

  /** The base64 digit of a six-bit value. */
  function Base64Digit(v: nat): (c: char)
    requires v < 64
    ensures IsBase64Char(c)
  {
    if v < 26 then ('A' as int + v) as char
    else if v < 52 then ('a' as int + v - 26) as char
    else if v < 62 then ('0' as int + v - 52) as char
    else if v == 62 then '+'
    else '/'
  }

  /** Three bytes as four base64 digits. */
  function EncodeGroup(x: Byte, y: Byte, z: Byte): (q: string)
    ensures Base64Quad(q)
  {
    [Base64Digit(x / 4), Base64Digit(x % 4 * 16 + y / 16), Base64Digit(y % 16 * 4 + z / 64), Base64Digit(z % 64)]
  }

  /** The last one or two bytes as a padded group. */
  function EncodeLast(b: seq<Byte>): (q: string)
    requires 1 <= |b| <= 2
    ensures Base64Padded(q)
  {
    if |b| == 1 then [Base64Digit(b[0] / 4), Base64Digit(b[0] % 4 * 16), '=', '=']
    else [Base64Digit(b[0] / 4), Base64Digit(b[0] % 4 * 16 + b[1] / 16), Base64Digit(b[1] % 16 * 4), '=']
  }

  /** Standard base64 encoding with padding: three bytes become four
      digits, and a last one or two bytes become a padded group. Every
      encoding is accepted. */
  function Encode(b: seq<Byte>): (s: string)
    ensures |s| == 4 * ((|b| + 2) / 3)
    ensures IsBase64(s)
    decreases |b|
  {
    if |b| == 0 then ""
    else if |b| <= 2 then EncodeLast(b)
    else
      var q := EncodeGroup(b[0], b[1], b[2]);
      var s := q + Encode(b[3..]);
      assert s[..4] == q && s[4..] == Encode(b[3..]);
      s
  }

  lemma Base64Examples()
    ensures IsBase64("") && IsBase64("QQ==") && IsBase64("SGk=")
  {
    assert Encode([65]) == "QQ==";
    assert Encode([72, 105]) == "SGk=";
  }

  lemma Base64LongerExample()
    ensures IsBase64("SGVsbG8=")
  {
    var s := "SGVsbG8=";
    assert s[..4] == "SGVs" && s[4..] == "bG8=";
  }

  lemma Base64Rejections()
    ensures !IsBase64("SGVsbG8") && !IsBase64("====") && !IsBase64("QQ=A")
  {
    Base64Characterization("SGVsbG8");
    Base64Characterization("====");
    assert !IsBase64Char("===="[..2][0]);
    Base64Characterization("QQ=A");
  }

  // ----------------------------------------------------------------- UUID

  /** The 32 hex digits of a UUID in the 8-4-4-4-12 grouping. */
  function UuidFromHex(h: string): (s: string)
    requires |h| == 32
    ensures |s| == 36
  {
    h[..8] + "-" + h[8..12] + "-" + h[12..16] + "-" + h[16..20] + "-" + h[20..]
  }

  /** A UUID without its dashes. */
  function UuidHex(s: string): (h: string)
    requires IsUUID(s)
    ensures |h| == 32
  {
    s[..8] + s[9..13] + s[14..18] + s[19..23] + s[24..]
  }

  /** Grouping 32 hex digits gives a UUID, and removing the dashes gives
      the digits back. */
  lemma {:induction false} UuidFromHexAccepted(h: string)
    requires |h| == 32 && IsHexadecimal(h)
    ensures IsUUID(UuidFromHex(h))
    ensures UuidHex(UuidFromHex(h)) == h
  {
    var s := UuidFromHex(h);
    assert s[..8] == h[..8];
    assert s[9..13] == h[8..12];
    assert s[14..18] == h[12..16];
    assert s[19..23] == h[16..20];
    assert s[24..] == h[20..];
    AllSlice(h, 0, 8, IsHex);
    AllSlice(h, 8, 12, IsHex);
    AllSlice(h, 12, 16, IsHex);
    AllSlice(h, 16, 20, IsHex);
    AllSlice(h, 20, 32, IsHex);
    assert h == h[..8] + h[8..12] + h[12..16] + h[16..20] + h[20..];
  }

  /** The digits of a UUID are 32 hex digits, and grouping them gives the
      UUID back. */
  lemma {:induction false} UuidHexGroups(s: string)
    requires IsUUID(s)
    ensures IsHexadecimal(UuidHex(s))
    ensures UuidFromHex(UuidHex(s)) == s
  {
    var h := UuidHex(s);
    AllConcat(s[..8], s[9..13], IsHex);
    AllConcat(s[..8] + s[9..13], s[14..18], IsHex);
    AllConcat(s[..8] + s[9..13] + s[14..18], s[19..23], IsHex);
    AllConcat(s[..8] + s[9..13] + s[14..18] + s[19..23], s[24..], IsHex);
    assert h[..8] == s[..8];
    assert h[8..12] == s[9..13];
    assert h[12..16] == s[14..18];
    assert h[16..20] == s[19..23];
    assert h[20..] == s[24..];
    assert s == s[..8] + "-" + s[9..13] + "-" + s[14..18] + "-" + s[19..23] + "-" + s[24..];
  }

  /** Five hex groups of 8, 4, 4, 4 and 12 digits joined by '-' make a
      UUID. */
  lemma UuidOfGroups(a: string, b: string, c: string, d: string, e: string)
    requires Run(a, IsHex, 8) && Run(b, IsHex, 4) && Run(c, IsHex, 4)
    requires Run(d, IsHex, 4) && Run(e, IsHex, 12)
    ensures IsUUID(a + "-" + b + "-" + c + "-" + d + "-" + e)
  {
    var s := a + "-" + b + "-" + c + "-" + d + "-" + e;
    assert s[..8] == a;
    assert s[9..13] == b;
    assert s[14..18] == c;
    assert s[19..23] == d;
    assert s[24..] == e;
  }

  lemma UuidExampleGroups()
    ensures Run("123e4567", IsHex, 8)
    ensures Run("e89b", IsHex, 4) && Run("12d3", IsHex, 4) && Run("a456", IsHex, 4)
    ensures Run("426614174000", IsHex, 12)
  {
  }

  lemma UuidExampleText()
    ensures "123e4567" + "-" + "e89b" + "-" + "12d3" + "-" + "a456" + "-" + "426614174000"
      == "123e4567-e89b-12d3-a456-426614174000"
  {
  }

  lemma UuidExample()
    ensures IsUUID("123e4567-e89b-12d3-a456-426614174000")
  {
    UuidExampleGroups();
    UuidOfGroups("123e4567", "e89b", "12d3", "a456", "426614174000");
    UuidExampleText();
  }

  /** The dashes are required. */
  lemma UuidRejectsUndashed()
    ensures !IsUUID("123e4567e89b12d3a456426614174000")
  {
  }

  lemma UuidRejectsNonHex()
    ensures !IsUUID("123e4567-e89b-12d3-a456-42661417400g")
  {
    var t := "123e4567-e89b-12d3-a456-42661417400g";
    assert t[24..][11] == 'g';
  }
}
