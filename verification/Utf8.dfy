/**
 UTF-8 as section 4 of RFC 3629 defines it, and the decoder and text test of the workspace reader.
 A text is safe when it is well-formed, holds no NUL and at most 2% control characters.
 */
module Utf8 {
  import opened Sequences

  type byte = b: int | 0 <= b < 256

  const RUNE_ERROR := 0xFFFD
  const LINE_FEED: byte := 10

  // ---------------------------------------------------------------- the grammar

  predicate IsTail(b: byte) { 0x80 <= b <= 0xBF }

  predicate IsUtf8Three(a: byte, b: byte, c: byte) {
    IsTail(c) &&
    ((a == 0xE0 && 0xA0 <= b <= 0xBF) || (0xE1 <= a <= 0xEC && IsTail(b)) ||
     (a == 0xED && 0x80 <= b <= 0x9F) || (0xEE <= a <= 0xEF && IsTail(b)))
  }

  predicate IsUtf8Four(a: byte, b: byte, c: byte, d: byte) {
    IsTail(c) && IsTail(d) &&
    ((a == 0xF0 && 0x90 <= b <= 0xBF) || (0xF1 <= a <= 0xF3 && IsTail(b)) || (a == 0xF4 && 0x80 <= b <= 0x8F))
  }

  /** One UTF8-char of the RFC's grammar. */
  predicate IsChar(s: seq<byte>) {
    || (|s| == 1 && s[0] <= 0x7F)
    || (|s| == 2 && 0xC2 <= s[0] <= 0xDF && IsTail(s[1]))
    || (|s| == 3 && IsUtf8Three(s[0], s[1], s[2]))
    || (|s| == 4 && IsUtf8Four(s[0], s[1], s[2], s[3]))
  }

  /** UTF8-octets: a sequence of UTF8-chars. */
  predicate WellFormed(s: seq<byte>)
    decreases |s|
  {
    s == [] || exists k | 1 <= k <= 4 && k <= |s| :: IsChar(s[..k]) && WellFormed(s[k..])
  }

  // ---------------------------------------------------------------- the decoder

  datatype Decoded = Decoded(rune: int, size: nat)

  /** The number of bytes that a first byte announces, and the range it accepts for the second byte. */
  datatype First = BadFirst | First(size: nat, low: byte, high: byte)

  function FirstOf(b: byte): First {
    if b < 0x80 then First(1, 0x80, 0xBF)
    else if b < 0xC2 then BadFirst
    else if b <= 0xDF then First(2, 0x80, 0xBF)
    else if b == 0xE0 then First(3, 0xA0, 0xBF)
    else if b == 0xED then First(3, 0x80, 0x9F)
    else if b <= 0xEF then First(3, 0x80, 0xBF)
    else if b == 0xF0 then First(4, 0x90, 0xBF)
    else if b <= 0xF3 then First(4, 0x80, 0xBF)
    else if b == 0xF4 then First(4, 0x80, 0x8F)
    else BadFirst
  }

  /** The payload of a byte whose marker bits are `mark`. */
  function Low(b: byte, mark: int): int {
    b as int - mark
  }

  /** The first rune of a text; a byte that starts no rune decodes as the error rune of size 1. */
  function DecodeRune(s: seq<byte>): (d: Decoded)
    ensures s != [] ==> 1 <= d.size <= |s| && d.size <= 4
  {
    var error := Decoded(RUNE_ERROR, 1);
    if s == [] then Decoded(RUNE_ERROR, 0)
    else
      match FirstOf(s[0])
      case BadFirst => error
      case First(size, low, high) =>
        if size == 1 then Decoded(s[0], 1)
        else if |s| < size || s[1] < low || high < s[1] then error
        else if size == 2 then Decoded(Low(s[0], 0xC0) * 64 + Low(s[1], 0x80), 2)
        else if !IsTail(s[2]) then error
        else if size == 3 then Decoded(Low(s[0], 0xE0) * 4096 + Low(s[1], 0x80) * 64 + Low(s[2], 0x80), 3)
        else if !IsTail(s[3]) then error
        else Decoded(Low(s[0], 0xF0) * 262144 + Low(s[1], 0x80) * 4096 + Low(s[2], 0x80) * 64 + Low(s[3], 0x80), 4)
  }

  predicate IsError(d: Decoded) {
    d.rune == RUNE_ERROR && d.size == 1
  }

  predicate IsControl(rune: int) {
    rune < 0x20 && rune != 10 && rune != 13 && rune != 9 && rune != 12
  }

  /** The number of runes and of control characters in a text, when every byte decodes. */
  datatype Tally = Invalid | Tally(runes: nat, controls: nat)

  function Plus(a: Tally, b: Tally): Tally {
    if a.Invalid? || b.Invalid? then Invalid else Tally(a.runes + b.runes, a.controls + b.controls)
  }

  function TallyOf(s: seq<byte>): Tally {
    TallyBy(s, DecodeRune)
  }

  /** The count for any decoder; a decoder that does not advance counts as an error. */
  function TallyBy(s: seq<byte>, decode: seq<byte> -> Decoded): Tally
    decreases |s|
  {
    if s == [] then Tally(0, 0)
    else
      var d := decode(s);
      if IsError(d) || d.size == 0 || d.size > |s| then Invalid
      else Plus(Tally(1, if IsControl(d.rune) then 1 else 0), TallyBy(s[d.size..], decode))
  }

  lemma DecodesChar(s: seq<byte>, k: nat)
    requires 1 <= k <= 4 && k <= |s| && IsChar(s[..k])
    ensures DecodeRune(s).size == k && !IsError(DecodeRune(s))
  {}

  lemma DecodedIsChar(s: seq<byte>)
    requires s != [] && !IsError(DecodeRune(s))
    ensures IsChar(s[..DecodeRune(s).size])
  {}

  predicate IsScalar(rune: int) {
    0 <= rune < 0xD800 || 0xE000 <= rune <= 0x10FFFF
  }

  /** The bytes of a character number, by section 3 of RFC 3629. */
  function EncodeRune(rune: int): seq<byte>
    requires IsScalar(rune)
  {
    if rune < 0x80 then [rune]
    else if rune < 0x800 then [0xC0 + rune / 64, 0x80 + rune % 64]
    else if rune < 0x1_0000 then [0xE0 + rune / 4096, 0x80 + rune / 64 % 64, 0x80 + rune % 64]
    else [0xF0 + rune / 262144, 0x80 + rune / 4096 % 64, 0x80 + rune / 64 % 64, 0x80 + rune % 64]
  }

  lemma SplitNumber(rune: int)
    ensures rune == rune / 64 * 64 + rune % 64
    ensures rune / 64 == rune / 4096 * 64 + rune / 64 % 64
    ensures rune / 4096 == rune / 262144 * 64 + rune / 4096 % 64
  {}

  /** An encoded character decodes, whatever stands behind it. */
  lemma DecodesEncoded(rune: int, rest: seq<byte>)
    requires IsScalar(rune)
    ensures DecodeRune(EncodeRune(rune) + rest) == Decoded(rune, |EncodeRune(rune)|)
  {
    SplitNumber(rune);
    var code := EncodeRune(rune);
    assert forall i | 0 <= i < |code| :: (code + rest)[i] == code[i];
    if rune >= 0x1_0000 {
      DecodesFour(code, code + rest);
    } else if rune >= 0x800 {
      DecodesThree(code, code + rest);
    }
  }

  lemma DecodesThree(code: seq<byte>, s: seq<byte>)
    requires |code| == 3 && IsChar(code) && 3 <= |s| && s[0] == code[0] && s[1] == code[1] && s[2] == code[2]
    ensures DecodeRune(s) == Decoded(Low(code[0], 0xE0) * 4096 + Low(code[1], 0x80) * 64 + Low(code[2], 0x80), 3)
  {}

  lemma DecodesFour(code: seq<byte>, s: seq<byte>)
    requires |code| == 4 && IsChar(code) && 4 <= |s| && s[0] == code[0] && s[1] == code[1] && s[2] == code[2] && s[3] == code[3]
    ensures DecodeRune(s)
         == Decoded(Low(code[0], 0xF0) * 262144 + Low(code[1], 0x80) * 4096 + Low(code[2], 0x80) * 64 + Low(code[3], 0x80), 4)
  {}

  lemma EncodesTwo(a: int, b: int)
    requires 2 <= a < 32 && 0 <= b < 64
    ensures EncodeRune(a * 64 + b) == [0xC0 + a, 0x80 + b]
  {}

  lemma EncodesThree(a: int, b: int, c: int)
    requires 0 <= a < 16 && 0 <= b < 64 && 0 <= c < 64 && 32 <= a * 64 + b && !(0x360 <= a * 64 + b < 0x380)
    ensures IsScalar(a * 4096 + b * 64 + c) && EncodeRune(a * 4096 + b * 64 + c) == [0xE0 + a, 0x80 + b, 0x80 + c]
  {
    assert (a * 4096 + b * 64 + c) / 64 == a * 64 + b;
  }

  lemma EncodesFour(a: int, b: int, c: int, d: int)
    requires 0 <= b < 64 && 0 <= c < 64 && 0 <= d < 64 && 16 <= a * 64 + b < 0x110
    ensures IsScalar(a * 262144 + b * 4096 + c * 64 + d)
    ensures EncodeRune(a * 262144 + b * 4096 + c * 64 + d) == [0xF0 + a, 0x80 + b, 0x80 + c, 0x80 + d]
  {
    var rune := a * 262144 + b * 4096 + c * 64 + d;
    assert rune / 64 == a * 4096 + b * 64 + c;
    assert rune / 4096 == a * 64 + b;
  }

  /** What decodes is a character number and stands there encoded. */
  lemma DecodedIsEncoded(s: seq<byte>)
    requires s != [] && !IsError(DecodeRune(s))
    ensures IsScalar(DecodeRune(s).rune) && s[..DecodeRune(s).size] == EncodeRune(DecodeRune(s).rune)
  {
    var size := DecodeRune(s).size;
    if size == 2 {
      EncodesTwo(s[0] - 0xC0, s[1] - 0x80);
    } else if size == 3 {
      EncodesThree(s[0] - 0xE0, s[1] - 0x80, s[2] - 0x80);
    } else if size == 4 {
      EncodesFour(s[0] - 0xF0, s[1] - 0x80, s[2] - 0x80, s[3] - 0x80);
    }
    hide EncodeRune, IsScalar;
    assert size == 1 ==> s[..1] == [s[0]];
  }

  /** The decoder accepts exactly the texts of the RFC's grammar. */
  lemma {:induction false} DecodesWellFormed(s: seq<byte>)
    ensures WellFormed(s) <==> TallyOf(s) != Invalid
    decreases |s|
  {
    if s != [] {
      var d := DecodeRune(s);
      if WellFormed(s) {
        var k :| 1 <= k <= 4 && k <= |s| && IsChar(s[..k]) && WellFormed(s[k..]);
        DecodesChar(s, k);
        DecodesWellFormed(s[k..]);
      }
      if TallyOf(s) != Invalid {
        DecodedIsChar(s);
        DecodesWellFormed(s[d.size..]);
      }
    }
  }

  /** A rune never reaches across a line feed, so decoding may restart behind one. */
  lemma DecodeStopsAtLineFeed(a: seq<byte>, b: seq<byte>)
    requires EndsLine(a)
    ensures DecodeRune(a + b) == DecodeRune(a)
  {
    var s := a + b;
    assert forall i | 0 <= i < |a| :: s[i] == a[i];
  }

  predicate EndsLine(s: seq<byte>) {
    s != [] && s[|s| - 1] == LINE_FEED
  }

  /** What one decoded rune adds to the count. */
  function OneRune(d: Decoded): Tally {
    if IsError(d) then Invalid else Tally(1, if IsControl(d.rune) then 1 else 0)
  }

  lemma TallyStep(s: seq<byte>, rest: seq<byte>, decode: seq<byte> -> Decoded)
    requires |s| > 0 && 1 <= decode(s).size <= |s| && rest == s[decode(s).size..]
    ensures TallyBy(s, decode) == Plus(OneRune(decode(s)), TallyBy(rest, decode))
  {}

  lemma TallyNothing(b: seq<byte>, decode: seq<byte> -> Decoded)
    ensures Plus(TallyBy([], decode), TallyBy(b, decode)) == TallyBy(b, decode)
  {}

  /** A decoder that never looks behind a line feed and always advances. */
  ghost predicate StopsAtLines(decode: seq<byte> -> Decoded) {
    && (forall x, y | EndsLine(x) :: decode(x + y) == decode(x))
    && (forall x | EndsLine(x) :: 1 <= decode(x).size <= |x|)
  }

  lemma StopsAtLine(a: seq<byte>, b: seq<byte>, decode: seq<byte> -> Decoded)
    requires StopsAtLines(decode) && EndsLine(a)
    ensures decode(a + b) == decode(a) && 1 <= decode(a).size <= |a|
  {}

  /** For such a decoder, lines can be counted one by one. */
  lemma {:induction false} TallyByLines(a: seq<byte>, b: seq<byte>, decode: seq<byte> -> Decoded)
    requires a == [] || EndsLine(a)
    requires StopsAtLines(decode)
    ensures TallyBy(a + b, decode) == Plus(TallyBy(a, decode), TallyBy(b, decode))
    decreases |a|
  {
    hide StopsAtLines, TallyBy;
    if a == [] {
      TallyNothing(b, decode);
      assert a + b == b;
    } else {
      StopsAtLine(a, b, decode);
      var rest := DropHead(a, b, decode(a).size);
      TallyByLines(rest, b, decode);
      TallyStep(a, rest, decode);
      TallyStep(a + b, rest + b, decode);
    }
  }

  lemma DropHead(a: seq<byte>, b: seq<byte>, size: nat) returns (rest: seq<byte>)
    requires EndsLine(a) && 1 <= size <= |a|
    ensures rest == a[size..] && (a + b)[size..] == rest + b && |rest| < |a|
    ensures rest == [] || EndsLine(rest)
  {
    rest := a[size..];
  }

  lemma TallyOfLines(a: seq<byte>, b: seq<byte>)
    requires a == [] || EndsLine(a)
    ensures TallyOf(a + b) == Plus(TallyOf(a), TallyOf(b))
  {
    forall x, y | EndsLine(x)
      ensures DecodeRune(x + y) == DecodeRune(x)
    {
      DecodeStopsAtLineFeed(x, y);
    }
    assert StopsAtLines(DecodeRune);
    TallyByLines(a, b, DecodeRune);
  }

  /** On a text of ASCII bytes every byte is a rune; any other text that decodes has a rune beyond ASCII. */
  lemma RuneIsAscii(s: seq<byte>)
    requires s != [] && !IsError(DecodeRune(s))
    ensures DecodeRune(s).rune < 0x80 <==> DecodeRune(s).size == 1 && s[0] < 0x80
    ensures DecodeRune(s).size == 1 <==> s[0] < 0x80
  {}

  // ---------------------------------------------------------------- the text test

  const BOM: seq<byte> := [0xEF, 0xBB, 0xBF]

  function StripBom(s: seq<byte>): seq<byte> {
    if |s| >= 3 && s[0] == 0xEF && s[1] == 0xBB && s[2] == 0xBF then s[3..] else s
  }

  /** A byte order mark in front of a text is left out, and nothing else is. */
  lemma BomIsLeftOut(s: seq<byte>)
    ensures StripBom(BOM + s) == s
    ensures !(BOM <= s) ==> StripBom(s) == s
  {
    assert (BOM + s)[3..] == s;
    if StripBom(s) != s {
      assert s[..3] == BOM;
    }
  }

  /** A text of the whole content: NUL counts as invalid. */
  function LineTally(s: seq<byte>): Tally {
    if 0 in s then Invalid else TallyOf(s)
  }

  predicate FewControls(t: Tally) {
    t.Tally? && (t.runes == 0 || t.controls * 100 / t.runes <= 2)
  }

  /** The verdict on a whole content, without a leading byte order mark. */
  predicate SafeText(content: seq<byte>) {
    FewControls(LineTally(StripBom(content)))
  }

  /** A control byte: below the space, but no tab, line feed, form feed or carriage return. */
  function ControlByte(): byte -> bool {
    (b: byte) => b < 32 && b != 9 && b != 10 && b != 12 && b != 13
  }

  lemma AsciiByte(s: seq<byte>)
    requires s != [] && s[0] < 0x80
    ensures DecodeRune(s).size == 1 && !IsError(DecodeRune(s)) && (IsControl(DecodeRune(s).rune) <==> ControlByte()(s[0]))
  {}

  lemma {:induction false} AsciiTally(s: seq<byte>)
    requires forall b | b in s :: b < 0x80
    ensures TallyOf(s) == Tally(|s|, |Filter(s, ControlByte())|)
    decreases |s|
  {
    if s != [] {
      assert s[0] in s && forall b | b in s[1..] :: b in s;
      AsciiByte(s);
      AsciiTally(s[1..]);
      hide DecodeRune, IsError;
    }
  }

  /** An ASCII text is safe exactly if it has no NUL and less than three of a hundred bytes are control bytes. */
  lemma AsciiTextIsSafe(s: seq<byte>)
    requires forall b | b in s :: b < 0x80
    ensures SafeText(s) <==> 0 !in s && (s == [] || |Filter(s, ControlByte())| * 100 < 3 * |s|)
  {
    AsciiTally(s);
    assert StripBom(s) == s by { if |s| > 0 { assert s[0] in s; } }
    hide TallyOf, Filter, StripBom;
    if s != [] {
      Hundredths(|Filter(s, ControlByte())| * 100, |s|);
    }
  }

  lemma Hundredths(c: nat, n: nat)
    requires n > 0
    ensures c / n <= 2 <==> c < 3 * n
  {
    if c < 3 * n {
      assert c / n < 3;
    } else {
      assert c / n >= 3;
    }
  }

  /** The longest prefix that is well-formed. */
  function ValidPrefix(s: seq<byte>): (p: seq<byte>)
    ensures p <= s
    decreases |s|
  {
    if WellFormed(s) then s else ValidPrefix(s[..|s| - 1])
  }

  lemma {:induction false} ValidPrefixIsLongest(s: seq<byte>)
    ensures WellFormed(ValidPrefix(s))
    ensures forall n | |ValidPrefix(s)| < n <= |s| :: !WellFormed(s[..n])
    decreases |s|
  {
    assert s[..|s|] == s && (s == [] ==> WellFormed(s));
    hide WellFormed;
    if !WellFormed(s) {
      var shorter := s[..|s| - 1];
      ValidPrefixIsLongest(shorter);
      forall n | |ValidPrefix(s)| < n <= |s|
        ensures !WellFormed(s[..n])
      {
        if n < |s| {
          assert s[..n] == shorter[..n];
        }
      }
    }
  }

  /** The verdict on the beginning of a content, which may end inside a character. */
  predicate SafePreview(content: seq<byte>) {
    var text := StripBom(content);
    0 !in text && (text == [] || ValidPrefix(text) != []) && FewControls(TallyOf(ValidPrefix(text)))
  }

  /** A content that ends between characters has the verdict of the whole content. */
  lemma WholeTextIsSafeAlike(content: seq<byte>)
    requires WellFormed(StripBom(content))
    ensures SafePreview(content) <==> SafeText(content)
  {
    hide WellFormed, StripBom;
    assert StripBom(content) == [] ==> TallyOf(StripBom(content)) == Tally(0, 0);
  }

  /** Of a content that was cut the characters in front of the cut decide; if there are none, it is refused. */
  lemma CutTextIsSafeExactly(content: seq<byte>, text: seq<byte>)
    requires WellFormed(text) && text < StripBom(content)
    requires forall n | |text| < n <= |StripBom(content)| :: !WellFormed(StripBom(content)[..n])
    ensures SafePreview(content) <==> text != [] && 0 !in StripBom(content) && FewControls(TallyOf(text))
  {
    hide WellFormed, StripBom, FewControls, TallyOf;
    var s := StripBom(content);
    ValidPrefixIsLongest(s);
    var kept := ValidPrefix(s);
    assert s[..|kept|] == kept && s[..|text|] == text;
  }

  method IsSafeUtf8Text(content: seq<byte>, allowTrailingPartial: bool) returns (safe: bool)
    ensures safe == if allowTrailingPartial then SafePreview(content) else SafeText(content)
  {
    if |content| == 0 {
      return true;
    }
    var text := StripBom(content);
    if 0 in text {
      return false;
    }
    DecodesWellFormed(text);
    if !WellFormed(text) {
      if !allowTrailingPartial {
        return false;
      }
      var trimmed := text;
      while |trimmed| > 0 && !WellFormed(trimmed)
        invariant ValidPrefix(trimmed) == ValidPrefix(text)
        decreases |trimmed|
      {
        trimmed := trimmed[..|trimmed| - 1];
      }
      if |trimmed| == 0 && |text| > 0 {
        return false;
      }
      text := trimmed;
    }
    safe := CountRunes(text);
  }

  /** The counting loop of the text test. */
  method CountRunes(text: seq<byte>) returns (safe: bool)
    ensures safe == FewControls(TallyOf(text))
  {
    var rest := text;
    var control, runes: nat := 0, 0;
    while |rest| > 0
      invariant TallyOf(text) == Plus(Tally(runes, control), TallyOf(rest))
      decreases |rest|
    {
      var d := DecodeRune(rest);
      if d.rune == RUNE_ERROR && d.size == 1 {
        return false;
      }
      runes := runes + 1;
      if IsControl(d.rune) {
        control := control + 1;
      }
      rest := rest[d.size..];
    }
    safe := runes == 0 || control * 100 / runes <= 2;
  }
}
