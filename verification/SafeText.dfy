/**
 The command line's printing of text that it did not write: control characters and line separators
 become escapes. A decoder shows that no information is lost and that the output is harmless.
 */
module SafeText {
  import opened Sequences

  /** A Unicode code point. */
  type rune = r: int | 0 <= r <= 0x10FFFF

  const BACKSLASH: rune := 0x5C
  const QUOTE: rune := 0x22

  // ---------------------------------------------------------------- hexadecimal numbers

  function Digit(d: int, ten: rune): rune
    requires 0 <= d < 16 && ten <= 0x70
  {
    if d < 10 then 0x30 + d else ten + d - 10
  }

  function DigitValue(r: rune): int {
    if 0x30 <= r <= 0x39 then r as int - 0x30
    else if 0x41 <= r <= 0x46 then r as int - 0x37
    else if 0x61 <= r <= 0x66 then r as int - 0x57
    else -1
  }

  /** `n` in `width` hexadecimal digits, with `ten` as the digit ten (upper or lower case). */
  function Hex(n: nat, width: nat, ten: rune): (s: seq<rune>)
    requires ten <= 0x70
    ensures |s| == width
  {
    if width == 0 then [] else Hex(n / 16, width - 1, ten) + [Digit(n % 16, ten)]
  }

  /** The value of a run of digits, or -1. */
  function HexValue(s: seq<rune>): int {
    if s == [] then 0
    else
      var high, low := HexValue(s[..|s| - 1]), DigitValue(s[|s| - 1]);
      if high < 0 || low < 0 then -1 else 16 * high + low
  }

  function Power16(width: nat): nat {
    if width == 0 then 1 else 16 * Power16(width - 1)
  }

  predicate IsTen(ten: rune) { ten == 0x41 || ten == 0x61 }

  lemma {:induction false} HexReads(n: nat, width: nat, ten: rune)
    requires IsTen(ten) && n < Power16(width)
    ensures HexValue(Hex(n, width, ten)) == n
  {
    if width > 0 {
      HexReads(n / 16, width - 1, ten);
      var s := Hex(n, width, ten);
      assert s[..|s| - 1] == Hex(n / 16, width - 1, ten);
    }
  }

  lemma {:induction false} HexIsPlain(n: nat, width: nat, ten: rune)
    requires IsTen(ten)
    ensures forall r | r in Hex(n, width, ten) :: 0x30 <= r < 0x7F
  {
    if width > 0 {
      HexIsPlain(n / 16, width - 1, ten);
    }
  }

  lemma Powers()
    ensures Power16(2) == 0x100 && Power16(4) == 0x10000 && Power16(8) == 0x100000000
  {
    assert Power16(3) == 0x1000;
    assert Power16(5) == 0x100000;
    assert Power16(7) == 0x10000000;
  }

  // ---------------------------------------------------------------- escapes and their decoder

  /** The short escapes: the letter behind the backslash and the rune it stands for. */
  function ShortEscape(letter: rune): Option<rune> {
    if letter == BACKSLASH then Some(BACKSLASH)
    else if letter == QUOTE then Some(QUOTE)
    else if letter == 0x61 then Some(7)
    else if letter == 0x62 then Some(8)
    else if letter == 0x66 then Some(12)
    else if letter == 0x6E then Some(10)
    else if letter == 0x72 then Some(13)
    else if letter == 0x74 then Some(9)
    else if letter == 0x76 then Some(11)
    else None
  }

  /** The number of digits behind `\x`, `\u` and `\U`. */
  function EscapeWidth(letter: rune): nat {
    if letter == 0x78 then 2 else if letter == 0x75 then 4 else if letter == 0x55 then 8 else 0
  }

  datatype Reading = Bad | Reading(value: rune, length: nat)

  /** The rune at the start of a printed text, and the length of its printed form. */
  function ReadRune(s: seq<rune>): (r: Reading)
    ensures r.Reading? ==> 1 <= r.length <= |s|
  {
    if s == [] then Bad
    else if s[0] != BACKSLASH then Reading(s[0], 1)
    else if |s| < 2 then Bad
    else if ShortEscape(s[1]).Some? then Reading(ShortEscape(s[1]).value, 2)
    else
      var width := EscapeWidth(s[1]);
      if width == 0 || |s| < 2 + width then Bad
      else
        var value := HexValue(s[2..2 + width]);
        if 0 <= value <= 0x10FFFF then Reading(value, 2 + width) else Bad
  }

  function Decode(s: seq<rune>): Option<seq<rune>>
    decreases |s|
  {
    if s == [] then Some([])
    else
      var r := ReadRune(s);
      if r.Bad? then None
      else
        match Decode(s[r.length..])
        case None => None
        case Some(rest) => Some([r.value] + rest)
  }

  /** A printer writes each rune in a form that can be read back whatever follows it. */
  ghost predicate ReadsBack(printer: rune -> seq<rune>) {
    forall r: rune, rest: seq<rune> :: ReadRune(printer(r) + rest) == Reading(r, |printer(r)|)
  }

  lemma {:induction false} PrinterDecodes(text: seq<rune>, printer: rune -> seq<rune>)
    requires ReadsBack(printer)
    ensures Decode(FlatMap(text, printer)) == Some(text)
  {
    if text != [] {
      PrinterDecodes(text[1..], printer);
      var head, tail := printer(text[0]), FlatMap(text[1..], printer);
      assert ReadRune(head + tail) == Reading(text[0], |head|);
      assert (head + tail)[|head|..] == tail;
      assert [text[0]] + text[1..] == text;
    }
  }

  function NumericEscape(letter: rune, n: nat, width: nat, ten: rune): seq<rune>
    requires ten <= 0x70
  {
    [BACKSLASH, letter] + Hex(n, width, ten)
  }

  lemma NumericReads(letter: rune, n: rune, ten: rune, rest: seq<rune>)
    requires EscapeWidth(letter) > 0 && IsTen(ten) && n < Power16(EscapeWidth(letter))
    ensures ReadRune(NumericEscape(letter, n, EscapeWidth(letter), ten) + rest)
         == Reading(n, |NumericEscape(letter, n, EscapeWidth(letter), ten)|)
  {
    var width := EscapeWidth(letter);
    var digits := Hex(n, width, ten);
    var s := NumericEscape(letter, n, width, ten) + rest;
    assert s[0] == BACKSLASH && s[1] == letter && s[2..2 + width] == digits;
    HexReads(n, width, ten);
  }

  lemma ShortReads(letter: rune, value: rune, rest: seq<rune>)
    requires ShortEscape(letter) == Some(value)
    ensures ReadRune([BACKSLASH, letter] + rest) == Reading(value, 2)
  {}

  // ---------------------------------------------------------------- the safe text

  /** The printed form of one rune; `isOther` is Unicode category C. */
  function SafeRune(r: rune, isOther: rune -> bool): seq<rune> {
    if r == BACKSLASH then [BACKSLASH, BACKSLASH]
    else if r == 0x2028 || r == 0x2029 then NumericEscape(0x75, r, 4, 0x41)
    else if isOther(r) then
      if r == 9 then [BACKSLASH, 0x74]
      else if r == 13 then [BACKSLASH, 0x72]
      else if r == 10 then [BACKSLASH, 0x6E]
      else if r <= 0xFFFF then NumericEscape(0x75, r, 4, 0x41)
      else NumericEscape(0x55, r, 8, 0x41)
    else [r]
  }

  function SafeExternalText(value: seq<rune>, isOther: rune -> bool): seq<rune> {
    FlatMap(value, (r: rune) => SafeRune(r, isOther))
  }

  method TopLevelSafeExternalText(value: seq<rune>, isOther: rune -> bool) returns (output: seq<rune>)
    ensures output == SafeExternalText(value, isOther)
  {
    output := [];
    ghost var safe := (r: rune) => SafeRune(r, isOther);
    var i := 0;
    while i < |value|
      invariant 0 <= i <= |value|
      invariant output == FlatMap(value[..i], safe)
    {
      var r := value[i];
      assert value[..i + 1] == value[..i] + [r];
      FlatMapConcat(value[..i], [r], safe);
      FlatMapSingle(r, safe);
      i := i + 1;
      if r == BACKSLASH {
        output := output + [BACKSLASH, BACKSLASH];
        continue;
      }
      if r == 0x2028 || r == 0x2029 {
        output := output + NumericEscape(0x75, r, 4, 0x41);
        continue;
      }
      if isOther(r) {
        if r == 9 {
          output := output + [BACKSLASH, 0x74];
        } else if r == 13 {
          output := output + [BACKSLASH, 0x72];
        } else if r == 10 {
          output := output + [BACKSLASH, 0x6E];
        } else if r <= 0xFFFF {
          output := output + NumericEscape(0x75, r, 4, 0x41);
        } else {
          output := output + NumericEscape(0x55, r, 8, 0x41);
        }
        continue;
      }
      output := output + [r];
    }
    assert value[..i] == value;
  }

  lemma SafeRuneReads(r: rune, isOther: rune -> bool, rest: seq<rune>)
    ensures ReadRune(SafeRune(r, isOther) + rest) == Reading(r, |SafeRune(r, isOther)|)
  {
    Powers();
    if r == BACKSLASH {
      ShortReads(BACKSLASH, r, rest);
    } else if r == 0x2028 || r == 0x2029 {
      NumericReads(0x75, r, 0x41, rest);
    } else if isOther(r) {
      if r == 9 {
        ShortReads(0x74, r, rest);
      } else if r == 13 {
        ShortReads(0x72, r, rest);
      } else if r == 10 {
        ShortReads(0x6E, r, rest);
      } else {
        NumericReads(if r <= 0xFFFF then 0x75 else 0x55, r, 0x41, rest);
      }
    }
  }

  /** Decoding the printed text gives the text back, so distinct texts print differently. */
  lemma SafeTextDecodes(value: seq<rune>, isOther: rune -> bool)
    ensures Decode(SafeExternalText(value, isOther)) == Some(value)
  {
    var safe := (r: rune) => SafeRune(r, isOther);
    forall r: rune, rest: seq<rune>
      ensures ReadRune(safe(r) + rest) == Reading(r, |safe(r)|)
    {
      SafeRuneReads(r, isOther, rest);
    }
    PrinterDecodes(value, safe);
  }

  /** Category C holds no printable ASCII character. */
  ghost predicate SparesAscii(isOther: rune -> bool) {
    forall r: rune | 0x20 <= r < 0x7F :: !isOther(r)
  }

  /** The printed text has no character of category C and no line or paragraph separator. */
  lemma {:induction false} SafeTextIsHarmless(value: seq<rune>, isOther: rune -> bool)
    requires SparesAscii(isOther)
    ensures forall r | r in SafeExternalText(value, isOther) :: !isOther(r) && r != 0x2028 && r != 0x2029
  {
    if value != [] {
      SafeTextIsHarmless(value[1..], isOther);
      var r := value[0];
      HexIsPlain(r, 4, 0x41);
      HexIsPlain(r, 8, 0x41);
    }
  }

  /** The runes that are not printed as they are. */
  predicate NeedsEscape(r: rune, isOther: rune -> bool) {
    r == BACKSLASH || r == 0x2028 || r == 0x2029 || isOther(r)
  }

  /** A text is printed as it is exactly if none of its runes needs an escape. */
  lemma PlainTextStays(value: seq<rune>, isOther: rune -> bool)
    ensures SafeExternalText(value, isOther) == value <==> forall r | r in value :: !NeedsEscape(r, isOther)
  {
    PlainStays(value, (r: rune) => SafeRune(r, isOther), (r: rune) => !NeedsEscape(r, isOther));
  }

  /** A printer that leaves exactly the plain runes as they are leaves exactly the plain texts as they are. */
  lemma {:induction false} PlainStays(text: seq<rune>, printer: rune -> seq<rune>, plain: rune -> bool)
    requires forall r: rune :: |printer(r)| >= 1 && (plain(r) <==> |printer(r)| == 1) && (plain(r) ==> printer(r) == [r])
    ensures |FlatMap(text, printer)| >= |text|
    ensures FlatMap(text, printer) == text <==> forall r | r in text :: plain(r)
  {
    if text != [] {
      var head, tail := printer(text[0]), FlatMap(text[1..], printer);
      PlainStays(text[1..], printer, plain);
      assert text == [text[0]] + text[1..] && FlatMap(text, printer) == head + tail;
      hide FlatMap;
      if |head| == 1 {
        assert (head + tail)[1..] == tail;
      }
    }
  }

  predicate IsUpperHexDigit(r: rune) {
    0x30 <= r <= 0x39 || 0x41 <= r <= 0x46
  }

  lemma {:induction false} HexIsUpper(n: nat, width: nat)
    ensures forall r | r in Hex(n, width, 0x41) :: IsUpperHexDigit(r)
  {
    if width > 0 {
      HexIsUpper(n / 16, width - 1);
    }
  }

  /** An escape is a backslash and a letter or a backslash, or the letter u or U and four or eight upper-case digits. */
  lemma EscapesAreShort(r: rune, isOther: rune -> bool)
    requires NeedsEscape(r, isOther)
    ensures var e := SafeExternalText([r], isOther);
      && |e| >= 2 && e[0] == BACKSLASH && Decode(e) == Some([r])
      && (r == BACKSLASH || r == 9 || r == 10 || r == 13 <==> |e| == 2)
      && (|e| > 2 ==> |e| == (if r <= 0xFFFF then 6 else 10) && e[1] == if r <= 0xFFFF then 0x75 else 0x55)
      && (|e| > 2 ==> forall i | 2 <= i < |e| :: IsUpperHexDigit(e[i]))
  {
    FlatMapSingle(r, (r: rune) => SafeRune(r, isOther));
    SafeTextDecodes([r], isOther);
    HexIsUpper(r, 4);
    HexIsUpper(r, 8);
    hide Decode, Hex, IsUpperHexDigit;
  }

  // ---------------------------------------------------------------- the quoted form

  /** Go's quoting of one rune inside double quotes; `isPrint` is the language's printable test. */
  function QuotedRune(r: rune, isPrint: rune -> bool): seq<rune> {
    if r == QUOTE || r == BACKSLASH then [BACKSLASH, r]
    else if isPrint(r) then [r]
    else if r == 7 then [BACKSLASH, 0x61]
    else if r == 8 then [BACKSLASH, 0x62]
    else if r == 12 then [BACKSLASH, 0x66]
    else if r == 10 then [BACKSLASH, 0x6E]
    else if r == 13 then [BACKSLASH, 0x72]
    else if r == 9 then [BACKSLASH, 0x74]
    else if r == 11 then [BACKSLASH, 0x76]
    else if r < 0x20 || r == 0x7F then NumericEscape(0x78, r, 2, 0x61)
    else if r < 0x10000 then NumericEscape(0x75, r, 4, 0x61)
    else NumericEscape(0x55, r, 8, 0x61)
  }

  function Quote(value: seq<rune>, isPrint: rune -> bool): seq<rune> {
    [QUOTE] + FlatMap(value, (r: rune) => QuotedRune(r, isPrint)) + [QUOTE]
  }

  function TopLevelQuoted(value: seq<rune>, isOther: rune -> bool, isPrint: rune -> bool): seq<rune> {
    Quote(SafeExternalText(value, isOther), isPrint)
  }

  lemma QuotedRuneReads(r: rune, isPrint: rune -> bool, rest: seq<rune>)
    ensures ReadRune(QuotedRune(r, isPrint) + rest) == Reading(r, |QuotedRune(r, isPrint)|)
  {
    Powers();
    var q := QuotedRune(r, isPrint);
    if |q| == 2 {
      assert q == [BACKSLASH, q[1]];
      ShortReads(q[1], r, rest);
    } else if |q| > 2 {
      NumericReads(if r < 0x20 || r == 0x7F then 0x78 else if r < 0x10000 then 0x75 else 0x55, r, 0x61, rest);
    }
  }

  lemma QuoteDecodes(value: seq<rune>, isPrint: rune -> bool)
    ensures var q := Quote(value, isPrint);
            |q| >= 2 && Decode(q[1..|q| - 1]) == Some(value)
  {
    var quoted := (r: rune) => QuotedRune(r, isPrint);
    forall r: rune, rest: seq<rune>
      ensures ReadRune(quoted(r) + rest) == Reading(r, |quoted(r)|)
    {
      QuotedRuneReads(r, isPrint, rest);
    }
    PrinterDecodes(value, quoted);
    var q := Quote(value, isPrint);
    assert q[1..|q| - 1] == FlatMap(value, quoted);
  }

  /** A text is quoted as it is exactly if it is printable and has no quote and no backslash. */
  lemma PlainTextIsQuotedAsItIs(value: seq<rune>, isPrint: rune -> bool)
    ensures Quote(value, isPrint) == [QUOTE] + value + [QUOTE] <==>
            forall r | r in value :: isPrint(r) && r != QUOTE && r != BACKSLASH
  {
    var quoted := (r: rune) => QuotedRune(r, isPrint);
    PlainStays(value, quoted, (r: rune) => isPrint(r) && r != QUOTE && r != BACKSLASH);
    var body, q := FlatMap(value, quoted), Quote(value, isPrint);
    assert q == [QUOTE] + body + [QUOTE] && q[1..|q| - 1] == body;
    assert ([QUOTE] + value + [QUOTE])[1..|value| + 1] == value;
  }

  /** Undoing both printers recovers the text, so distinct texts are quoted differently. */
  lemma TopLevelQuotedDecodes(value: seq<rune>, isOther: rune -> bool, isPrint: rune -> bool)
    ensures var q := TopLevelQuoted(value, isOther, isPrint);
            && |q| >= 2 && Decode(q[1..|q| - 1]).Some?
            && Decode(Decode(q[1..|q| - 1]).value) == Some(value)
  {
    QuoteDecodes(SafeExternalText(value, isOther), isPrint);
    SafeTextDecodes(value, isOther);
  }

  lemma DistinctTextsPrintDifferently(a: seq<rune>, b: seq<rune>, isOther: rune -> bool, isPrint: rune -> bool)
    requires a != b
    ensures SafeExternalText(a, isOther) != SafeExternalText(b, isOther)
    ensures TopLevelQuoted(a, isOther, isPrint) != TopLevelQuoted(b, isOther, isPrint)
  {
    SafeTextDecodes(a, isOther);
    SafeTextDecodes(b, isOther);
    TopLevelQuotedDecodes(a, isOther, isPrint);
    TopLevelQuotedDecodes(b, isOther, isPrint);
  }
}
