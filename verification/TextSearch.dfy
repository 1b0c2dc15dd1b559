/**
 Text search over one file: the Horspool search for ASCII text, and the scan that reads a file
 line by line through a bounded buffer while it checks that the whole file is safe text.
 */
module TextSearch {
  import opened Sequences
  import opened Utf8

  // ---------------------------------------------------------------- the search in one line

  function LowerAscii(b: byte): byte {
    if 65 <= b <= 90 then b + 32 else b
  }

  /** The capital letters become the small ones, in order, and no other byte changes. */
  lemma LowerAsciiMeans(letter: nat, b: byte)
    ensures letter < 26 ==> LowerAscii('A' as byte + letter as byte) == 'a' as byte + letter as byte
    ensures LowerAscii(b) != b ==> 'A' <= b as char <= 'Z'
  {}

  function LowerAll(s: seq<byte>): (r: seq<byte>)
    ensures |r| == |s|
    ensures forall i | 0 <= i < |r| :: r[i] == LowerAscii(s[i])
  {
    seq(|s|, i requires 0 <= i < |s| => LowerAscii(s[i]))
  }

  predicate MatchAt(text: seq<byte>, pattern: seq<byte>, k: nat) {
    k + |pattern| <= |text| && forall i | 0 <= i < |pattern| :: text[k + i] == pattern[i]
  }

  /** The answer of a substring search: the least offset of a match, or -1. */
  ghost predicate IsFirstMatch(text: seq<byte>, pattern: seq<byte>, index: int) {
    if index < 0 then index == -1 && forall k: nat :: !MatchAt(text, pattern, k)
    else MatchAt(text, pattern, index) && forall k: nat | k < index :: !MatchAt(text, pattern, k)
  }

  /** The simple search: try every offset from `k` on. */
  function FirstMatchFrom(text: seq<byte>, pattern: seq<byte>, k: nat): int
    decreases |text| - k
  {
    if k + |pattern| > |text| then -1
    else if MatchAt(text, pattern, k) then k
    else FirstMatchFrom(text, pattern, k + 1)
  }

  function FirstMatch(text: seq<byte>, pattern: seq<byte>): int {
    FirstMatchFrom(text, pattern, 0)
  }

  lemma {:induction false} FirstMatchFromIsFirst(text: seq<byte>, pattern: seq<byte>, k: nat)
    requires forall j: nat | j < k :: !MatchAt(text, pattern, j)
    ensures IsFirstMatch(text, pattern, FirstMatchFrom(text, pattern, k))
    decreases |text| - k
  {
    if k + |pattern| <= |text| && !MatchAt(text, pattern, k) {
      FirstMatchFromIsFirst(text, pattern, k + 1);
    }
  }

  lemma FirstMatchIsUnique(text: seq<byte>, pattern: seq<byte>, i: int, j: int)
    requires IsFirstMatch(text, pattern, i) && IsFirstMatch(text, pattern, j)
    ensures i == j
  {}

  /** A shift for byte `c` is safe for the pattern bytes before `n`: it passes over none of their occurrences. */
  predicate SafeShift(shift: int, pattern: seq<byte>, c: byte, n: int) {
    1 <= shift <= |pattern|
    && forall i | 0 <= i < n && i < |pattern| - 1 && LowerAscii(pattern[i]) == c :: shift <= |pattern| - 1 - i
  }

  method ShiftTable(pattern: seq<byte>) returns (shifts: array<int>)
    requires |pattern| > 0
    ensures fresh(shifts) && shifts.Length == 256
    ensures forall c: byte :: SafeShift(shifts[c], pattern, c, |pattern| - 1)
  {
    shifts := new int[256](_ => |pattern|);
    var i := 0;
    while i < |pattern| - 1
      invariant 0 <= i <= |pattern| - 1
      invariant forall c: byte :: SafeShift(shifts[c], pattern, c, i)
    {
      shifts[LowerAscii(pattern[i])] := |pattern| - 1 - i;
      i := i + 1;
    }
  }

  /** No shift skips a match: the bytes between would have to hold the window's last byte. */
  lemma ShiftSkipsNoMatch(lowered: seq<byte>, pattern: seq<byte>, offset: nat, shift: int)
    requires |pattern| > 0 && offset + |pattern| <= |lowered|
    requires LowerAscii(lowered[offset + |pattern| - 1]) == lowered[offset + |pattern| - 1]
    requires SafeShift(shift, pattern, lowered[offset + |pattern| - 1], |pattern| - 1)
    ensures forall k: nat | offset < k < offset + shift :: !MatchAt(lowered, pattern, k)
  {
    forall k: nat | offset < k < offset + shift && k + |pattern| <= |lowered|
      ensures !MatchAt(lowered, pattern, k)
    {
      var i := offset + |pattern| - 1 - k;
      assert lowered[k + i] != pattern[i];
    }
  }

  method IndexAsciiInsensitive(line: seq<byte>, lowerQuery: seq<byte>) returns (index: int)
    ensures |lowerQuery| == 0 ==> index == -1
    ensures |lowerQuery| > 0 ==> index == FirstMatch(LowerAll(line), lowerQuery)
  {
    var patternLength := |lowerQuery|;
    ghost var lowered := LowerAll(line);
    if patternLength == 0 || patternLength > |line| {
      return -1;
    }
    var shifts := ShiftTable(lowerQuery);
    var offset := 0;
    while offset <= |line| - patternLength
      invariant 0 <= offset
      invariant forall c: byte :: SafeShift(shifts[c], lowerQuery, c, patternLength - 1)
      invariant forall k: nat | k < offset :: !MatchAt(lowered, lowerQuery, k)
      decreases |line| - offset
    {
      var i := patternLength - 1;
      while i >= 0 && LowerAscii(line[offset + i]) == lowerQuery[i]
        invariant -1 <= i < patternLength
        invariant forall j | i < j < patternLength :: lowered[offset + j] == lowerQuery[j]
      {
        i := i - 1;
      }
      if i < 0 {
        assert MatchAt(lowered, lowerQuery, offset);
        IsTheFirstMatch(lowered, lowerQuery, offset);
        return offset;
      }
      assert lowered[offset + i] != lowerQuery[i];
      var last := LowerAscii(line[offset + patternLength - 1]);
      ShiftSkipsNoMatch(lowered, lowerQuery, offset, shifts[last]);
      offset := offset + shifts[last];
    }
    index := -1;
    IsTheFirstMatch(lowered, lowerQuery, index);
  }

  lemma IsTheFirstMatch(text: seq<byte>, pattern: seq<byte>, index: int)
    requires IsFirstMatch(text, pattern, index)
    ensures index == FirstMatch(text, pattern)
  {
    FirstMatchFromIsFirst(text, pattern, 0);
    FirstMatchIsUnique(text, pattern, index, FirstMatch(text, pattern));
  }

  lemma FirstMatchMeans(text: seq<byte>, pattern: seq<byte>)
    ensures IsFirstMatch(text, pattern, FirstMatch(text, pattern))
  {
    FirstMatchFromIsFirst(text, pattern, 0);
  }

  // ---------------------------------------------------------------- the lines of a file

  function IndexOfLineFeed(s: seq<byte>): (i: nat)
    ensures i <= |s| && LINE_FEED !in s[..i] && (i < |s| ==> s[i] == LINE_FEED)
  {
    if s == [] || s[0] == LINE_FEED then 0
    else
      assert s == [s[0]] + s[1..];
      1 + IndexOfLineFeed(s[1..])
  }

  /** The lines of a content, each with its line feed; the last one may lack it. */
  function TextLines(s: seq<byte>): seq<seq<byte>>
    decreases |s|
  {
    if s == [] then []
    else
      var i := IndexOfLineFeed(s);
      if i == |s| then [s] else [s[..i + 1]] + TextLines(s[i + 1..])
  }

  /** `line` is the first line of a content that continues with `rest`. */
  predicate IsFirstLine(line: seq<byte>, rest: seq<byte>) {
    && line != []
    && LINE_FEED !in line[..|line| - 1]
    && (rest != [] ==> EndsLine(line))
  }

  lemma {:induction false} LineFeedAt(s: seq<byte>, i: nat)
    requires i <= |s| && (forall k | 0 <= k < i :: s[k] != LINE_FEED) && (i < |s| ==> s[i] == LINE_FEED)
    ensures IndexOfLineFeed(s) == i
  {
    if i > 0 {
      LineFeedAt(s[1..], i - 1);
    }
  }

  lemma FirstLineSplits(line: seq<byte>, rest: seq<byte>)
    requires IsFirstLine(line, rest)
    ensures TextLines(line + rest) == [line] + TextLines(rest)
  {
    var s, n := line + rest, |line| - 1;
    assert forall k | 0 <= k < n :: s[k] == line[..n][k];
    if EndsLine(line) {
      LineFeedAt(s, n);
      assert s[..n + 1] == line && s[n + 1..] == rest;
    } else {
      assert s == line && rest == [];
      LineFeedAt(s, |s|);
    }
  }

  /** The count of what is still to be read; a byte order mark counts only at the start of the file. */
  function PendingTally(pending: seq<byte>, first: bool): Tally {
    LineTally(if first then StripBom(pending) else pending)
  }

  lemma StripBomOfLine(line: seq<byte>, rest: seq<byte>)
    requires IsFirstLine(line, rest)
    ensures StripBom(line + rest) == StripBom(line) + rest
    ensures rest != [] ==> EndsLine(StripBom(line))
  {
    var s := line + rest;
    assert forall k | 0 <= k < |line| :: s[k] == line[k];
    if |line| >= 3 {
      assert s[3..] == line[3..] + rest;
    } else if rest != [] {
      assert s[|line| - 1] == LINE_FEED;
    } else {
      assert s == line;
    }
  }

  /** Counting line by line gives the count of the whole content. */
  lemma PendingStep(line: seq<byte>, rest: seq<byte>, first: bool)
    requires IsFirstLine(line, rest)
    ensures PendingTally(line + rest, first) == Plus(PendingTally(line, first), PendingTally(rest, false))
  {
    StripBomOfLine(line, rest);
    var head := if first then StripBom(line) else line;
    if rest == [] {
      assert head + rest == head;
    } else {
      TallyOfLines(head, rest);
    }
  }

  // ---------------------------------------------------------------- matches

  datatype TextSearchResult = TextSearchResult(lineNumber: nat, lineText: seq<byte>, matchStart: int, matchLength: nat)

  function DropLineFeed(line: seq<byte>): seq<byte> {
    if EndsLine(line) then line[..|line| - 1] else line
  }

  function DropCarriageReturn(line: seq<byte>): seq<byte> {
    if line != [] && line[|line| - 1] == 13 then line[..|line| - 1] else line
  }

  /** The search request: the query, its lower-case form, and the lower-case form of any line. */
  datatype Search = Search(query: seq<byte>, lowerQuery: seq<byte>, lower: seq<byte> -> seq<byte>)

  predicate AllAscii(s: seq<byte>) {
    forall i | 0 <= i < |s| :: s[i] < 0x80
  }

  /** Lower case of an ASCII line, with or without a byte order mark, is bytewise. */
  ghost predicate LowersAscii(lower: seq<byte> -> seq<byte>) {
    forall s | AllAscii(StripBom(s)) :: lower(s) == LowerAll(s)
  }

  function LineMatches(line: seq<byte>, number: nat, search: Search): seq<TextSearchResult> {
    var text := DropLineFeed(line);
    var index := FirstMatch(search.lower(text), search.lowerQuery);
    if index < 0 then [] else [TextSearchResult(number, DropCarriageReturn(text), index, |search.query|)]
  }

  /** All matching lines, the first line numbered `number`. */
  function AllMatches(lines: seq<seq<byte>>, number: nat, search: Search): seq<TextSearchResult> {
    if lines == [] then [] else LineMatches(lines[0], number, search) + AllMatches(lines[1..], number + 1, search)
  }

  /** `text` is `s` without a final `last`, if it has one. */
  predicate IsWithout(text: seq<byte>, s: seq<byte>, last: byte) {
    s == text + [last] || (s == text && (s == [] || s[|s| - 1] != last))
  }

  /** The result shows the line without its end, and the first match of the query in it. */
  ghost predicate ShowsMatch(r: TextSearchResult, line: seq<byte>, search: Search) {
    exists text | IsWithout(text, line, LINE_FEED) ::
      && IsWithout(r.lineText, text, 13)
      && 0 <= r.matchStart && IsFirstMatch(search.lower(text), search.lowerQuery, r.matchStart)
      && r.matchLength == |search.query|
  }

  lemma WithoutIsUnique(text: seq<byte>, text': seq<byte>, s: seq<byte>, last: byte)
    requires IsWithout(text, s, last) && IsWithout(text', s, last)
    ensures text == text'
  {
    assert text == text' by {
      if s == text + [last] {
        assert s[..|s| - 1] == text && s[|s| - 1] == last;
      }
      if s == text' + [last] {
        assert s[..|s| - 1] == text' && s[|s| - 1] == last;
      }
    }
  }

  lemma LineMatchesMean(line: seq<byte>, number: nat, search: Search, r: TextSearchResult)
    ensures r in LineMatches(line, number, search) <==> r.lineNumber == number && ShowsMatch(r, line, search)
  {
    var text := DropLineFeed(line);
    var lowered := search.lower(text);
    assert IsWithout(text, line, LINE_FEED) && IsWithout(DropCarriageReturn(text), text, 13);
    FirstMatchMeans(lowered, search.lowerQuery);
    hide FirstMatch, IsFirstMatch, DropLineFeed, DropCarriageReturn;
    if r.lineNumber == number && ShowsMatch(r, line, search) {
      var other :| IsWithout(other, line, LINE_FEED) && IsWithout(r.lineText, other, 13) && 0 <= r.matchStart
        && IsFirstMatch(search.lower(other), search.lowerQuery, r.matchStart) && r.matchLength == |search.query|;
      WithoutIsUnique(text, other, line, LINE_FEED);
      WithoutIsUnique(DropCarriageReturn(text), r.lineText, text, 13);
      FirstMatchIsUnique(lowered, search.lowerQuery, FirstMatch(lowered, search.lowerQuery), r.matchStart);
    }
  }

  /** The matches are those of all lines, each with its number, its text, and the place and length of its first match. */
  lemma {:induction false} AllMatchesMean(lines: seq<seq<byte>>, number: nat, search: Search, r: TextSearchResult)
    ensures r in AllMatches(lines, number, search) <==>
            exists i | 0 <= i < |lines| :: r.lineNumber == number + i && ShowsMatch(r, lines[i], search)
  {
    hide LineMatches, ShowsMatch;
    if lines != [] {
      LineMatchesMean(lines[0], number, search, r);
      AllMatchesMean(lines[1..], number + 1, search, r);
      if r in AllMatches(lines[1..], number + 1, search) {
        var i :| 0 <= i < |lines[1..]| && r.lineNumber == number + 1 + i && ShowsMatch(r, lines[1..][i], search);
        assert lines[1..][i] == lines[i + 1];
      }
      if i :| 0 <= i < |lines| && r.lineNumber == number + i && ShowsMatch(r, lines[i], search) {
        assert i > 0 ==> lines[i] == lines[1..][i - 1];
      }
    }
  }

  /** They come in the order of the lines, no more than one a line. */
  lemma {:induction false} MatchesAreInOrder(lines: seq<seq<byte>>, number: nat, search: Search)
    ensures forall i | 0 <= i < |AllMatches(lines, number, search)| :: AllMatches(lines, number, search)[i].lineNumber >= number
    ensures forall i, j | 0 <= i < j < |AllMatches(lines, number, search)| ::
              AllMatches(lines, number, search)[i].lineNumber < AllMatches(lines, number, search)[j].lineNumber
  {
    if lines != [] {
      MatchesAreInOrder(lines[1..], number + 1, search);
      hide FirstMatch, DropLineFeed, DropCarriageReturn;
    }
  }

  lemma FirstLineOf(s: seq<byte>) returns (line: seq<byte>, rest: seq<byte>)
    requires s != []
    ensures s == line + rest && |rest| < |s| && TextLines(s) == [line] + TextLines(rest) && IsFirstLine(line, rest)
  {
    var i := IndexOfLineFeed(s);
    line, rest := if i == |s| then s else s[..i + 1], if i == |s| then [] else s[i + 1..];
    assert line[..|line| - 1] <= s[..i];
  }

  /** The lines are the content cut behind its line feeds: put together they are the content again. */
  lemma {:induction false} LinesAreTheContent(s: seq<byte>)
    ensures FlatMap(TextLines(s), line => line) == s
    decreases |s|
  {
    if s != [] {
      var line, rest := FirstLineOf(s);
      hide TextLines, FlatMap;
      LinesAreTheContent(rest);
      FlatMapCons(line, TextLines(rest), line => line);
    }
  }

  /** A line has no line feed but at its end, and all but the last have one there. */
  lemma {:induction false} LinesEndAtLineFeeds(s: seq<byte>, i: nat)
    requires i < |TextLines(s)|
    ensures var line := TextLines(s)[i];
      line != [] && LINE_FEED !in line[..|line| - 1] && (i < |TextLines(s)| - 1 ==> EndsLine(line))
    decreases |s|
  {
    var line, rest := FirstLineOf(s);
    if i > 0 {
      LinesEndAtLineFeeds(rest, i - 1);
    }
  }

  function Take<T>(s: seq<T>, n: nat): seq<T> {
    s[..Min(n, |s|)]
  }

  lemma AsciiStep(s: seq<byte>, size: nat)
    requires 1 <= size <= |s| && (size == 1 <==> s[0] < 0x80)
    ensures AllAscii(s) <==> size == 1 && AllAscii(s[size..])
  {
    if size == 1 && AllAscii(s[1..]) {
      forall i | 0 <= i < |s|
        ensures s[i] < 0x80
      {
        assert i > 0 ==> s[i] == s[1..][i - 1];
      }
    }
  }

  /** Counts one line; the answer also says whether the line is ASCII and whether it is valid. */
  method CountTextLine(line: seq<byte>, firstLine: bool, runeCount: nat, controlCount: nat)
    returns (ascii: bool, valid: bool, runes: nat, controls: nat)
    ensures var t := PendingTally(line, firstLine);
            && (valid <==> t.Tally?)
            && (valid ==> Tally(runes, controls) == Plus(Tally(runeCount, controlCount), t))
    ensures valid ==> (ascii <==> AllAscii(if firstLine then StripBom(line) else line))
  {
    var content := line;
    if firstLine {
      content := StripBom(line);
    }
    if 0 in content {
      return false, false, runeCount, controlCount;
    }
    ascii, valid, runes, controls := CountLineRunes(content, runeCount, controlCount);
  }

  /** The rune loop of a line. */
  method CountLineRunes(line: seq<byte>, runeCount: nat, controlCount: nat)
    returns (ascii: bool, valid: bool, runes: nat, controls: nat)
    ensures valid <==> TallyOf(line).Tally?
    ensures valid ==> Tally(runes, controls) == Plus(Tally(runeCount, controlCount), TallyOf(line))
    ensures valid ==> (ascii <==> AllAscii(line))
  {
    runes, controls := runeCount, controlCount;
    var content := line;
    ascii := true;
    while |content| > 0
      invariant Plus(Tally(runes, controls), TallyOf(content)) == Plus(Tally(runeCount, controlCount), TallyOf(line))
      invariant ascii && AllAscii(content) <==> AllAscii(line)
      decreases |content|
    {
      var d := DecodeRune(content);
      if d.rune == RUNE_ERROR && d.size == 1 {
        return false, false, runes, controls;
      }
      ghost var rest := content[d.size..];
      RuneStep(content, d, rest);
      runes := runes + 1;
      if d.rune >= 0x80 {
        ascii := false;
      }
      if IsControl(d.rune) {
        controls := controls + 1;
      }
      content := content[d.size..];
    }
    valid := true;
  }

  lemma RuneStep(content: seq<byte>, d: Decoded, rest: seq<byte>)
    requires |content| > 0 && d == DecodeRune(content) && !IsError(d) && rest == content[d.size..]
    ensures TallyOf(content) == Plus(OneRune(d), TallyOf(rest))
    ensures AllAscii(content) <==> d.rune < 0x80 && AllAscii(rest)
  {
    RuneIsAscii(content);
    AsciiStep(content, d.size);
    TallyStep(content, rest, DecodeRune);
  }

  /** ASCII lines take the Horspool search; the answer is that of the simple search in every case. */
  method IndexTextLine(line: seq<byte>, search: Search, queryIsAscii: bool, lineIsAscii: bool) returns (index: int)
    requires |search.lowerQuery| > 0 && LowersAscii(search.lower)
    requires lineIsAscii ==> AllAscii(StripBom(line))
    ensures index == FirstMatch(search.lower(line), search.lowerQuery)
  {
    if queryIsAscii && lineIsAscii {
      index := IndexAsciiInsensitive(line, search.lowerQuery);
    } else {
      index := FirstMatch(search.lower(line), search.lowerQuery);
    }
  }

  lemma AsciiWithoutLineFeed(line: seq<byte>, firstLine: bool)
    requires AllAscii(if firstLine then StripBom(line) else line)
    ensures AllAscii(StripBom(DropLineFeed(line)))
  {
    var text := DropLineFeed(line);
    if firstLine && StripBom(line) != line {
      assert forall i | 0 <= i < |StripBom(text)| :: StripBom(text)[i] == StripBom(line)[i];
    }
  }

  // ---------------------------------------------------------------- the buffered reader

  datatype ReadStatus = LineRead | BufferFull | EndOfFile

  /** A buffered reader over a file; `rest` is what has not been handed out. */
  class LineReader {
    var rest: seq<byte>
    const size: nat

    constructor (content: seq<byte>, size: nat)
      ensures rest == content && this.size == size
    {
      this.rest := content;
      this.size := size;
    }

    /** The bytes up to the next line feed, or a full buffer without one, or the end of the file. */
    method ReadSlice() returns (fragment: seq<byte>, status: ReadStatus)
      requires size > 0
      modifies this
      ensures old(rest) == fragment + rest
      ensures status == LineRead ==> EndsLine(fragment) && LINE_FEED !in fragment[..|fragment| - 1]
      ensures status == BufferFull ==> LINE_FEED !in fragment && |fragment| == size
      ensures status == EndOfFile ==> LINE_FEED !in fragment && rest == []
    {
      var window := rest[..Min(size, |rest|)];
      var i := IndexOfLineFeed(window);
      if i < |window| {
        fragment, rest, status := window[..i + 1], rest[i + 1..], LineRead;
      } else if |rest| < size {
        fragment, rest, status := rest, [], EndOfFile;
      } else {
        fragment, rest, status := window, rest[size..], BufferFull;
      }
    }
  }

  /** Collects full buffers until a line is complete or the file ends. */
  method NextLine(reader: LineReader) returns (line: seq<byte>, atEnd: bool)
    requires reader.size > 0
    modifies reader
    ensures old(reader.rest) == line + reader.rest
    ensures line != [] ==> IsFirstLine(line, reader.rest)
    ensures line == [] ==> atEnd
    ensures atEnd ==> reader.rest == []
  {
    var lineBuffer: seq<byte> := [];
    while true
      invariant old(reader.rest) == lineBuffer + reader.rest && LINE_FEED !in lineBuffer
      decreases |reader.rest|
    {
      var fragment, status := reader.ReadSlice();
      ConcatAssociative(lineBuffer, fragment, reader.rest);
      if status != BufferFull {
        line := lineBuffer + fragment;
        return line, status == EndOfFile;
      }
      lineBuffer := lineBuffer + fragment;
    }
  }

  // ---------------------------------------------------------------- the scan

  /** The count of the pending bytes completes the count so far. */
  predicate OwesTally(content: seq<byte>, pending: seq<byte>, lineNumber: nat, counted: Tally) {
    Plus(counted, PendingTally(pending, lineNumber == 0)) == LineTally(StripBom(content))
  }

  /** The matches in the pending lines complete those found so far. */
  predicate OwesMatches(content: seq<byte>, search: Search, maxMatches: nat, pending: seq<byte>, lineNumber: nat,
                        found: seq<TextSearchResult>)
  {
    && |found| <= maxMatches
    && found + Take(AllMatches(TextLines(pending), lineNumber + 1, search), maxMatches - |found|)
       == Take(AllMatches(TextLines(content), 1, search), maxMatches)
  }

  /** One line read: its count is added. */
  lemma TallyAfterLine(content: seq<byte>, line: seq<byte>, rest: seq<byte>, lineNumber: nat, counted: Tally)
    requires IsFirstLine(line, rest) && OwesTally(content, line + rest, lineNumber, counted)
    ensures OwesTally(content, rest, lineNumber + 1, Plus(counted, PendingTally(line, lineNumber == 0)))
  {
    PendingStep(line, rest, lineNumber == 0);
  }

  /** One line read: its match is added while there is room. */
  lemma MatchesAfterLine(content: seq<byte>, search: Search, maxMatches: nat, line: seq<byte>, rest: seq<byte>,
                         lineNumber: nat, found: seq<TextSearchResult>)
    requires IsFirstLine(line, rest) && OwesMatches(content, search, maxMatches, line + rest, lineNumber, found)
    ensures var matches := Take(LineMatches(line, lineNumber + 1, search), maxMatches - |found|);
            OwesMatches(content, search, maxMatches, rest, lineNumber + 1, found + matches)
  {
    FirstLineSplits(line, rest);
    var here := LineMatches(line, lineNumber + 1, search);
    var later := AllMatches(TextLines(rest), lineNumber + 2, search);
    assert AllMatches([line] + TextLines(rest), lineNumber + 1, search) == here + later;
    TakeMore(found, here, later, maxMatches);
  }

  lemma TakeMore<T>(found: seq<T>, here: seq<T>, later: seq<T>, max: nat)
    requires |found| <= max
    ensures var more := found + Take(here, max - |found|);
            |more| <= max && found + Take(here + later, max - |found|) == more + Take(later, max - |more|)
  {}

  /** Searches one line while there is room and stores its match. */
  method RecordMatch(found: array<TextSearchResult>, foundCount: nat, maxMatches: nat, line: seq<byte>, lineNumber: nat,
                     search: Search, queryIsAscii: bool, ascii: bool) returns (count: nat)
    requires foundCount <= maxMatches <= found.Length && lineNumber > 0
    requires |search.lowerQuery| > 0 && LowersAscii(search.lower)
    requires ascii ==> AllAscii(if lineNumber == 1 then StripBom(line) else line)
    modifies found
    ensures foundCount <= count <= maxMatches
    ensures found[..count] == old(found[..foundCount]) + Take(LineMatches(line, lineNumber, search), maxMatches - foundCount)
  {
    count := foundCount;
    if foundCount < maxMatches {
      var searchLine := DropLineFeed(line);
      if ascii { AsciiWithoutLineFeed(line, lineNumber == 1); }
      var at := IndexTextLine(searchLine, search, queryIsAscii, ascii);
      if at >= 0 {
        found[foundCount] := TextSearchResult(lineNumber, DropCarriageReturn(searchLine), at, |search.query|);
        count := foundCount + 1;
      }
    }
  }

  /** What the scan keeps true of the pending bytes, the lines read, their count and the matches found. */
  type ScanInvariant = (seq<byte>, nat, Tally, seq<TextSearchResult>) -> bool

  /** Reading the line in front of `rest` keeps `owes`. */
  predicate KeptByLine(owes: ScanInvariant, search: Search, maxMatches: nat,
                       line: seq<byte>, rest: seq<byte>, n: nat, t: Tally, f: seq<TextSearchResult>)
  {
    IsFirstLine(line, rest) && owes(line + rest, n, t, f) ==>
      && |f| <= maxMatches
      && owes(rest, n + 1, Plus(t, PendingTally(line, n == 0)), f + Take(LineMatches(line, n + 1, search), maxMatches - |f|))
  }

  ghost predicate KeptByLines(owes: ScanInvariant, search: Search, maxMatches: nat) {
    forall line, rest, n: nat, t, f :: KeptByLine(owes, search, maxMatches, line, rest, n, t, f)
  }

  lemma OwesOneLine(owes: ScanInvariant, search: Search, maxMatches: nat, line: seq<byte>, rest: seq<byte>, n: nat, t: Tally,
                    f: seq<TextSearchResult>)
    requires KeptByLines(owes, search, maxMatches) && IsFirstLine(line, rest) && owes(line + rest, n, t, f) && |f| <= maxMatches
    ensures owes(rest, n + 1, Plus(t, PendingTally(line, n == 0)), f + Take(LineMatches(line, n + 1, search), maxMatches - |f|))
  {
    hide IsFirstLine, PendingTally, LineMatches, Take;
    assert KeptByLine(owes, search, maxMatches, line, rest, n, t, f);
  }

  /** The body of the scan's loop: counts one line, then searches it. */
  method ScanLine(ghost owes: ScanInvariant, ghost pending: seq<byte>, line: seq<byte>, lineNumber: nat, search: Search,
                  queryIsAscii: bool, maxMatches: nat, found: array<TextSearchResult>, foundCount: nat,
                  runeCount: nat, controlCount: nat)
    returns (valid: bool, count: nat, runes: nat, controls: nat, ghost all: seq<TextSearchResult>)
    requires foundCount <= maxMatches <= found.Length && |search.lowerQuery| > 0 && LowersAscii(search.lower)
    requires KeptByLines(owes, search, maxMatches) && IsFirstLine(line, pending)
    requires owes(line + pending, lineNumber, Tally(runeCount, controlCount), found[..foundCount])
    modifies found
    ensures count <= maxMatches
    ensures owes(pending, lineNumber + 1, if valid then Tally(runes, controls) else Invalid, all)
    ensures valid ==> all == found[..count]
  {
    hide KeptByLines, IsFirstLine, PendingTally, LineMatches, Take, LowersAscii, StripBom, AllAscii;
    var ascii;
    ghost var t, f := PendingTally(line, lineNumber == 0), found[..foundCount];
    all := f + Take(LineMatches(line, lineNumber + 1, search), maxMatches - foundCount);
    OwesOneLine(owes, search, maxMatches, line, pending, lineNumber, Tally(runeCount, controlCount), f);
    count := foundCount;
    ascii, valid, runes, controls := CountTextLine(line, lineNumber == 0, runeCount, controlCount);
    if !valid {
      return;
    }
    count := RecordMatch(found, foundCount, maxMatches, line, lineNumber + 1, search, queryIsAscii, ascii);
  }

  /** The loop of the scan: it ends with nothing pending, or at a line that is not valid. */
  method ScanLines(ghost owes: ScanInvariant, reader: LineReader, search: Search, maxMatches: nat)
    returns (matches: seq<TextSearchResult>, valid: bool, runes: nat, controls: nat,
             ghost pending: seq<byte>, ghost lines: nat, ghost all: seq<TextSearchResult>)
    requires reader.size > 0 && maxMatches <= 3
    requires |search.lowerQuery| > 0 && LowersAscii(search.lower)
    requires KeptByLines(owes, search, maxMatches) && owes(reader.rest, 0, Tally(0, 0), [])
    modifies reader
    ensures owes(pending, lines, if valid then Tally(runes, controls) else Invalid, all)
    ensures valid ==> pending == [] && all == matches
  {
    var queryIsAscii := AllAscii(search.lowerQuery);
    var found := new TextSearchResult[3];
    var foundCount, lineNumber := 0, 0;
    runes, controls := 0, 0;
    var atEnd := false;
    assert found[..0] == [];
    while !atEnd
      invariant 0 <= foundCount <= maxMatches
      invariant atEnd ==> reader.rest == []
      invariant owes(reader.rest, lineNumber, Tally(runes, controls), found[..foundCount])
      decreases |reader.rest| + if atEnd then 0 else 1
    {
      var line;
      line, atEnd := NextLine(reader);
      if |line| > 0 {
        valid, foundCount, runes, controls, all :=
          ScanLine(owes, reader.rest, line, lineNumber, search, queryIsAscii, maxMatches, found, foundCount, runes, controls);
        if !valid {
          return [], false, runes, controls, reader.rest, lineNumber + 1, all;
        }
        lineNumber := lineNumber + 1;
      }
    }
    return found[..foundCount], true, runes, controls, [], lineNumber, found[..foundCount];
  }

  /** The scan's answer: the first matching lines, or nothing when the file is not safe text. */
  method ScanTextSearchFile(reader: LineReader, search: Search, maxMatches: nat)
    returns (matches: seq<TextSearchResult>, safe: bool)
    requires reader.size > 0 && maxMatches <= 3
    requires |search.lowerQuery| > 0 && LowersAscii(search.lower)
    modifies reader
    ensures safe == SafeText(old(reader.rest))
    ensures matches == if safe then Take(AllMatches(TextLines(old(reader.rest)), 1, search), maxMatches) else []
  {
    hide LineTally, TallyOf, StripBom, AllMatches, TextLines, KeptByLines, FewControls, ManyControls;
    ghost var content := reader.rest;
    ghost var owes := (pending: seq<byte>, n: nat, t: Tally, f: seq<TextSearchResult>) =>
      OwesTally(content, pending, n, t) && OwesMatches(content, search, maxMatches, pending, n, f);
    NothingYet(LineTally(StripBom(content)), Take(AllMatches(TextLines(content), 1, search), maxMatches));
    NothingPending(search);
    ScanKeeps(content, search, maxMatches, owes);
    var runes, controls;
    ghost var pending, lines, all;
    matches, safe, runes, controls, pending, lines, all := ScanLines(owes, reader, search, maxMatches);
    CountEnds(LineTally(StripBom(content)), if safe then Tally(runes, controls) else Invalid, PendingTally(pending, lines == 0));
    if safe && ManyControls(runes, controls) {
      safe := false;
    }
    if !safe {
      matches := [];
    }
  }

  /** What a count with nothing pending says about the count of the whole content. */
  lemma CountEnds(whole: Tally, counted: Tally, pending: Tally)
    requires Plus(counted, pending) == whole && (counted.Tally? ==> pending == Tally(0, 0))
    ensures FewControls(whole) <==> counted.Tally? && !ManyControls(counted.runes, counted.controls)
  {}

  lemma NothingPending(search: Search)
    ensures forall first :: PendingTally([], first) == Tally(0, 0)
    ensures forall n: nat :: AllMatches(TextLines([]), n, search) == []
  {}

  lemma NothingYet<T>(t: Tally, all: seq<T>)
    ensures Plus(Tally(0, 0), t) == t && [] + all == all
  {}

  lemma ScanKeeps(content: seq<byte>, search: Search, maxMatches: nat, owes: ScanInvariant)
    requires forall p, n, t, f ::
      owes(p, n, t, f) == (OwesTally(content, p, n, t) && OwesMatches(content, search, maxMatches, p, n, f))
    ensures KeptByLines(owes, search, maxMatches)
  {
    forall line, rest, n: nat, t, f
      ensures KeptByLine(owes, search, maxMatches, line, rest, n, t, f)
    {
      if IsFirstLine(line, rest) && owes(line + rest, n, t, f) {
        OwesAfterLine(content, search, maxMatches, line, rest, n, t, f);
      }
    }
  }

  lemma OwesAfterLine(content: seq<byte>, search: Search, maxMatches: nat, line: seq<byte>, rest: seq<byte>, n: nat,
                      t: Tally, f: seq<TextSearchResult>)
    requires IsFirstLine(line, rest) && OwesTally(content, line + rest, n, t)
    requires OwesMatches(content, search, maxMatches, line + rest, n, f)
    ensures |f| <= maxMatches && OwesTally(content, rest, n + 1, Plus(t, PendingTally(line, n == 0)))
    ensures OwesMatches(content, search, maxMatches, rest, n + 1, f + Take(LineMatches(line, n + 1, search), maxMatches - |f|))
  {
    TallyAfterLine(content, line, rest, n, t);
    MatchesAfterLine(content, search, maxMatches, line, rest, n, f);
  }

  predicate ManyControls(runes: nat, controls: nat) {
    runes > 0 && controls * 100 / runes > 2
  }
}
