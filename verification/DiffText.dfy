/**
 The unified-diff text of a review, its parser, and the side-by-side rows built from the parse.
 The main result says exactly when the rows show both files again, line by line.
 */
module DiffText {
  import opened Sequences
  import opened LineDiff

  // ---------------------------------------------------------------- lines of a text

  function IndexOf(s: string, c: char): (i: nat)
    ensures i <= |s| && c !in s[..i] && (i < |s| ==> s[i] == c)
  {
    if s == [] || s[0] == c then 0
    else
      assert s == [s[0]] + s[1..];
      1 + IndexOf(s[1..], c)
  }

  predicate EndsWithCr(s: string) {
    s != "" && s[|s| - 1] == '\r'
  }

  function StripCr(s: string): string {
    if EndsWithCr(s) then s[..|s| - 1] else s
  }

  /** The pieces between line breaks, where a break is a line feed and one carriage return before it. */
  function SplitAtBreaks(s: string): (lines: seq<string>)
    ensures lines != []
    decreases |s|
  {
    var i := IndexOf(s, '\n');
    if i == |s| then [s] else [StripCr(s[..i])] + SplitAtBreaks(s[i + 1..])
  }

  function JoinLines(lines: seq<string>): string {
    if lines == [] then "" else if |lines| == 1 then lines[0] else lines[0] + "\n" + JoinLines(lines[1..])
  }

  /** The lines of a file; one final line feed is not a line of its own. */
  function FileLines(content: string): (lines: seq<string>)
    ensures lines != []
  {
    if content == "" then [""]
    else SplitAtBreaks(if content[|content| - 1] == '\n' then content[..|content| - 1] else content)
  }

  predicate NoBreaks(lines: seq<string>) {
    forall i | 0 <= i < |lines| :: '\n' !in lines[i]
  }

  lemma {:induction false} SplitHasNoBreaks(s: string)
    ensures NoBreaks(SplitAtBreaks(s))
    decreases |s|
  {
    var i := IndexOf(s, '\n');
    if i < |s| {
      SplitHasNoBreaks(s[i + 1..]);
    }
  }

  lemma FileLinesHaveNoBreaks(content: string)
    ensures NoBreaks(FileLines(content))
  {
    if content != "" {
      SplitHasNoBreaks(if content[|content| - 1] == '\n' then content[..|content| - 1] else content);
    }
  }

  /** What remains of printed lines when the text is split again: a line before a break loses a final CR. */
  function Reread(lines: seq<string>): (r: seq<string>)
    ensures |r| == |lines|
  {
    if |lines| <= 1 then lines else [StripCr(lines[0])] + Reread(lines[1..])
  }

  lemma {:induction false} FirstAt(s: string, i: nat, c: char)
    requires i < |s| && s[i] == c && forall k | 0 <= k < i :: s[k] != c
    ensures IndexOf(s, c) == i
  {
    if i > 0 {
      FirstAt(s[1..], i - 1, c);
    }
  }

  lemma {:induction false} SplitOfJoin(lines: seq<string>)
    requires lines != [] && NoBreaks(lines)
    ensures SplitAtBreaks(JoinLines(lines)) == Reread(lines)
  {
    var text := JoinLines(lines);
    if |lines| == 1 {
      assert IndexOf(text, '\n') == |text|;
    } else {
      var head, tail := lines[0], JoinLines(lines[1..]);
      assert text == head + ("\n" + tail);
      FirstAt(text, |head|, '\n');
      assert text[..|head|] == head && text[|head| + 1..] == tail;
      SplitOfJoin(lines[1..]);
    }
  }

  // ---------------------------------------------------------------- decimal numbers

  function Decimal(n: nat): (s: string)
    ensures s != "" && AllDigits(s)
  {
    if n < 10 then [DigitChar(n)] else Decimal(n / 10) + [DigitChar(n % 10)]
  }

  function DigitChar(d: nat): (c: char)
    requires d < 10
    ensures IsDigit(c) && DigitValue(c) == d
  {
    "0123456789"[d]
  }

  predicate IsDigit(c: char) { '0' <= c <= '9' }

  predicate AllDigits(s: string) { forall i | 0 <= i < |s| :: IsDigit(s[i]) }

  function DigitValue(c: char): nat
    requires IsDigit(c)
  {
    c as nat - '0' as nat
  }

  function NumberOf(s: string): nat
    requires AllDigits(s)
  {
    if s == "" then 0 else 10 * NumberOf(s[..|s| - 1]) + DigitValue(s[|s| - 1])
  }

  lemma {:induction false} NumberOfDecimal(n: nat)
    ensures NumberOf(Decimal(n)) == n
  {
    if n >= 10 {
      NumberOfDecimal(n / 10);
      assert Decimal(n)[..|Decimal(n)| - 1] == Decimal(n / 10);
    } else {
      assert Decimal(n)[..0] == "";
      assert NumberOf("") == 0;
    }
  }

  /** The number of digits at the start of a text. */
  function DigitRun(s: string): (n: nat)
    ensures n <= |s| && AllDigits(s[..n])
  {
    if s != "" && IsDigit(s[0]) then
      var n := 1 + DigitRun(s[1..]);
      assert s[..n] == [s[0]] + s[1..][..n - 1];
      n
    else 0
  }

  // ---------------------------------------------------------------- printing

  function FormatOp(op: DiffOp): string {
    match op
    case Context(line, _, _) => " " + line
    case Remove(line, _) => "-" + line
    case Add(line, _) => "+" + line
  }

  function FormatOps(ops: seq<DiffOp>): (r: seq<string>)
    ensures |r| == |ops|
    ensures forall i :: 0 <= i < |r| ==> r[i] == FormatOp(ops[i])
  {
    seq(|ops|, i requires 0 <= i < |ops| => FormatOp(ops[i]))
  }

  function HunkLine(oldCount: nat, newCount: nat): string {
    "@@ -" + HunkField("1", Decimal(oldCount), " +" + HunkField("1", Decimal(newCount), " @@"))
  }

  /** A start number and a count, followed by the rest of the hunk line. */
  function HunkField(start: string, count: string, rest: string): string {
    start + ("," + (count + rest))
  }

  function HeaderPrefix(i: nat): string
    requires i < 4
  {
    if i == 0 then "diff --git" else if i == 1 then "index " else if i == 2 then "--- " else "+++ "
  }

  function HeaderTail(path: string, i: nat): string
    requires i < 4
  {
    if i == 0 then " a/" + path + " b/" + path else if i == 1 then "0000000..0000000"
    else if i == 2 then "a/" + path else "b/" + path
  }

  function HeaderLines(path: string): (lines: seq<string>)
    ensures |lines| == 4
    ensures forall i | 0 <= i < 4 :: lines[i] == HeaderPrefix(i) + HeaderTail(path, i)
  {
    seq(4, i requires 0 <= i < 4 => HeaderPrefix(i) + HeaderTail(path, i))
  }

  function DiffLines(path: string, ops: seq<DiffOp>): seq<string> {
    var oldCount := |Filter(ops, (op: DiffOp) => !op.Add?)|;
    var newCount := |Filter(ops, (op: DiffOp) => !op.Remove?)|;
    HeaderLines(path) + ([HunkLine(oldCount, newCount)] + FormatOps(ops))
  }

  function FullFileDiff(path: string, before: string, after: string): string {
    JoinLines(DiffLines(path, DiffScript(FileLines(before), FileLines(after))))
  }

  // ---------------------------------------------------------------- parsing

  datatype LineKind = MetaKind | HunkKind | AddKind | RemoveKind | ContextKind

  datatype ParsedLine = ParsedLine(kind: LineKind, text: string, oldLine: Option<nat>, newLine: Option<nat>)

  /** A parser state after a line: the parsed line and the next line numbers. */
  datatype Parse = Parse(line: ParsedLine, oldNext: nat, newNext: nat)

  /** The text behind a prefix. */
  function Behind(s: string, prefix: string): Option<string> {
    if StartsWith(s, prefix) then Some(s[|prefix|..]) else None
  }

  /** The text behind an optional `,digits`. */
  function BehindCount(s: string): string {
    if s != "" && s[0] == ',' && DigitRun(s[1..]) > 0 then s[1..][DigitRun(s[1..])..] else s
  }

  /** A start number, and the text behind it and behind its optional count. */
  datatype Field = NoField | Field(digits: string, rest: string)

  function FieldOf(s: string): (field: Field)
    ensures field.Field? ==> AllDigits(field.digits)
  {
    if DigitRun(s) == 0 then NoField else Field(s[..DigitRun(s)], BehindCount(s[DigitRun(s)..]))
  }

  /** The digits of the second start number, and the end of the hunk mark behind it. */
  function SecondDigits(s: string): (digits: Option<string>)
    ensures digits.Some? ==> AllDigits(digits.value)
  {
    match Behind(s, " +")
    case None => None
    case Some(second) =>
      match FieldOf(second)
      case NoField => None
      case Field(newDigits, afterNew) => if StartsWith(afterNew, " @@") then Some(newDigits) else None
  }

  /** The digits of the two start numbers of a hunk line, if the text begins with one. */
  function HunkDigits(raw: string): (r: Option<(string, string)>)
    ensures r.Some? ==> AllDigits(r.value.0) && AllDigits(r.value.1)
  {
    match Behind(raw, "@@ -")
    case None => None
    case Some(first) =>
      match FieldOf(first)
      case NoField => None
      case Field(oldDigits, afterOld) =>
        match SecondDigits(afterOld)
        case None => None
        case Some(newDigits) => Some((oldDigits, newDigits))
  }

  function HunkStart(raw: string): Option<(nat, nat)> {
    match HunkDigits(raw)
    case None => None
    case Some(digits) => Some((NumberOf(digits.0), NumberOf(digits.1)))
  }

  function Positive(n: nat): Option<nat> {
    if n == 0 then None else Some(n)
  }

  function ParseLine(raw: string, oldLine: nat, newLine: nat): Parse {
    var hunk := HunkStart(raw);
    if hunk.Some? then
      Parse(ParsedLine(HunkKind, raw, None, None), hunk.value.0, hunk.value.1)
    else if StartsWith(raw, "diff --git") || StartsWith(raw, "index ") || StartsWith(raw, "--- ") || StartsWith(raw, "+++ ") then
      Parse(ParsedLine(MetaKind, raw, None, None), oldLine, newLine)
    else if StartsWith(raw, "+") then
      Parse(ParsedLine(AddKind, raw[1..], None, Some(newLine)), oldLine, newLine + 1)
    else if StartsWith(raw, "-") then
      Parse(ParsedLine(RemoveKind, raw[1..], Some(oldLine), None), oldLine + 1, newLine)
    else
      Parse(ParsedLine(ContextKind, if StartsWith(raw, " ") then raw[1..] else raw, Positive(oldLine), Positive(newLine)),
            if oldLine == 0 then 0 else oldLine + 1, if newLine == 0 then 0 else newLine + 1)
  }

  function ParseStep(at: (nat, nat), raw: string): (ParsedLine, (nat, nat)) {
    var p := ParseLine(raw, at.0, at.1);
    (p.line, (p.oldNext, p.newNext))
  }

  function ParseLines(raws: seq<string>, oldLine: nat, newLine: nat): (r: seq<ParsedLine>)
    ensures |r| == |raws|
  {
    ScanOut(raws, (oldLine, newLine), ParseStep)
  }

  predicate Shown(line: ParsedLine) {
    line.text != "" || line.kind == ContextKind
  }

  function Truncated(maxLines: nat): ParsedLine {
    ParsedLine(MetaKind, "... diff truncated after " + Decimal(maxLines) + " rendered lines", None, None)
  }

  /** The parse of a diff text; a limit keeps the parse of that many raw lines and says so. */
  function Parsed(content: string, maxLines: Option<nat>): seq<ParsedLine> {
    Filter(ParsedUpTo(SplitAtBreaks(content), maxLines), Shown)
  }

  function ParsedUpTo(raws: seq<string>, maxLines: Option<nat>): seq<ParsedLine> {
    if maxLines.Some? && |raws| > maxLines.value
    then ParseLines(raws[..maxLines.value], 0, 0) + [Truncated(maxLines.value)]
    else ParseLines(raws, 0, 0)
  }

  lemma {:induction false} ScanPrefix<T, S, U>(xs: seq<T>, n: nat, s: S, step: (S, T) -> (U, S))
    requires n <= |xs|
    ensures ScanOut(xs[..n], s, step) == ScanOut(xs, s, step)[..n]
    decreases xs
  {
    if n > 0 {
      ScanPrefix(xs[1..], n - 1, step(s, xs[0]).1, step);
      assert xs[..n][1..] == xs[1..][..n - 1];
    }
  }

  /** A limit keeps the beginning of the full parse and ends it with a notice, if the text has more raw lines than that. */
  lemma LimitKeepsTheBeginning(content: string, maxLines: nat)
    ensures |SplitAtBreaks(content)| <= maxLines ==> Parsed(content, Some(maxLines)) == Parsed(content, None)
    ensures |SplitAtBreaks(content)| > maxLines ==>
      var limited := Parsed(content, Some(maxLines));
      && limited != [] && limited[..|limited| - 1] <= Parsed(content, None) && |limited| <= maxLines + 1
      && limited[|limited| - 1]
         == ParsedLine(MetaKind, "... diff truncated after " + Decimal(maxLines) + " rendered lines", None, None)
  {
    hide SplitAtBreaks, ParseLines;
    var raws := SplitAtBreaks(content);
    if |raws| > maxLines {
      var all, notice := ParseLines(raws, 0, 0), Truncated(maxLines);
      PartIsPrefix(raws, maxLines);
      FilteredPart(all, maxLines, notice, Shown);
      hide Filter;
      assert Parsed(content, Some(maxLines)) == Filter(all[..maxLines], Shown) + [notice];
    }
  }

  lemma PartIsPrefix(raws: seq<string>, n: nat)
    requires n <= |raws|
    ensures ParseLines(raws[..n], 0, 0) == ParseLines(raws, 0, 0)[..n]
  {
    ScanPrefix(raws, n, (0, 0), ParseStep);
  }

  lemma FilteredPart<T>(all: seq<T>, n: nat, notice: T, p: T -> bool)
    requires n <= |all| && p(notice)
    ensures Filter(all[..n] + [notice], p) == Filter(all[..n], p) + [notice]
    ensures Filter(all[..n], p) <= Filter(all, p) && |Filter(all[..n], p)| <= n
  {
    assert all == all[..n] + all[n..];
    FilterConcat(all[..n], all[n..], p);
    FilterConcat(all[..n], [notice], p);
    FilterMembers(all[..n], p);
    FilterNothing(p);
    assert [notice][1..] == [];
  }

  method ParseUnifiedDiff(content: string, maxLines: Option<nat>) returns (result: seq<ParsedLine>)
    ensures result == Parsed(content, maxLines)
  {
    var raws := SplitAtBreaks(content);
    var parsed, truncated := ParseRawLines(raws, maxLines, ParseStep);
    if truncated {
      parsed := parsed + [Truncated(maxLines.value)];
    }
    result := Filter(parsed, Shown);
  }

  /** The parser's loop over the raw lines, for any way to read one line. */
  method ParseRawLines(raws: seq<string>, maxLines: Option<nat>, parseLine: ((nat, nat), string) -> (ParsedLine, (nat, nat)))
    returns (parsed: seq<ParsedLine>, truncated: bool)
    ensures truncated <==> maxLines.Some? && |raws| > maxLines.value
    ensures parsed == ScanOut(if truncated then raws[..maxLines.value] else raws, (0, 0), parseLine)
  {
    parsed := [];
    var oldLine, newLine := 0, 0;
    var next := 0;
    while next < |raws|
      invariant 0 <= next <= |raws|
      invariant maxLines.Some? ==> next <= maxLines.value
      invariant parsed == ScanOut(raws[..next], (0, 0), parseLine)
      invariant (oldLine, newLine) == ScanState(raws[..next], (0, 0), parseLine)
    {
      if maxLines.Some? && |parsed| >= maxLines.value {
        return parsed, true;
      }
      assert raws[..next + 1] == raws[..next] + [raws[next]];
      ScanAppend(raws[..next], raws[next], (0, 0), parseLine);
      var (line, at) := parseLine((oldLine, newLine), raws[next]);
      parsed := parsed + [line];
      oldLine, newLine := at.0, at.1;
      next := next + 1;
    }
    assert raws[..next] == raws;
    truncated := false;
  }

  // ---------------------------------------------------------------- side-by-side rows

  datatype RowKind = MetaRow | HunkRow | ContextRow | ChangedRow | AddRow | RemoveRow

  datatype Row =
    | TextRow(kind: RowKind, text: string)
    | LineRow(kind: RowKind, oldLine: Option<nat>, oldText: Option<string>, newLine: Option<nat>, newText: Option<string>)

  /** One entry of a rendered column. */
  datatype Cell = Cell(number: Option<nat>, text: string)

  function LeftOf(row: Row): seq<Cell> {
    if row.LineRow? && row.oldText.Some? then [Cell(row.oldLine, row.oldText.value)] else []
  }

  function RightOf(row: Row): seq<Cell> {
    if row.LineRow? && row.newText.Some? then [Cell(row.newLine, row.newText.value)] else []
  }

  function OldCell(line: ParsedLine): seq<Cell> {
    if line.kind == ContextKind || line.kind == RemoveKind then [Cell(line.oldLine, line.text)] else []
  }

  function NewCell(line: ParsedLine): seq<Cell> {
    if line.kind == ContextKind || line.kind == AddKind then [Cell(line.newLine, line.text)] else []
  }

  function RunOf(lines: seq<ParsedLine>, kind: LineKind): (n: nat)
    ensures n <= |lines|
    ensures forall k :: 0 <= k < n ==> lines[k].kind == kind
    ensures n < |lines| ==> lines[n].kind != kind
  {
    if lines != [] && lines[0].kind == kind then 1 + RunOf(lines[1..], kind) else 0
  }

  /** Row `k` of a removed run beside an added run: rank against rank, blanks where one run has ended. */
  function PairRow(removed: seq<ParsedLine>, added: seq<ParsedLine>, k: nat): Row {
    var left, right := k < |removed|, k < |added|;
    LineRow(if left && right then ChangedRow else if left then RemoveRow else AddRow,
            if left then removed[k].oldLine else None,
            if left then Some(removed[k].text) else None,
            if right then added[k].newLine else None,
            if right then Some(added[k].text) else None)
  }

  function PairRows(removed: seq<ParsedLine>, added: seq<ParsedLine>, k: nat): seq<Row>
    decreases Max(|removed|, |added|) - k
  {
    if k >= Max(|removed|, |added|) then [] else [PairRow(removed, added, k)] + PairRows(removed, added, k + 1)
  }

  function SingleRow(line: ParsedLine): Row
    requires line.kind != RemoveKind
  {
    match line.kind
    case MetaKind => TextRow(MetaRow, line.text)
    case HunkKind => TextRow(HunkRow, line.text)
    case ContextKind => LineRow(ContextRow, line.oldLine, Some(line.text), line.newLine, Some(line.text))
    case AddKind => LineRow(AddRow, None, None, line.newLine, Some(line.text))
  }

  function Rows(lines: seq<ParsedLine>): seq<Row>
    decreases |lines|
  {
    if lines == [] then []
    else if lines[0].kind != RemoveKind then [SingleRow(lines[0])] + Rows(lines[1..])
    else
      var r := RunOf(lines, RemoveKind);
      var a := RunOf(lines[r..], AddKind);
      PairRows(lines[..r], lines[r..][..a], 0) + Rows(lines[r..][a..])
  }

  method BuildSideBySideDiffRows(lines: seq<ParsedLine>) returns (rows: seq<Row>)
    ensures rows == Rows(lines)
  {
    rows := [];
    var index := 0;
    while index < |lines|
      invariant 0 <= index <= |lines|
      invariant rows + Rows(lines[index..]) == Rows(lines)
    {
      var line := lines[index];
      ghost var suffix := lines[index..];
      if line.kind != RemoveKind {
        assert suffix[1..] == lines[index + 1..];
        ConcatAssociative(rows, [SingleRow(line)], Rows(lines[index + 1..]));
        rows := rows + [SingleRow(line)];
        index := index + 1;
        continue;
      }
      var removed, added;
      removed, index := CollectRun(lines, index, RemoveKind);
      added, index := CollectRun(lines, index, AddKind);
      RowsRuns(removed, added, lines[index..]);
      ConcatAssociative(rows, PairRows(removed, added, 0), Rows(lines[index..]));
      rows := AppendPairs(rows, removed, added);
    }
  }

  method AppendPairs(start: seq<Row>, removed: seq<ParsedLine>, added: seq<ParsedLine>) returns (rows: seq<Row>)
    ensures rows == start + PairRows(removed, added, 0)
  {
    rows := start;
    var rowCount := Max(|removed|, |added|);
    var rowIndex := 0;
    while rowIndex < rowCount
      invariant 0 <= rowIndex <= rowCount
      invariant rows + PairRows(removed, added, rowIndex) == start + PairRows(removed, added, 0)
    {
      ConcatAssociative(rows, [PairRow(removed, added, rowIndex)], PairRows(removed, added, rowIndex + 1));
      rows := rows + [PairRow(removed, added, rowIndex)];
      rowIndex := rowIndex + 1;
    }
  }

  method CollectRun(lines: seq<ParsedLine>, start: nat, kind: LineKind) returns (run: seq<ParsedLine>, index: nat)
    requires start <= |lines|
    ensures start <= index <= |lines| && lines[start..] == run + lines[index..]
    ensures forall x | x in run :: x.kind == kind
    ensures index < |lines| ==> lines[index].kind != kind
    ensures start < |lines| && lines[start].kind == kind ==> run != []
  {
    index, run := start, [];
    while index < |lines| && lines[index].kind == kind
      invariant start <= index <= |lines|
      invariant run == lines[start..index]
      invariant forall x | x in run :: x.kind == kind
    {
      run := run + [lines[index]];
      index := index + 1;
    }
  }

  lemma {:induction false} RunEnd(run: seq<ParsedLine>, rest: seq<ParsedLine>, kind: LineKind)
    requires forall x | x in run :: x.kind == kind
    requires rest != [] ==> rest[0].kind != kind
    ensures RunOf(run + rest, kind) == |run|
  {
    if run == [] {
      assert run + rest == rest;
    } else {
      assert (run + rest)[1..] == run[1..] + rest;
      RunEnd(run[1..], rest, kind);
    }
  }

  /** How a maximal removed run and the maximal added run behind it become rows. */
  lemma RowsRuns(removed: seq<ParsedLine>, added: seq<ParsedLine>, rest: seq<ParsedLine>)
    requires removed != [] && forall x | x in removed :: x.kind == RemoveKind
    requires forall x | x in added :: x.kind == AddKind
    requires rest != [] ==> rest[0].kind != AddKind && (added == [] ==> rest[0].kind != RemoveKind)
    ensures Rows(removed + (added + rest)) == PairRows(removed, added, 0) + Rows(rest)
  {
    var tail := added + rest;
    var lines := removed + tail;
    RunEnd(removed, tail, RemoveKind);
    RunEnd(added, rest, AddKind);
    assert lines[..|removed|] == removed && lines[|removed|..] == tail;
    assert tail[..|added|] == added && tail[|added|..] == rest;
  }

  /** The kind of a row tells which of its two texts are there. */
  predicate KindTells(row: Row) {
    row.LineRow? ==>
      && (row.kind == ContextRow || row.kind == ChangedRow <==> row.oldText.Some? && row.newText.Some?)
      && (row.kind == RemoveRow <==> row.oldText.Some? && row.newText.None?)
      && (row.kind == AddRow <==> row.oldText.None? && row.newText.Some?)
  }

  /** The row shows the old and the new line side by side, each if there is one. */
  predicate ShowsBeside(row: Row, removed: Option<ParsedLine>, added: Option<ParsedLine>) {
    && row.LineRow? && KindTells(row) && row.kind != ContextRow
    && LeftOf(row) == (if removed.Some? then [Cell(removed.value.oldLine, removed.value.text)] else [])
    && RightOf(row) == (if added.Some? then [Cell(added.value.newLine, added.value.text)] else [])
    && (removed.None? ==> row.oldLine.None?) && (added.None? ==> row.newLine.None?)
  }

  lemma PrefixAndRest<T>(front: seq<T>, rest: seq<T>)
    ensures (front + rest)[|front|..] == rest && |front + rest| == |front| + |rest|
    ensures forall k | 0 <= k < |front| :: (front + rest)[k] == front[k]
  {}

  /** Element `k` of a run, if it is that long. */
  function At(run: seq<ParsedLine>, k: nat): Option<ParsedLine> {
    if k < |run| then Some(run[k]) else None
  }

  lemma {:induction false} PairRowsAreRanks(removed: seq<ParsedLine>, added: seq<ParsedLine>, k: nat, j: nat)
    requires k <= j < Max(|removed|, |added|)
    ensures |PairRows(removed, added, k)| == Max(|removed|, |added|) - k
    ensures ShowsBeside(PairRows(removed, added, k)[j - k], At(removed, j), At(added, j))
    decreases Max(|removed|, |added|) - k
  {
    hide ShowsBeside;
    if k < j {
      PairRowsAreRanks(removed, added, k + 1, j);
    } else {
      PairRowIsRank(removed, added, k);
      if k + 1 < Max(|removed|, |added|) {
        PairRowsAreRanks(removed, added, k + 1, k + 1);
      }
    }
  }

  lemma PairRowIsRank(removed: seq<ParsedLine>, added: seq<ParsedLine>, k: nat)
    requires k < Max(|removed|, |added|)
    ensures ShowsBeside(PairRow(removed, added, k), At(removed, k), At(added, k))
  {}

  /**
   A maximal removed run and the added run behind it become rows rank against rank: row `k` has removed line `k` on the left and
   added line `k` on the right, or nothing where that run has ended. Then come the rows of the rest.
   */
  lemma RunsStandSideBySide(removed: seq<ParsedLine>, added: seq<ParsedLine>, rest: seq<ParsedLine>)
    requires removed != [] && (forall x | x in removed :: x.kind == RemoveKind) && (forall x | x in added :: x.kind == AddKind)
    requires rest != [] ==> rest[0].kind != AddKind && (added == [] ==> rest[0].kind != RemoveKind)
    ensures var rows, n := Rows(removed + (added + rest)), Max(|removed|, |added|);
      && |rows| == n + |Rows(rest)| && rows[n..] == Rows(rest)
      && forall k | 0 <= k < n :: ShowsBeside(rows[k], At(removed, k), At(added, k))
  {
    hide Rows, PairRows, ShowsBeside, At;
    RowsRuns(removed, added, rest);
    var n, front := Max(|removed|, |added|), PairRows(removed, added, 0);
    PairRowsAreRanks(removed, added, 0, 0);
    PrefixAndRest(front, Rows(rest));
    forall k | 0 <= k < n
      ensures ShowsBeside(front[k], At(removed, k), At(added, k))
    {
      PairRowsAreRanks(removed, added, 0, k);
    }
  }

  /** Any other line has a row of its own: an unchanged line on both sides, an added line on the right, a header as its text. */
  lemma OtherLinesStandAlone(line: ParsedLine, rest: seq<ParsedLine>)
    requires line.kind != RemoveKind
    ensures var rows := Rows([line] + rest);
      && |rows| == 1 + |Rows(rest)| && rows[1..] == Rows(rest)
      && match line.kind {
           case ContextKind => rows[0].kind == ContextRow && LeftOf(rows[0]) == [Cell(line.oldLine, line.text)]
                               && RightOf(rows[0]) == [Cell(line.newLine, line.text)]
           case AddKind => ShowsBeside(rows[0], None, Some(line))
           case MetaKind => rows[0] == TextRow(MetaRow, line.text)
           case HunkKind => rows[0] == TextRow(HunkRow, line.text)
         }
  {
    assert ([line] + rest)[1..] == rest;
  }

  /** In every list of rows the kinds tell which texts are there. */
  lemma {:induction false} RowKindsTell(lines: seq<ParsedLine>)
    ensures forall i | 0 <= i < |Rows(lines)| :: KindTells(Rows(lines)[i])
    decreases |lines|
  {
    if lines != [] {
      if lines[0].kind != RemoveKind {
        RowKindsTell(lines[1..]);
      } else {
        var removed, added, rest := FirstRuns(lines);
        RowKindsTell(rest);
        hide Rows, PairRows, KindTells;
        forall k | 0 <= k < |PairRows(removed, added, 0)|
          ensures KindTells(PairRows(removed, added, 0)[k])
        {
          RowIsRank(removed, added, k);
        }
      }
    }
  }

  lemma RowIsRank(removed: seq<ParsedLine>, added: seq<ParsedLine>, k: nat)
    requires k < |PairRows(removed, added, 0)|
    ensures KindTells(PairRows(removed, added, 0)[k])
  {
    if Max(|removed|, |added|) > 0 {
      PairRowsAreRanks(removed, added, 0, 0);
      hide PairRows;
      PairRowsAreRanks(removed, added, 0, k);
    }
  }

  lemma PairRowCells(removed: seq<ParsedLine>, added: seq<ParsedLine>, k: nat)
    requires forall x | x in removed :: x.kind == RemoveKind
    requires forall x | x in added :: x.kind == AddKind
    ensures LeftOf(PairRow(removed, added, k)) == if k < |removed| then OldCell(removed[k]) else []
    ensures RightOf(PairRow(removed, added, k)) == if k < |added| then NewCell(added[k]) else []
  {
    assert k < |removed| ==> removed[k] in removed;
    assert k < |added| ==> added[k] in added;
  }

  lemma {:induction false} PairRowsColumns(removed: seq<ParsedLine>, added: seq<ParsedLine>, k: nat)
    requires forall x | x in removed :: x.kind == RemoveKind
    requires forall x | x in added :: x.kind == AddKind
    ensures FlatMap(PairRows(removed, added, k), LeftOf) == FlatMap(removed[Min(k, |removed|)..], OldCell)
    ensures FlatMap(PairRows(removed, added, k), RightOf) == FlatMap(added[Min(k, |added|)..], NewCell)
    decreases Max(|removed|, |added|) - k
  {
    hide FlatMap, PairRow, LeftOf, RightOf, OldCell, NewCell;
    SuffixView(removed, k, OldCell);
    SuffixView(added, k, NewCell);
    if k < Max(|removed|, |added|) {
      PairRowsColumns(removed, added, k + 1);
      FlatMapCons(PairRow(removed, added, k), PairRows(removed, added, k + 1), LeftOf);
      FlatMapCons(PairRow(removed, added, k), PairRows(removed, added, k + 1), RightOf);
      PairRowCells(removed, added, k);
    } else {
      EmptyView(removed, LeftOf, OldCell);
      EmptyView(added, RightOf, NewCell);
    }
  }

  lemma SuffixView<T, U>(run: seq<T>, k: nat, f: T -> seq<U>)
    ensures FlatMap(run[Min(k, |run|)..], f) == (if k < |run| then f(run[k]) else []) + FlatMap(run[Min(k + 1, |run|)..], f)
  {
    if k < |run| {
      FlatMapCons(run[k], run[k + 1..], f);
      assert run[k..] == [run[k]] + run[k + 1..];
    }
  }

  lemma EmptyView<S, T, U>(run: seq<T>, f: S -> seq<U>, g: T -> seq<U>)
    ensures FlatMap([], f) == [] && FlatMap(run[|run|..], g) == []
  {}

  /** Whatever was parsed, the two columns of the rows are the two sides of the parse, in order. */
  lemma {:induction false} RowsColumns(lines: seq<ParsedLine>)
    ensures FlatMap(Rows(lines), LeftOf) == FlatMap(lines, OldCell)
    ensures FlatMap(Rows(lines), RightOf) == FlatMap(lines, NewCell)
    decreases |lines|
  {
    if lines != [] {
      if lines[0].kind != RemoveKind {
        RowsColumns(lines[1..]);
        FlatMapCons(SingleRow(lines[0]), Rows(lines[1..]), LeftOf);
        FlatMapCons(SingleRow(lines[0]), Rows(lines[1..]), RightOf);
      } else {
        var removed, added, rest := FirstRuns(lines);
        RowsColumns(rest);
        PairColumns(removed, added);
        RunColumn(removed, added, rest, LeftOf, OldCell);
        RunColumn(removed, added, rest, RightOf, NewCell);
      }
    }
  }

  lemma FirstRuns(lines: seq<ParsedLine>)
    returns (removed: seq<ParsedLine>, added: seq<ParsedLine>, rest: seq<ParsedLine>)
    requires lines != [] && lines[0].kind == RemoveKind
    ensures lines == removed + (added + rest) && |rest| < |lines|
    ensures forall x | x in removed :: x.kind == RemoveKind
    ensures forall x | x in added :: x.kind == AddKind
    ensures Rows(lines) == PairRows(removed, added, 0) + Rows(rest)
  {
    var r := RunOf(lines, RemoveKind);
    var a := RunOf(lines[r..], AddKind);
    removed, added, rest := lines[..r], lines[r..][..a], lines[r..][a..];
    assert forall i :: 0 <= i < a ==> added[i] == lines[r..][i];
  }

  lemma PairColumns(removed: seq<ParsedLine>, added: seq<ParsedLine>)
    requires forall x | x in removed :: x.kind == RemoveKind
    requires forall x | x in added :: x.kind == AddKind
    ensures FlatMap(PairRows(removed, added, 0), LeftOf) == FlatMap(removed, OldCell) + FlatMap(added, OldCell)
    ensures FlatMap(PairRows(removed, added, 0), RightOf) == FlatMap(removed, NewCell) + FlatMap(added, NewCell)
  {
    assert removed[0..] == removed && added[0..] == added;
    PairRowsColumns(removed, added, 0);
    FlatMapEmpty(added, OldCell);
    FlatMapEmpty(removed, NewCell);
  }

  lemma RunColumn(removed: seq<ParsedLine>, added: seq<ParsedLine>, rest: seq<ParsedLine>,
                  column: Row -> seq<Cell>, cell: ParsedLine -> seq<Cell>)
    requires FlatMap(PairRows(removed, added, 0), column) == FlatMap(removed, cell) + FlatMap(added, cell)
    requires FlatMap(Rows(rest), column) == FlatMap(rest, cell)
    ensures FlatMap(PairRows(removed, added, 0) + Rows(rest), column) == FlatMap(removed + (added + rest), cell)
  {
    FlatMapConcat(PairRows(removed, added, 0), Rows(rest), column);
    FlatMapConcat(removed, added + rest, cell);
    FlatMapConcat(added, rest, cell);
    ConcatAssociative(FlatMap(removed, cell), FlatMap(added, cell), FlatMap(rest, cell));
  }

  // ---------------------------------------------------------------- what survives print and parse

  /** The two sides of a parse that starts with the given line numbers, hidden lines left out. */
  function ReadOld(raws: seq<string>, o: nat, n: nat): seq<Cell> {
    FlatMap(Filter(ParseLines(raws, o, n), Shown), OldCell)
  }

  function ReadNew(raws: seq<string>, o: nat, n: nat): seq<Cell> {
    FlatMap(Filter(ParseLines(raws, o, n), Shown), NewCell)
  }

  lemma ReadHead(raws: seq<string>, o: nat, n: nat)
    requires raws != []
    ensures var p := ParseLine(raws[0], o, n);
            && ReadOld(raws, o, n) == (if Shown(p.line) then OldCell(p.line) else []) + ReadOld(raws[1..], p.oldNext, p.newNext)
            && ReadNew(raws, o, n) == (if Shown(p.line) then NewCell(p.line) else []) + ReadNew(raws[1..], p.oldNext, p.newNext)
  {
    var p := ParseLine(raws[0], o, n);
    var rest := ParseLines(raws[1..], p.oldNext, p.newNext);
    var lines := ParseLines(raws, o, n);
    assert lines[0] == p.line && lines[1..] == rest;
    if Shown(p.line) {
      FlatMapCons(p.line, Filter(rest, Shown), OldCell);
      FlatMapCons(p.line, Filter(rest, Shown), NewCell);
    }
  }

  function Cells(side: seq<Numbered>): (r: seq<Cell>)
    ensures |r| == |side|
    ensures forall i :: 0 <= i < |r| ==> r[i] == Cell(Some(side[i].number), side[i].text)
  {
    seq(|side|, i requires 0 <= i < |side| => Cell(Some(side[i].number), side[i].text))
  }

  lemma CellsConcat(a: seq<Numbered>, b: seq<Numbered>)
    ensures Cells(a + b) == Cells(a) + Cells(b)
  {}

  /** An operation that the parser reads back as it was printed. `last` says that no line follows. */
  predicate Survives(op: DiffOp, last: bool) {
    && (last || !EndsWithCr(op.line))
    && (op.Remove? ==> op.line != "" && !StartsWith(op.line, "-- "))
    && (op.Add? ==> op.line != "" && !StartsWith(op.line, "++ "))
  }

  predicate AllSurvive(ops: seq<DiffOp>) {
    forall i | 0 <= i < |ops| :: Survives(ops[i], i == |ops| - 1)
  }

  /** The script numbers its lines consecutively from `o` and `n`. */
  predicate Consecutive(ops: seq<DiffOp>, o: nat, n: nat) {
    ops == [] ||
    match ops[0]
    case Context(_, p, q) => p == o && q == n && Consecutive(ops[1..], o + 1, n + 1)
    case Remove(_, p) => p == o && Consecutive(ops[1..], o + 1, n)
    case Add(_, q) => q == n && Consecutive(ops[1..], o, n + 1)
  }

  /** A numbered file that begins with `head` has it as its first line. */
  lemma HeadIsFirst(lines: seq<string>, start: nat, head: Numbered, rest: seq<Numbered>)
    requires [head] + rest == NumberFrom(lines, start)
    ensures lines != [] && head == Numbered(start, lines[0]) && rest == NumberFrom(lines[1..], start + 1)
  {
    var all := NumberFrom(lines, start);
    assert all[0] == head && all[1..] == rest;
    assert all[1..] == NumberFrom(lines[1..], start + 1);
  }

  lemma {:induction false} SidesAreConsecutive(ops: seq<DiffOp>, before: seq<string>, after: seq<string>, o: nat, n: nat)
    requires OldSide(ops) == NumberFrom(before, o) && NewSide(ops) == NumberFrom(after, n)
    ensures Consecutive(ops, o, n)
  {
    hide NumberFrom, OldSide, NewSide;
    if ops != [] {
      var rest := ops[1..];
      assert ops == [ops[0]] + rest;
      ConsSides(ops[0], rest);
      if !ops[0].Add? {
        HeadIsFirst(before, o, Numbered(ops[0].oldNumber, ops[0].line), OldSide(rest));
      }
      if !ops[0].Remove? {
        HeadIsFirst(after, n, Numbered(ops[0].newNumber, ops[0].line), NewSide(rest));
      }
      SidesAreConsecutive(rest, if ops[0].Add? then before else before[1..], if ops[0].Remove? then after else after[1..],
                          if ops[0].Add? then o else o + 1, if ops[0].Remove? then n else n + 1);
    }
  }

  /** The text of an operation when its line is read back: a final CR before a line break is gone. */
  function RereadText(op: DiffOp, last: bool): string {
    if last then op.line else StripCr(op.line)
  }

  function Mark(op: DiffOp): char {
    if op.Context? then ' ' else if op.Remove? then '-' else '+'
  }

  lemma RereadOp(op: DiffOp, last: bool)
    ensures (if last then FormatOp(op) else StripCr(FormatOp(op))) == [Mark(op)] + RereadText(op, last)
  {
    assert FormatOp(op) == [Mark(op)] + op.line;
  }

  /** An operation is lost when its line is read as a file header or hidden as empty. */
  predicate Lost(op: DiffOp, last: bool) {
    var text := RereadText(op, last);
    (op.Remove? && (text == "" || StartsWith(text, "-- "))) || (op.Add? && (text == "" || StartsWith(text, "++ ")))
  }

  /** How the parser reads one printed operation. */
  lemma ParseOfOp(op: DiffOp, text: string, o: nat, n: nat)
    requires o > 0 && n > 0
    ensures var p := ParseLine([Mark(op)] + text, o, n);
            match op
            case Context(_, _, _) => p == Parse(ParsedLine(ContextKind, text, Some(o), Some(n)), o + 1, n + 1)
            case Remove(_, _) =>
              if StartsWith(text, "-- ") then p.line.kind == MetaKind
              else p == Parse(ParsedLine(RemoveKind, text, Some(o), None), o + 1, n)
            case Add(_, _) =>
              if StartsWith(text, "++ ") then p.line.kind == MetaKind
              else p == Parse(ParsedLine(AddKind, text, None, Some(n)), o, n + 1)
  {
    var raw := [Mark(op)] + text;
    assert raw[0] == Mark(op) && raw[1..] == text;
    assert !StartsWith(raw, "@@ -") && !StartsWith(raw, "diff --git") && !StartsWith(raw, "index ") by {
      assert "@@ -"[0] == '@' && "diff --git"[0] == 'd' && "index "[0] == 'i';
    }
    MarkedHeader(raw, text, '-', "-- ", "--- ");
    MarkedHeader(raw, text, '+', "++ ", "+++ ");
  }

  lemma MarkedHeader(raw: string, text: string, mark: char, short: string, long: string)
    requires raw != "" && raw[1..] == text && long == [mark] + short
    ensures StartsWith(raw, long) <==> raw[0] == mark && StartsWith(text, short)
  {
    if |long| <= |raw| {
      assert raw[..|long|] == [raw[0]] + text[..|short|];
      assert long[0] == mark && long[1..] == short;
    }
  }

  /** A printed script as the parser sees it. */
  function Body(ops: seq<DiffOp>): seq<string> {
    Reread(FormatOps(ops))
  }

  lemma BodyHead(ops: seq<DiffOp>)
    requires ops != []
    ensures Body(ops) != [] && Body(ops)[0] == [Mark(ops[0])] + RereadText(ops[0], |ops| == 1)
    ensures Body(ops)[1..] == Body(ops[1..])
  {
    RereadOp(ops[0], |ops| == 1);
    assert FormatOps(ops)[1..] == FormatOps(ops[1..]);
  }

  lemma SurvivesMeans(op: DiffOp, last: bool)
    ensures Survives(op, last) <==> !Lost(op, last) && RereadText(op, last) == op.line
  {}

  /** What one printed operation contributes to the two sides, and the line numbers after it. */
  datatype Reading = Reading(left: seq<Cell>, right: seq<Cell>, oldNext: nat, newNext: nat)

  predicate ReadAsHeader(op: DiffOp, text: string) {
    (op.Remove? && StartsWith(text, "-- ")) || (op.Add? && StartsWith(text, "++ "))
  }

  function ReadingOf(op: DiffOp, last: bool, o: nat, n: nat): Reading {
    var text := RereadText(op, last);
    Reading(if op.Add? || Lost(op, last) then [] else [Cell(Some(o), text)],
            if op.Remove? || Lost(op, last) then [] else [Cell(Some(n), text)],
            if op.Add? || ReadAsHeader(op, text) then o else o + 1,
            if op.Remove? || ReadAsHeader(op, text) then n else n + 1)
  }

  lemma ParseIsReading(op: DiffOp, last: bool, o: nat, n: nat)
    requires o > 0 && n > 0
    ensures var p := ParseLine([Mark(op)] + RereadText(op, last), o, n);
            ReadingOf(op, last, o, n) == Reading(
              if Shown(p.line) then OldCell(p.line) else [], if Shown(p.line) then NewCell(p.line) else [], p.oldNext, p.newNext)
  {
    var text := RereadText(op, last);
    ParseOfOp(op, text, o, n);
    if ReadAsHeader(op, text) {
      HeaderKeepsNumbers([Mark(op)] + text, o, n);
    }
  }

  lemma HeaderKeepsNumbers(raw: string, o: nat, n: nat)
    requires ParseLine(raw, o, n).line.kind == MetaKind
    ensures ParseLine(raw, o, n) == Parse(ParsedLine(MetaKind, raw, None, None), o, n)
  {}

  lemma BodyStep(ops: seq<DiffOp>, o: nat, n: nat)
    requires ops != [] && o > 0 && n > 0
    ensures var r := ReadingOf(ops[0], |ops| == 1, o, n);
            && ReadOld(Body(ops), o, n) == r.left + ReadOld(Body(ops[1..]), r.oldNext, r.newNext)
            && ReadNew(Body(ops), o, n) == r.right + ReadNew(Body(ops[1..]), r.oldNext, r.newNext)
  {
    BodyHead(ops);
    ReadHead(Body(ops), o, n);
    ParseIsReading(ops[0], |ops| == 1, o, n);
  }

  lemma {:induction false} ReadingAddsNothing(ops: seq<DiffOp>, o: nat, n: nat)
    requires o > 0 && n > 0
    ensures |ReadOld(Body(ops), o, n)| <= |OldSide(ops)|
    ensures |ReadNew(Body(ops), o, n)| <= |NewSide(ops)|
  {
    if ops != [] {
      BodyStep(ops, o, n);
      var r := ReadingOf(ops[0], |ops| == 1, o, n);
      ReadingAddsNothing(ops[1..], r.oldNext, r.newNext);
    }
  }

  predicate ReadsBack(ops: seq<DiffOp>, o: nat, n: nat) {
    ReadOld(Body(ops), o, n) == Cells(OldSide(ops)) && ReadNew(Body(ops), o, n) == Cells(NewSide(ops))
  }

  /** The parse of a printed script shows both of its sides exactly when every operation survives. */
  lemma {:induction false} ReadsBackExactly(ops: seq<DiffOp>, o: nat, n: nat)
    requires Consecutive(ops, o, n) && o > 0 && n > 0
    ensures ReadsBack(ops, o, n) <==> AllSurvive(ops)
  {
    if ops != [] {
      hide ReadOld, ReadNew, Body, Cells, OldOf, NewOf, AllSurvive, Survives;
      var op, rest, last := ops[0], ops[1..], |ops| == 1;
      var r := ReadingOf(op, last, o, n);
      BodyStep(ops, o, n);
      CellsConcat(OldOf(op), OldSide(rest));
      CellsConcat(NewOf(op), NewSide(rest));
      AllSurviveStep(ops);
      ReadingAddsNothing(rest, r.oldNext, r.newNext);
      ReadingMatches(op, last, o, n, ReadOld(Body(rest), r.oldNext, r.newNext), ReadNew(Body(rest), r.oldNext, r.newNext),
                     Cells(OldSide(rest)), Cells(NewSide(rest)));
      if !Lost(op, last) {
        ReadsBackExactly(rest, r.oldNext, r.newNext);
      } else {
        SurvivesMeans(op, last);
      }
    }
  }

  /** One operation and the rest of the script: the columns match exactly when both parts do. */
  lemma ReadingMatches(op: DiffOp, last: bool, o: nat, n: nat,
                       restOld: seq<Cell>, restNew: seq<Cell>, wantOld: seq<Cell>, wantNew: seq<Cell>)
    requires !op.Add? ==> op.oldNumber == o
    requires !op.Remove? ==> op.newNumber == n
    requires |restOld| <= |wantOld| && |restNew| <= |wantNew|
    ensures var r := ReadingOf(op, last, o, n);
            (r.left + restOld == Cells(OldOf(op)) + wantOld && r.right + restNew == Cells(NewOf(op)) + wantNew)
            <==> (Survives(op, last) && restOld == wantOld && restNew == wantNew)
  {
    var r := ReadingOf(op, last, o, n);
    SurvivesMeans(op, last);
    if !Lost(op, last) {
      assert !op.Add? ==> Cells(OldOf(op)) == [Cell(Some(o), op.line)];
      assert !op.Remove? ==> Cells(NewOf(op)) == [Cell(Some(n), op.line)];
      assert r.left == Cells(OldOf(op)) && r.left != [] ==> r.left[0] == Cells(OldOf(op))[0];
      assert r.right == Cells(NewOf(op)) && r.right != [] ==> r.right[0] == Cells(NewOf(op))[0];
      HeadEqual(r.left, restOld, Cells(OldOf(op)), wantOld);
      HeadEqual(r.right, restNew, Cells(NewOf(op)), wantNew);
    } else if op.Remove? {
      assert |r.left + restOld| < |Cells(OldOf(op)) + wantOld|;
    } else {
      assert |r.right + restNew| < |Cells(NewOf(op)) + wantNew|;
    }
  }

  lemma AllSurviveStep(ops: seq<DiffOp>)
    requires ops != []
    ensures AllSurvive(ops) <==> Survives(ops[0], |ops| == 1) && AllSurvive(ops[1..])
  {
    if AllSurvive(ops) {
      forall i | 0 <= i < |ops[1..]|
        ensures Survives(ops[1..][i], i == |ops[1..]| - 1)
      {
        assert Survives(ops[i + 1], i + 1 == |ops| - 1);
      }
    }
  }

  lemma HeadEqual<T>(x: seq<T>, s: seq<T>, y: seq<T>, t: seq<T>)
    requires |x| == |y|
    ensures x + s == y + t <==> x == y && s == t
  {
    if x + s == y + t {
      assert (x + s)[..|x|] == x && (y + t)[..|y|] == y;
      assert (x + s)[|x|..] == s && (y + t)[|y|..] == t;
    }
  }

  // ---------------------------------------------------------------- the header and the hunk line

  lemma {:induction false} DigitRunOf(digits: string, rest: string)
    requires AllDigits(digits) && (|rest| > 0 ==> !IsDigit(rest[0]))
    ensures DigitRun(digits + rest) == |digits|
  {
    if digits == "" {
      assert digits + rest == rest;
    } else {
      assert (digits + rest)[1..] == digits[1..] + rest;
      DigitRunOf(digits[1..], rest);
    }
  }

  lemma BehindOf(prefix: string, rest: string)
    ensures Behind(prefix + rest, prefix).Some? && Behind(prefix + rest, prefix).value == rest
  {}

  /** Reading a printed start number and count finds both whole and leaves the rest. */
  lemma FieldOfPrinted(start: string, count: string, rest: string)
    requires AllDigits(start) && AllDigits(count) && |start| > 0 && |count| > 0 && |rest| > 0 && !IsDigit(rest[0])
    ensures var field := FieldOf(HunkField(start, count, rest));
            field.Field? && field.digits == start && field.rest == rest
  {
    var tail := "," + (count + rest);
    DigitRunOf(start, tail);
    DigitRunOf(count, rest);
    assert (start + tail)[..|start|] == start && (start + tail)[|start|..] == tail;
    assert tail[1..] == count + rest && (count + rest)[|count|..] == rest;
  }

  predicate IsStart(digits: string) {
    digits != "" && forall i | 0 <= i < |digits| :: '0' <= digits[i] <= '9'
  }

  predicate IsCount(count: string) {
    count == "" || (|count| > 1 && count[0] == ',' && IsStart(count[1..]))
  }

  lemma FieldReads(digits: string, count: string, rest: string)
    requires IsStart(digits) && IsCount(count) && rest != "" && !IsDigit(rest[0]) && rest[0] != ','
    ensures FieldOf(digits + (count + rest)) == Field(digits, rest)
  {
    hide FieldOf;
    if count == "" {
      UncountedFieldReads(digits, rest);
      assert count + rest == rest;
    } else {
      FieldOfPrinted(digits, count[1..], rest);
      assert digits + (count + rest) == HunkField(digits, count[1..], rest);
    }
  }

  lemma FieldSplits(s: string) returns (count: string)
    requires FieldOf(s).Field?
    ensures IsStart(FieldOf(s).digits) && IsCount(count) && s == FieldOf(s).digits + (count + FieldOf(s).rest)
  {
    var tail := s[DigitRun(s)..];
    var rest := FieldOf(s).rest;
    assert s == FieldOf(s).digits + tail;
    count := tail[..|tail| - |rest|];
    hide DigitRun;
    assert tail == count + rest;
    if count != "" {
      assert count[1..] == tail[1..][..DigitRun(tail[1..])];
    }
  }

  lemma UncountedFieldReads(digits: string, rest: string)
    requires AllDigits(digits) && digits != "" && rest != "" && !IsDigit(rest[0]) && rest[0] != ','
    ensures FieldOf(digits + rest) == Field(digits, rest)
  {
    DigitRunOf(digits, rest);
    hide DigitRun, AllDigits;
    assert (digits + rest)[..|digits|] == digits && (digits + rest)[|digits|..] == rest;
  }

  /** A hunk line: two start numbers, each with or without a count, and any heading behind the marks. */
  predicate IsHunkText(raw: string, oldDigits: string, oldCount: string, newDigits: string, newCount: string, heading: string) {
    && IsStart(oldDigits) && IsCount(oldCount) && IsStart(newDigits) && IsCount(newCount)
    && raw == "@@ -" + (oldDigits + (oldCount + (" +" + (newDigits + (newCount + (" @@" + heading))))))
  }

  /** Every hunk line gives its two start numbers. */
  lemma HunkLineReads(raw: string, oldDigits: string, oldCount: string, newDigits: string, newCount: string, heading: string)
    requires IsHunkText(raw, oldDigits, oldCount, newDigits, newCount, heading)
    ensures HunkStart(raw) == Some((NumberOf(oldDigits), NumberOf(newDigits)))
  {
    hide FieldOf, NumberOf;
    var end := " @@" + heading;
    var second := " +" + (newDigits + (newCount + end));
    assert StartsWith(end, " @@") && end[0] == ' ' && second[0] == ' ';
    FieldReads(newDigits, newCount, end);
    FieldReads(oldDigits, oldCount, second);
    BehindOf("@@ -", oldDigits + (oldCount + second));
    BehindOf(" +", newDigits + (newCount + end));
    hide Behind;
    assert SecondDigits(second) == Some(newDigits);
  }

  lemma PrefixAndBehind(s: string, prefix: string)
    requires Behind(s, prefix).Some?
    ensures s == prefix + Behind(s, prefix).value
  {}

  lemma SecondStartSplits(s: string) returns (count: string, heading: string)
    requires SecondDigits(s).Some?
    ensures IsStart(SecondDigits(s).value) && IsCount(count) && s == " +" + (SecondDigits(s).value + (count + (" @@" + heading)))
  {
    PrefixAndBehind(s, " +");
    var second := Behind(s, " +").value;
    hide Behind, FieldOf;
    count := FieldSplits(second);
    heading := FieldOf(second).rest[3..];
    hide IsStart, IsCount;
    assert FieldOf(second).rest == " @@" + heading;
  }

  predicate ReadsAs(raws: seq<string>, kind: LineKind) {
    exists raw | raw in raws :: ParseLine(raw, 0, 0).line.kind == kind
  }

  /** Without a hunk line and a removed line in front of it no line has an old number. */
  lemma {:induction false} NoOldNumbers(raws: seq<string>, newLine: nat)
    requires !ReadsAs(raws, HunkKind) && !ReadsAs(raws, RemoveKind)
    ensures forall k | 0 <= k < |raws| :: ParseLines(raws, 0, newLine)[k].oldLine.None?
  {
    if raws != [] {
      assert raws[0] in raws && forall raw | raw in raws[1..] :: raw in raws;
      hide ParseLine, ParseLines;
      KindTellsNumbers(raws[0], 0, newLine);
      ParseLinesStep(raws, 0, newLine);
      NoOldNumbers(raws[1..], ParseLine(raws[0], 0, newLine).newNext);
    }
  }

  /** Without a hunk line and an added line in front of it no line has a new number. */
  lemma {:induction false} NoNewNumbers(raws: seq<string>, oldLine: nat)
    requires !ReadsAs(raws, HunkKind) && !ReadsAs(raws, AddKind)
    ensures forall k | 0 <= k < |raws| :: ParseLines(raws, oldLine, 0)[k].newLine.None?
  {
    if raws != [] {
      assert raws[0] in raws && forall raw | raw in raws[1..] :: raw in raws;
      hide ParseLine, ParseLines;
      KindTellsNumbers(raws[0], oldLine, 0);
      ParseLinesStep(raws, oldLine, 0);
      NoNewNumbers(raws[1..], ParseLine(raws[0], oldLine, 0).oldNext);
    }
  }

  lemma ParseLinesStep(raws: seq<string>, oldLine: nat, newLine: nat)
    requires raws != []
    ensures var p := ParseLine(raws[0], oldLine, newLine);
            ParseLines(raws, oldLine, newLine) == [p.line] + ParseLines(raws[1..], p.oldNext, p.newNext)
  {
    hide ParseLine;
  }

  lemma KindTellsNumbers(raw: string, oldLine: nat, newLine: nat)
    ensures var p, kind := ParseLine(raw, oldLine, newLine), ParseLine(raw, 0, 0).line.kind;
      && (oldLine == 0 && kind != HunkKind && kind != RemoveKind ==> p.line.oldLine.None? && p.oldNext == 0)
      && (newLine == 0 && kind != HunkKind && kind != AddKind ==> p.line.newLine.None? && p.newNext == 0)
  {
    hide HunkStart;
  }

  /** Nothing else is read as a hunk line. */
  lemma OnlyHunkLinesRead(raw: string)
    requires HunkStart(raw).Some?
    ensures exists oldDigits, oldCount, newDigits, newCount, heading ::
              IsHunkText(raw, oldDigits, oldCount, newDigits, newCount, heading)
  {
    PrefixAndBehind(raw, "@@ -");
    var first := Behind(raw, "@@ -").value;
    hide Behind, FieldOf, NumberOf;
    var oldCount := FieldSplits(first);
    hide SecondDigits;
    var newCount, heading := SecondStartSplits(FieldOf(first).rest);
    hide IsStart, IsCount, HunkStart;
    assert IsHunkText(raw, FieldOf(first).digits, oldCount, SecondDigits(FieldOf(first).rest).value, newCount, heading);
  }

  lemma HunkLineStarts(oldCount: nat, newCount: nat)
    ensures HunkStart(HunkLine(oldCount, newCount)) == Some((1, 1))
  {
    assert "1"[..0] == "" && NumberOf("") == 0;
    assert NumberOf("1") == 1;
    PrintedHunkStarts(HunkLine(oldCount, newCount), "1", Decimal(oldCount), "1", Decimal(newCount));
  }

  lemma PrintedHunkStarts(raw: string, s: string, a: string, t: string, b: string)
    requires raw == "@@ -" + HunkField(s, a, " +" + HunkField(t, b, " @@"))
    requires AllDigits(s) && AllDigits(a) && AllDigits(t) && AllDigits(b) && |s| > 0 && |a| > 0 && |t| > 0 && |b| > 0
    ensures HunkDigits(raw).Some? && HunkDigits(raw).value.0 == s && HunkDigits(raw).value.1 == t
  {
    hide HunkField, FieldOf, Behind, SecondDigits;
    var rest := " +" + HunkField(t, b, " @@");
    BehindOf("@@ -", HunkField(s, a, rest));
    FieldOfPrinted(s, a, rest);
    SecondDigitsOf(t, b);
  }

  lemma SecondDigitsOf(t: string, b: string)
    requires AllDigits(t) && AllDigits(b) && |t| > 0 && |b| > 0
    ensures SecondDigits(" +" + HunkField(t, b, " @@")).Some?
    ensures SecondDigits(" +" + HunkField(t, b, " @@")).value == t
  {
    hide HunkField, FieldOf, Behind;
    BehindOf(" +", HunkField(t, b, " @@"));
    FieldOfPrinted(t, b, " @@");
    assert StartsWith(" @@", " @@");
  }

  // ---------------------------------------------------------------- the whole review

  predicate IsHeaderText(raw: string) {
    exists i | 0 <= i < 4 :: StartsWith(raw, HeaderPrefix(i))
  }

  lemma HeaderParse(raw: string, o: nat, n: nat)
    requires IsHeaderText(raw)
    ensures ParseLine(raw, o, n) == Parse(ParsedLine(MetaKind, raw, None, None), o, n)
  {
    assert raw[0] != '@' by {
      assert "diff --git"[0] == 'd' && "index "[0] == 'i' && "--- "[0] == '-' && "+++ "[0] == '+';
    }
    assert "@@ -"[0] == '@';
  }

  /** A printed header line is still a header line when it has lost a final CR. */
  lemma HeaderReread(prefix: string, tail: string)
    requires |prefix| > 0 && !EndsWithCr(prefix)
    ensures StartsWith(StripCr(prefix + tail), prefix)
  {
    var s := prefix + tail;
    if |tail| == 0 {
      assert s == prefix;
    } else {
      assert StripCr(s)[..|prefix|] == prefix;
    }
  }

  lemma HeadersReread(path: string)
    ensures forall i | 0 <= i < 4 :: IsHeaderText(StripCr(HeaderLines(path)[i]))
  {
    forall i | 0 <= i < 4
      ensures IsHeaderText(StripCr(HeaderLines(path)[i]))
    {
      HeaderReread(HeaderPrefix(i), HeaderTail(path, i));
    }
  }

  lemma {:induction false} RereadConcat(a: seq<string>, b: seq<string>)
    requires b != []
    ensures |Reread(a + b)| == |a| + |b| && Reread(a + b)[|a|..] == Reread(b)
    ensures forall i | 0 <= i < |a| :: Reread(a + b)[i] == StripCr(a[i])
  {
    if a == [] {
      assert a + b == b;
    } else {
      assert (a + b)[1..] == a[1..] + b;
      RereadConcat(a[1..], b);
    }
  }

  /** Header lines in front of a text add rows of their own and nothing to the columns or the numbers. */
  lemma {:induction false} ReadBehindHeaders(raws: seq<string>, k: nat, o: nat, n: nat)
    requires k <= |raws| && forall i | 0 <= i < k :: IsHeaderText(raws[i])
    ensures ReadOld(raws, o, n) == ReadOld(raws[k..], o, n) && ReadNew(raws, o, n) == ReadNew(raws[k..], o, n)
    ensures ParseLines(raws, o, n)[k..] == ParseLines(raws[k..], o, n)
    decreases k
  {
    hide IsHeaderText, ReadOld, ReadNew, ParseLine, ParseLines;
    if k > 0 {
      HeaderParse(raws[0], o, n);
      ReadHead(raws, o, n);
      ReadBehindHeaders(raws[1..], k - 1, o, n);
      assert raws[1..][k - 1..] == raws[k..];
      ParseBehindHeader(raws, o, n);
      assert ParseLines(raws, o, n)[k..] == ParseLines(raws, o, n)[1..][k - 1..];
    } else {
      assert raws[k..] == raws;
    }
  }

  lemma ParseBehindHeader(raws: seq<string>, o: nat, n: nat)
    requires raws != [] && IsHeaderText(raws[0])
    ensures ParseLines(raws, o, n)[1..] == ParseLines(raws[1..], o, n)
  {
    hide IsHeaderText, ParseLine;
    HeaderParse(raws[0], o, n);
  }

  lemma {:induction false} FilterCounts(ops: seq<DiffOp>)
    ensures |Filter(ops, (op: DiffOp) => !op.Add?)| == |OldSide(ops)|
    ensures |Filter(ops, (op: DiffOp) => !op.Remove?)| == |NewSide(ops)|
  {
    if ops != [] {
      FilterCounts(ops[1..]);
    }
  }

  /** The rows of header and hunk lines stand one by one in front of the other rows. */
  lemma {:induction false} RowsOfTexts(lines: seq<ParsedLine>, k: nat)
    requires k <= |lines| && forall i | 0 <= i < k :: lines[i].kind == MetaKind || lines[i].kind == HunkKind
    ensures |Rows(lines)| >= k
    ensures forall i | 0 <= i < k :: Rows(lines)[i] == SingleRow(lines[i])
    decreases k
  {
    if k > 0 {
      RowsOfTexts(lines[1..], k - 1);
    }
  }

  /**
   The review of two versions of a file, from file contents to rendered rows.
   The left column is the old file and the right column the new file, each numbered from 1,
   exactly when every operation of the diff survives being printed and parsed.
   */
  lemma ReviewShowsBothFiles(path: string, before: string, after: string)
    requires '\n' !in path
    ensures var rows := Rows(Parsed(FullFileDiff(path, before, after), None));
            (FlatMap(rows, LeftOf) == Cells(NumberFrom(FileLines(before), 1)) && FlatMap(rows, RightOf) == Cells(NumberFrom(FileLines(after), 1)))
            <==> AllSurvive(DiffScript(FileLines(before), FileLines(after)))
  {
    var oldLines, newLines := FileLines(before), FileLines(after);
    var ops := DiffScript(oldLines, newLines);
    ScriptShowsBothFiles(oldLines, newLines);
    SidesAreConsecutive(ops, oldLines, newLines, 1, 1);
    ReadsBackExactly(ops, 1, 1);
    PrintedDiffParses(path, before, after);
    RowsColumns(Parsed(FullFileDiff(path, before, after), None));
  }

  lemma NoBreaksIf(lines: seq<string>)
    requires forall i | 0 <= i < |lines| :: '\n' !in lines[i]
    ensures NoBreaks(lines)
  {}

  lemma OpHasNoBreak(ops: seq<DiffOp>, before: seq<string>, after: seq<string>, i: nat)
    requires OldSide(ops) == NumberFrom(before, 1) && NewSide(ops) == NumberFrom(after, 1)
    requires NoBreaks(before) && NoBreaks(after) && i < |ops|
    ensures '\n' !in FormatOp(ops[i])
  {
    hide OldSide, NewSide;
    OpLineIsFileLine(ops, i);
  }

  lemma ScriptHasNoBreaks(ops: seq<DiffOp>, before: seq<string>, after: seq<string>)
    requires OldSide(ops) == NumberFrom(before, 1) && NewSide(ops) == NumberFrom(after, 1)
    requires NoBreaks(before) && NoBreaks(after)
    ensures NoBreaks(FormatOps(ops))
  {
    hide OldSide, NewSide, NumberFrom, NoBreaks;
    forall i | 0 <= i < |ops|
      ensures '\n' !in FormatOp(ops[i])
    {
      OpHasNoBreak(ops, before, after, i);
    }
    NoBreaksIf(FormatOps(ops));
  }

  lemma OpLineIsFileLine(ops: seq<DiffOp>, i: nat)
    requires i < |ops|
    ensures (exists k | 0 <= k < |OldSide(ops)| :: OldSide(ops)[k].text == ops[i].line)
         || (exists k | 0 <= k < |NewSide(ops)| :: NewSide(ops)[k].text == ops[i].line)
  {
    assert ops == ops[..i] + ([ops[i]] + ops[i + 1..]);
    SidesConcat(ops[..i], [ops[i]] + ops[i + 1..]);
    ConsSides(ops[i], ops[i + 1..]);
    if ops[i].Add? {
      var k := |NewSide(ops[..i])|;
      assert NewSide(ops)[k].text == ops[i].line;
    } else {
      var k := |OldSide(ops[..i])|;
      assert OldSide(ops)[k].text == ops[i].line;
    }
  }

  lemma HeaderHasNoBreak(path: string, i: nat)
    requires '\n' !in path && i < 4
    ensures '\n' !in HeaderPrefix(i) && '\n' !in HeaderTail(path, i)
  {}

  lemma HeadersHaveNoBreaks(path: string)
    requires '\n' !in path
    ensures NoBreaks(HeaderLines(path))
  {
    hide HeaderLines;
    forall i | 0 <= i < 4
      ensures '\n' !in HeaderLines(path)[i]
    {
      HeaderHasNoBreak(path, i);
      hide HeaderPrefix, HeaderTail;
    }
  }

  lemma HunkHasNoBreak(oldCount: nat, newCount: nat)
    ensures '\n' !in HunkLine(oldCount, newCount) && StripCr(HunkLine(oldCount, newCount)) == HunkLine(oldCount, newCount)
  {
    var inner := HunkField("1", Decimal(newCount), " @@");
    DigitsHaveNoBreak(Decimal(oldCount));
    DigitsHaveNoBreak(Decimal(newCount));
    assert '\n' !in inner && inner[|inner| - 1] == '@';
    var field := HunkField("1", Decimal(oldCount), " +" + inner);
    assert '\n' !in field && field[|field| - 1] == '@';
  }

  lemma DigitsHaveNoBreak(s: string)
    requires AllDigits(s)
    ensures '\n' !in s
  {}

  /** The lines of a printed review when the text is split again. */
  lemma PrintedLines(path: string, ops: seq<DiffOp>)
    requires '\n' !in path && ops != [] && NoBreaks(FormatOps(ops))
    ensures var hunk := HunkLine(|OldSide(ops)|, |NewSide(ops)|);
            var raws := SplitAtBreaks(JoinLines(DiffLines(path, ops)));
            && |raws| == 5 + |ops| && raws[4] == hunk && raws[5..] == Body(ops)
            && forall i | 0 <= i < 4 :: IsHeaderText(raws[i])
  {
    var header, body, hunk := HeaderLines(path), FormatOps(ops), HunkLine(|OldSide(ops)|, |NewSide(ops)|);
    FilterCounts(ops);
    HeadersHaveNoBreaks(path);
    HunkHasNoBreak(|OldSide(ops)|, |NewSide(ops)|);
    HeadersReread(path);
    SplitParts(header, hunk, body);
  }

  lemma SplitParts(header: seq<string>, hunk: string, body: seq<string>)
    requires NoBreaks(header) && '\n' !in hunk && NoBreaks(body) && body != [] && StripCr(hunk) == hunk
    ensures var raws := SplitAtBreaks(JoinLines(header + ([hunk] + body)));
            && |raws| == |header| + 1 + |body| && raws[|header|] == hunk && raws[|header| + 1..] == Reread(body)
            && forall i | 0 <= i < |header| :: raws[i] == StripCr(header[i])
  {
    var tail := [hunk] + body;
    var printed := header + tail;
    assert NoBreaks(tail) && NoBreaks(printed);
    SplitOfJoin(printed);
    RereadConcat(header, tail);
    RereadConcat([hunk], body);
    var raws := Reread(printed);
    assert raws[|header|] == raws[|header|..][0];
    assert raws[|header| + 1..] == raws[|header|..][1..];
  }

  /** The text of a review parses to four header lines, the hunk line with both counts, and the body. */
  lemma PrintedDiffParses(path: string, before: string, after: string)
    requires '\n' !in path
    ensures var ops := DiffScript(FileLines(before), FileLines(after));
            var lines := Parsed(FullFileDiff(path, before, after), None);
            && FlatMap(lines, OldCell) == ReadOld(Body(ops), 1, 1)
            && FlatMap(lines, NewCell) == ReadNew(Body(ops), 1, 1)
            && |lines| >= 5 && (forall i | 0 <= i < 4 :: lines[i].kind == MetaKind)
            && lines[4].kind == HunkKind && lines[4].text == HunkLine(|FileLines(before)|, |FileLines(after)|)
  {
    var oldLines, newLines := FileLines(before), FileLines(after);
    var ops := DiffScript(oldLines, newLines);
    FileLinesHaveNoBreaks(before);
    FileLinesHaveNoBreaks(after);
    ScriptShowsBothFiles(oldLines, newLines);
    ScriptHasNoBreaks(ops, oldLines, newLines);
    PrintedLines(path, ops);
    HeaderAndHunkParse(SplitAtBreaks(FullFileDiff(path, before, after)), |oldLines|, |newLines|);
  }

  lemma HeaderAndHunkParse(raws: seq<string>, oldCount: nat, newCount: nat)
    requires |raws| >= 5 && raws[4] == HunkLine(oldCount, newCount)
    requires forall i | 0 <= i < 4 :: IsHeaderText(raws[i])
    ensures ReadOld(raws, 0, 0) == ReadOld(raws[5..], 1, 1) && ReadNew(raws, 0, 0) == ReadNew(raws[5..], 1, 1)
    ensures var lines := Filter(ParseLines(raws, 0, 0), Shown);
            && |lines| >= 5 && (forall i | 0 <= i < 4 :: lines[i].kind == MetaKind)
            && lines[4].kind == HunkKind && lines[4].text == raws[4]
  {
    ReadBehindHeaders(raws, 4, 0, 0);
    HunkParse(raws[4..], oldCount, newCount);
    assert raws[4..][1..] == raws[5..];
    HeadersShown(raws, 4, 0, 0);
  }

  lemma HunkParse(raws: seq<string>, oldCount: nat, newCount: nat)
    requires raws != [] && raws[0] == HunkLine(oldCount, newCount)
    ensures ReadOld(raws, 0, 0) == ReadOld(raws[1..], 1, 1) && ReadNew(raws, 0, 0) == ReadNew(raws[1..], 1, 1)
    ensures var lines := Filter(ParseLines(raws, 0, 0), Shown);
            lines != [] && lines[0].kind == HunkKind && lines[0].text == raws[0]
  {
    hide HunkLine, HunkStart, ReadOld, ReadNew, ParseLine, ParseLines, Filter;
    HunkLineStarts(oldCount, newCount);
    HunkLineHasText(oldCount, newCount);
    ReadHead(raws, 0, 0);
    HunkIsShown(raws);
  }

  lemma HunkLineHasText(oldCount: nat, newCount: nat)
    ensures HunkLine(oldCount, newCount) != ""
  {
    hide HunkField, Decimal;
  }

  lemma HunkIsShown(raws: seq<string>)
    requires raws != [] && raws[0] != "" && HunkStart(raws[0]) == Some((1, 1))
    ensures ParseLine(raws[0], 0, 0) == Parse(ParsedLine(HunkKind, raws[0], None, None), 1, 1)
    ensures var lines := Filter(ParseLines(raws, 0, 0), Shown);
            lines != [] && lines[0] == ParsedLine(HunkKind, raws[0], None, None)
  {
    hide HunkStart;
  }

  lemma HeaderShown(raws: seq<string>, o: nat, n: nat)
    requires raws != [] && IsHeaderText(raws[0])
    ensures Filter(ParseLines(raws, o, n), Shown)
         == [ParsedLine(MetaKind, raws[0], None, None)] + Filter(ParseLines(raws[1..], o, n), Shown)
  {
    HeaderParse(raws[0], o, n);
    assert raws[0] != "";
    hide IsHeaderText, ParseLine;
    var lines := ParseLines(raws, o, n);
    assert lines == [lines[0]] + ParseLines(raws[1..], o, n);
    FilterCons(lines[0], ParseLines(raws[1..], o, n), Shown);
  }

  lemma {:induction false} HeadersShown(raws: seq<string>, k: nat, o: nat, n: nat)
    requires k <= |raws| && forall i | 0 <= i < k :: IsHeaderText(raws[i])
    ensures var lines := Filter(ParseLines(raws, o, n), Shown);
            && |lines| >= k && lines[k..] == Filter(ParseLines(raws[k..], o, n), Shown)
            && forall i | 0 <= i < k :: lines[i].kind == MetaKind
    decreases k
  {
    hide IsHeaderText, ParseLines, Filter;
    if k > 0 {
      HeadersShown(raws[1..], k - 1, o, n);
      assert raws[1..][k - 1..] == raws[k..];
      HeaderShown(raws, o, n);
      var head, rest := ParsedLine(MetaKind, raws[0], None, None), Filter(ParseLines(raws[1..], o, n), Shown);
      assert ([head] + rest)[k..] == rest[k - 1..];
    } else {
      assert raws[k..] == raws;
    }
  }

  lemma HunkLineIs(oldCount: nat, newCount: nat)
    ensures HunkLine(oldCount, newCount) == "@@ -1," + Decimal(oldCount) + " +1," + Decimal(newCount) + " @@"
  {
    hide Decimal;
    var a, b := Decimal(oldCount), Decimal(newCount);
    assert HunkField("1", b, " @@") == "1," + b + " @@";
    assert HunkField("1", a, " +" + HunkField("1", b, " @@")) == "1," + a + " +1," + b + " @@";
    assert "@@ -" + ("1," + a + " +1," + b + " @@") == "@@ -1," + a + " +1," + b + " @@";
  }

  lemma JoinTwo(line: string, lines: seq<string>)
    requires lines != []
    ensures JoinLines([line] + lines) == line + "\n" + JoinLines(lines)
  {
    assert ([line] + lines)[1..] == lines;
  }

  lemma HeaderLinesAre(path: string)
    ensures var h := HeaderLines(path);
      && h[0] == "diff --git a/" + path + " b/" + path && h[1] == "index 0000000..0000000"
      && h[2] == "--- a/" + path && h[3] == "+++ b/" + path
  {
    assert HeaderPrefix(0) + HeaderTail(path, 0) == "diff --git a/" + path + " b/" + path;
    assert HeaderPrefix(1) + HeaderTail(path, 1) == "index 0000000..0000000";
    assert HeaderPrefix(2) + HeaderTail(path, 2) == "--- a/" + path;
    assert HeaderPrefix(3) + HeaderTail(path, 3) == "+++ b/" + path;
  }

  lemma FourLinesFirst(h: seq<string>, body: seq<string>)
    requires |h| == 4 && body != []
    ensures StartsWith(JoinLines(h + body), h[0] + "\n" + (h[1] + "\n" + (h[2] + "\n" + (h[3] + "\n"))))
  {
    hide JoinLines;
    var three, two, one := [h[3]] + body, [h[2]] + ([h[3]] + body), [h[1]] + ([h[2]] + ([h[3]] + body));
    assert h + body == [h[0]] + one;
    JoinTwo(h[3], body);
    JoinTwo(h[2], three);
    JoinTwo(h[1], two);
    JoinTwo(h[0], one);
    FourLines(h[0], h[1], h[2], h[3], JoinLines(body));
  }

  lemma FourLines(a: string, b: string, c: string, d: string, rest: string)
    ensures StartsWith(a + "\n" + (b + "\n" + (c + "\n" + (d + "\n" + rest))), a + "\n" + (b + "\n" + (c + "\n" + (d + "\n"))))
  {
    var front := a + "\n" + (b + "\n" + (c + "\n" + (d + "\n")));
    assert a + "\n" + (b + "\n" + (c + "\n" + (d + "\n" + rest))) == front + rest;
  }

  /** The printed diff starts with the names of both files. */
  lemma PrintedDiffNamesTheFile(path: string, before: string, after: string)
    ensures StartsWith(FullFileDiff(path, before, after),
      "diff --git a/" + path + " b/" + path + "\n" + ("index 0000000..0000000\n" + ("--- a/" + path + "\n" + ("+++ b/" + path + "\n"))))
  {
    hide HeaderLines, JoinLines, DiffScript, FileLines, FormatOps, HunkLine;
    HeaderLinesAre(path);
    var all, h := DiffLines(path, DiffScript(FileLines(before), FileLines(after))), HeaderLines(path);
    assert h + all[4..] == all && all[4..] != [];
    hide DiffLines, StartsWith;
    FourLinesFirst(h, all[4..]);
    assert h[1] + "\n" == "index 0000000..0000000\n";
  }

  /** The hunk row shows the line counts of the two files. */
  lemma HunkRowShowsCounts(path: string, before: string, after: string)
    requires '\n' !in path
    ensures var rows := Rows(Parsed(FullFileDiff(path, before, after), None));
            |rows| >= 5 && rows[4].kind == HunkRow && rows[4].TextRow?
            && rows[4].text == "@@ -1," + Decimal(|FileLines(before)|) + " +1," + Decimal(|FileLines(after)|) + " @@"
  {
    HunkLineIs(|FileLines(before)|, |FileLines(after)|);
    hide HunkLine, FullFileDiff, Parsed, Rows, Decimal;
    PrintedDiffParses(path, before, after);
    HunkRowOf(Parsed(FullFileDiff(path, before, after), None), HunkLine(|FileLines(before)|, |FileLines(after)|));
  }

  lemma HunkRowOf(lines: seq<ParsedLine>, text: string)
    requires |lines| >= 5 && (forall i | 0 <= i < 4 :: lines[i].kind == MetaKind)
    requires lines[4].kind == HunkKind && lines[4].text == text
    ensures |Rows(lines)| >= 5 && Rows(lines)[4].kind == HunkRow && Rows(lines)[4].TextRow? && Rows(lines)[4].text == text
  {
    RowsOfTexts(lines, 5);
  }

  /** Files whose lines are not empty, do not end in CR and do not look like header tails always read back. */
  predicate Printable(lines: seq<string>) {
    forall i | 0 <= i < |lines| ::
      lines[i] != "" && !EndsWithCr(lines[i]) && !StartsWith(lines[i], "-- ") && !StartsWith(lines[i], "++ ")
  }

  lemma PrintableFilesReadBack(path: string, before: string, after: string)
    requires '\n' !in path && Printable(FileLines(before)) && Printable(FileLines(after))
    ensures var rows := Rows(Parsed(FullFileDiff(path, before, after), None));
            FlatMap(rows, LeftOf) == Cells(NumberFrom(FileLines(before), 1)) && FlatMap(rows, RightOf) == Cells(NumberFrom(FileLines(after), 1))
  {
    var ops := DiffScript(FileLines(before), FileLines(after));
    ScriptShowsBothFiles(FileLines(before), FileLines(after));
    forall i | 0 <= i < |ops|
      ensures Survives(ops[i], i == |ops| - 1)
    {
      OpLineIsFileLine(ops, i);
    }
    ReviewShowsBothFiles(path, before, after);
  }

  /** A filled empty file: its one empty line is removed by the diff and missing from the left column. */
  lemma EmptyRemovedLineIsMissing(path: string)
    requires '\n' !in path
    ensures FileLines("") == [""]
    ensures FlatMap(Rows(Parsed(FullFileDiff(path, "", "a"), None)), LeftOf) != Cells(NumberFrom([""], 1))
         || FlatMap(Rows(Parsed(FullFileDiff(path, "", "a"), None)), RightOf) != Cells(NumberFrom(["a"], 1))
  {
    assert IndexOf("a", '\n') == 1;
    assert FileLines("a") == ["a"];
    var removed, added := Remove("", 1), Add("a", 1);
    assert RemoveAll([""], 1) == [] && AddAll(["a"], 1) == [];
    assert AddAll(["a"], 0) == [added];
    assert Walk([""], ["a"], 1, 0) == [added];
    assert Walk([""], ["a"], 0, 0) == [removed] + [added];
    InterleavedRuns([removed] + [added], [removed], [added], []);
    assert Dealt([removed], [added], 1) == [];
    var ops := DiffScript([""], ["a"]);
    assert ops[0] == removed && !Survives(ops[0], 0 == |ops| - 1);
    ReviewShowsBothFiles(path, "", "a");
  }
}
