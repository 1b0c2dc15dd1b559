/**
 Exclude globs. A pattern is a list of segments in which `**` stands for zero or more whole
 segments. One matcher walks the text of the path by offset, the other the list of its segments.
 Whether one pattern segment matches one path segment is a given predicate.
 */
module PathGlob {
  import opened Sequences
  import opened Paths

  /** Whether a pattern segment other than `**` matches a path segment. */
  type SegmentMatch = (string, string) -> bool

  const STARS := "**"

  // ---------------------------------------------------------------- the segment-list matcher

  predicate MatchSegments(pattern: seq<string>, target: seq<string>, matches: SegmentMatch)
    decreases |pattern|, |target|
  {
    if pattern == [] then target == []
    else if pattern[0] == STARS then
      MatchSegments(pattern[1..], target, matches)
      || (target != [] && MatchSegments(pattern, target[1..], matches))
    else target != [] && matches(pattern[0], target[0]) && MatchSegments(pattern[1..], target[1..], matches)
  }

  /** The path can be cut into one piece per pattern segment: any run for `**`, one matching segment otherwise. */
  ghost predicate Fits(pattern: seq<string>, target: seq<string>, widths: seq<nat>, matches: SegmentMatch)
    decreases pattern
  {
    if pattern == [] then target == [] && widths == []
    else
      && widths != [] && widths[0] <= |target|
      && (pattern[0] == STARS || (widths[0] == 1 && matches(pattern[0], target[0])))
      && Fits(pattern[1..], target[widths[0]..], widths[1..], matches)
  }

  lemma {:induction false} MatchingFits(pattern: seq<string>, target: seq<string>, matches: SegmentMatch)
    returns (widths: seq<nat>)
    requires MatchSegments(pattern, target, matches)
    ensures Fits(pattern, target, widths, matches)
    decreases |pattern|, |target|
  {
    if pattern == [] {
      widths := [];
    } else if pattern[0] != STARS {
      var rest := MatchingFits(pattern[1..], target[1..], matches);
      widths := [1] + rest;
    } else if MatchSegments(pattern[1..], target, matches) {
      var rest := MatchingFits(pattern[1..], target, matches);
      widths := [0] + rest;
      assert target[0..] == target;
    } else {
      var wider := MatchingFits(pattern, target[1..], matches);
      widths := [wider[0] + 1] + wider[1..];
      assert target[1..][wider[0]..] == target[widths[0]..];
    }
  }

  lemma {:induction false} FittingMatches(pattern: seq<string>, target: seq<string>, widths: seq<nat>, matches: SegmentMatch)
    requires Fits(pattern, target, widths, matches)
    ensures MatchSegments(pattern, target, matches)
    decreases |pattern|, |target|
  {
    if pattern != [] {
      if pattern[0] == STARS && widths[0] > 0 {
        var narrower := [widths[0] - 1] + widths[1..];
        assert target[1..][narrower[0]..] == target[widths[0]..];
        FittingMatches(pattern, target[1..], narrower, matches);
      } else {
        assert target[0..] == target;
        FittingMatches(pattern[1..], target[widths[0]..], widths[1..], matches);
      }
    }
  }

  ghost predicate IsCut(pattern: seq<string>, target: seq<string>, matches: SegmentMatch, widths: seq<nat>) {
    Fits(pattern, target, widths, matches)
  }

  /** The matcher finds exactly the paths that can be cut into pieces that fit the pattern. */
  lemma MatchesExactlyFits(pattern: seq<string>, target: seq<string>, matches: SegmentMatch)
    ensures MatchSegments(pattern, target, matches) <==> exists widths :: IsCut(pattern, target, matches, widths)
  {
    if MatchSegments(pattern, target, matches) {
      var widths := MatchingFits(pattern, target, matches);
      assert IsCut(pattern, target, matches, widths);
    } else if exists widths :: IsCut(pattern, target, matches, widths) {
      var widths :| IsCut(pattern, target, matches, widths);
      FittingMatches(pattern, target, widths, matches);
    }
  }

  // ---------------------------------------------------------------- the offset matcher

  /** The segments of the rest of a path. */
  function Segments(rest: string): seq<string> {
    if rest == "" then [] else SplitSlash(rest)
  }

  /** A rest that the offset matcher can meet: empty, or names joined by slashes. */
  predicate IsRest(rest: string) {
    rest == "" || AreNames(SplitSlash(rest))
  }

  /** The first segment of a rest and what is behind it. */
  lemma RestStep(rest: string)
    requires IsRest(rest) && rest != ""
    ensures var i := IndexOfSlash(rest);
            var behind := if i == |rest| then "" else rest[i + 1..];
            IsRest(behind) && Segments(rest) == [rest[..i]] + Segments(behind)
  {
    var i := IndexOfSlash(rest);
    if i < |rest| {
      var tail := SplitSlash(rest[i + 1..]);
      assert SplitSlash(rest)[1..] == tail;
      forall k | 0 <= k < |tail|
        ensures IsName(tail[k])
      {
        assert tail[k] == SplitSlash(rest)[k + 1];
      }
      assert IsName(tail[0]);
      if rest[i + 1..] == "" {
        SplitHead("", "");
      }
    } else {
      assert rest[..i] == rest;
    }
  }

  /** The matcher over the text of a path, from an offset where a segment starts or the path ends. */
  method MatchExcludePath(pattern: seq<string>, target: string, offset: nat, matches: SegmentMatch) returns (found: bool)
    requires offset <= |target| && IsRest(target[offset..])
    ensures found == MatchSegments(pattern, Segments(target[offset..]), matches)
    decreases |pattern|, |target| - offset
  {
    if |pattern| == 0 {
      return offset == |target|;
    }
    if pattern[0] == STARS {
      found := MatchExcludePath(pattern[1..], target, offset, matches);
      if found {
        return;
      }
      var next := offset;
      while next < |target|
        invariant offset <= next <= |target| && IsRest(target[next..])
        invariant MatchSegments(pattern, Segments(target[offset..]), matches)
              <==> MatchSegments(pattern, Segments(target[next..]), matches)
        invariant !MatchSegments(pattern[1..], Segments(target[next..]), matches)
        decreases |target| - next
      {
        next := NextSegment(target, next);
        found := MatchExcludePath(pattern, target, next, matches);
        if found {
          return;
        }
      }
      return false;
    }
    if offset >= |target| {
      return false;
    }
    ghost var next := NextOffset(target, offset);
    OffsetStep(target, offset);
    var end := IndexOfSlash(target[offset..]);
    var segment, nextOffset := target[offset..], |target|;
    if end < |target| - offset {
      segment, nextOffset := target[offset..offset + end], offset + end + 1;
    }
    assert segment == target[offset..][..end];
    if !matches(pattern[0], segment) {
      return false;
    }
    found := MatchExcludePath(pattern[1..], target, nextOffset, matches);
  }

  function NextOffset(target: string, offset: nat): nat
    requires offset < |target|
  {
    var i := IndexOfSlash(target[offset..]);
    if i == |target| - offset then |target| else offset + i + 1
  }

  /** Moving to the next offset drops the first segment. */
  lemma OffsetStep(target: string, offset: nat)
    requires offset < |target| && IsRest(target[offset..])
    ensures var rest := target[offset..];
            var next := NextOffset(target, offset);
            && offset < next <= |target| && IsRest(target[next..])
            && Segments(rest) != [] && Segments(rest)[0] == rest[..IndexOfSlash(rest)]
            && Segments(rest)[1..] == Segments(target[next..])
  {
    var rest := target[offset..];
    RestStep(rest);
    var i := IndexOfSlash(rest);
    if i == |rest| {
      assert target[|target|..] == "";
    } else {
      assert rest[i + 1..] == target[offset + i + 1..];
    }
  }

  method NextSegment(target: string, offset: nat) returns (next: nat)
    requires offset < |target| && IsRest(target[offset..])
    ensures next == NextOffset(target, offset) && offset < next <= |target| && IsRest(target[next..])
    ensures Segments(target[offset..]) != [] && Segments(target[offset..])[1..] == Segments(target[next..])
  {
    OffsetStep(target, offset);
    var separator := IndexOfSlash(target[offset..]);
    if separator == |target| - offset {
      next := |target|;
    } else {
      next := offset + separator + 1;
    }
  }

  // ---------------------------------------------------------------- patterns

  datatype Parsed = Skipped | Rejected | Pattern(segments: seq<string>)

  function TrimPrefix(s: string, prefix: string): string {
    if StartsWith(s, prefix) then s[|prefix|..] else s
  }

  function TrimSlash(s: string): string {
    if EndsWithSlash(s) then s[..|s| - 1] else s
  }

  predicate EndsWithSlash(s: string) {
    s != "" && s[|s| - 1] == '/'
  }

  /** The segments of a pattern text; `bad` says which of them have a syntax error. */
  function PatternSegments(parts: seq<string>, bad: string -> bool): Option<seq<string>> {
    if parts == [] then Some([])
    else if parts[0] == "" || parts[0] == "." then PatternSegments(parts[1..], bad)
    else if parts[0] == ".." || (parts[0] != STARS && bad(parts[0])) then None
    else
      match PatternSegments(parts[1..], bad)
      case None => None
      case Some(rest) => Some([parts[0]] + rest)
  }

  /** A name without slashes matches at any depth; a trailing slash also covers everything below. */
  function ParsedPattern(input: string, bad: string -> bool): Parsed {
    var raw := RawPath(input);
    if raw == "" then Skipped
    else
      var body := TrimSlash(TrimPrefix(TrimPrefix(raw, "./"), "/"));
      if body == "" then Rejected
      else
        match PatternSegments(SplitSlash(body), bad)
        case None => Rejected
        case Some(segments) =>
          if segments == [] then Rejected
          else Pattern((if '/' in body then [] else [STARS]) + segments + (if EndsWithSlash(raw) then [STARS] else []))
  }

  lemma NothingParsedYet(parts: seq<string>, bad: string -> bool)
    ensures parts[0..] == parts
    ensures PatternSegments(parts, bad).Some? ==> [] + PatternSegments(parts, bad).value == PatternSegments(parts, bad).value
  {}

  method ParseExcludePattern(input: string, bad: string -> bool) returns (parsed: Parsed)
    ensures parsed == ParsedPattern(input, bad)
  {
    var raw := RawPath(input);
    if raw == "" {
      return Skipped;
    }
    var directoryPattern := EndsWithSlash(raw);
    raw := TrimSlash(TrimPrefix(TrimPrefix(raw, "./"), "/"));
    if raw == "" {
      return Rejected;
    }
    var segments: seq<string> := [];
    var parts := SplitSlash(raw);
    var i := 0;
    NothingParsedYet(parts, bad);
    while i < |parts|
      invariant 0 <= i <= |parts|
      invariant PatternSegments(parts, bad) ==
        match PatternSegments(parts[i..], bad) { case None => None case Some(rest) => Some(segments + rest) }
    {
      var segment := parts[i];
      assert parts[i..][1..] == parts[i + 1..];
      if segment == "" || segment == "." {
        i := i + 1;
        continue;
      }
      if segment == ".." || (segment != STARS && bad(segment)) {
        return Rejected;
      }
      ghost var rest := PatternSegments(parts[i + 1..], bad);
      if rest.Some? {
        ConcatAssociative(segments, [segment], rest.value);
      }
      segments := segments + [segment];
      i := i + 1;
    }
    assert segments + [] == segments;
    if |segments| == 0 {
      return Rejected;
    }
    if '/' !in raw {
      segments := [STARS] + segments;
    }
    if directoryPattern {
      segments := segments + [STARS];
    }
    parsed := Pattern(segments);
  }

  /** A pattern that is one name excludes exactly the paths whose last segment it matches. */
  lemma {:induction false} NameMatchesLast(name: string, target: seq<string>, matches: SegmentMatch)
    requires name != STARS
    ensures MatchSegments([STARS, name], target, matches) <==> target != [] && matches(name, target[|target| - 1])
    decreases target
  {
    assert [STARS, name][1..] == [name] && [name][1..] == [];
    if target == [] {
      assert !MatchSegments([name], target, matches);
    } else {
      var rest := target[1..];
      NameMatchesLast(name, rest, matches);
      assert MatchSegments([name], target, matches) <==> matches(name, target[0]) && rest == [];
      assert MatchSegments([STARS, name], target, matches)
        <==> MatchSegments([name], target, matches) || MatchSegments([STARS, name], rest, matches);
    }
  }

  /** A directory name excludes exactly the paths that have a segment it matches. */
  lemma {:induction false} DirectoryMatchesAny(name: string, target: seq<string>, matches: SegmentMatch)
    requires name != STARS
    ensures MatchSegments([STARS, name, STARS], target, matches) <==> exists i | 0 <= i < |target| :: matches(name, target[i])
    decreases target
  {
    assert [STARS, name, STARS][1..] == [name, STARS] && [name, STARS][1..] == [STARS] && [STARS][1..] == [];
    if target == [] {
      assert !MatchSegments([name, STARS], target, matches);
    } else {
      StarsMatchAll(target[1..], matches);
      DirectoryMatchesAny(name, target[1..], matches);
      var rest := target[1..];
      assert MatchSegments([STARS, name, STARS], target, matches)
        <==> matches(name, target[0]) || MatchSegments([STARS, name, STARS], rest, matches);
      if i :| 0 <= i < |rest| && matches(name, rest[i]) {
        assert matches(name, target[i + 1]);
      }
      if i :| 0 <= i < |target| && matches(name, target[i]) && i > 0 {
        assert matches(name, rest[i - 1]);
      }
    }
  }

  lemma {:induction false} StarsMatchAll(target: seq<string>, matches: SegmentMatch)
    ensures MatchSegments([STARS], target, matches)
    decreases target
  {
    assert [STARS][1..] == [];
    if target != [] {
      StarsMatchAll(target[1..], matches);
    }
  }

  // ---------------------------------------------------------------- what a pattern text says

  predicate IsStep(part: string) {
    part != "" && part != "."
  }

  /** A part with which no pattern is accepted. */
  predicate IsRefused(part: string, bad: string -> bool) {
    part == ".." || (IsStep(part) && part != STARS && bad(part))
  }

  lemma {:induction false} SegmentsOfParts(parts: seq<string>, bad: string -> bool)
    ensures PatternSegments(parts, bad).None? <==> exists part | part in parts :: IsRefused(part, bad)
    ensures PatternSegments(parts, bad).Some? ==> PatternSegments(parts, bad).value == Filter(parts, IsStep)
  {
    if parts != [] {
      SegmentsOfParts(parts[1..], bad);
      assert parts == [parts[0]] + parts[1..];
      assert (exists part | part in parts :: IsRefused(part, bad)) <==>
             IsRefused(parts[0], bad) || exists part | part in parts[1..] :: IsRefused(part, bad);
    }
  }

  /** Parts as they stand between the slashes of a pattern without its leading and trailing marks. */
  predicate AreParts(parts: seq<string>) {
    && parts != [] && SlashFree(parts) && IsStep(parts[0]) && parts[|parts| - 1] != ""
  }

  /** A pattern text: an optional mark in front, parts joined by slashes, an optional slash behind. */
  function PatternText(mark: string, parts: seq<string>, directory: bool): string {
    mark + JoinSlash(parts) + if directory then "/" else ""
  }

  lemma {:induction false} JoinShape(parts: seq<string>)
    requires parts != [] && SlashFree(parts) && parts[|parts| - 1] != ""
    ensures var body := JoinSlash(parts);
      && body != "" && body[|body| - 1] != '/' && |parts[0]| <= |body| && body[..|parts[0]|] == parts[0]
      && ('/' in body <==> |parts| > 1)
      && (|parts| > 1 ==> |body| > |parts[0]| && body[|parts[0]|] == '/')
  {
    if |parts| > 1 {
      JoinShape(parts[1..]);
      assert JoinSlash(parts) == parts[0] + "/" + JoinSlash(parts[1..]);
    }
  }

  lemma TextStarts(parts: seq<string>, end: string)
    requires AreParts(parts) && (end == "" || end == "/")
    ensures var text := JoinSlash(parts) + end; text != "" && text[0] != '/' && !StartsWith(text, "./")
  {
    JoinShape(parts);
    hide JoinSlash;
    var body, text := JoinSlash(parts), JoinSlash(parts) + end;
    var first := parts[0];
    assert body[..|first|] == first && text[0] == body[0] == first[0];
    assert '/' !in first;
    if |first| > 1 {
      assert text[1] == body[1] == first[1];
    }
  }

  lemma MarksAreTrimmed(mark: string, parts: seq<string>, directory: bool)
    requires AreParts(parts) && (mark == "" || mark == "/" || mark == "./")
    ensures var text := PatternText(mark, parts, directory);
      && TrimSlash(TrimPrefix(TrimPrefix(text, "./"), "/")) == JoinSlash(parts)
      && (EndsWithSlash(text) <==> directory) && text != ""
  {
    var body, end := JoinSlash(parts), if directory then "/" else "";
    JoinShape(parts);
    TextStarts(parts, end);
    hide JoinSlash, TrimPrefix, TrimSlash, EndsWithSlash, StartsWith;
    assert PatternText(mark, parts, directory) == mark + (body + end);
    MarkIsTrimmed(mark, body + end);
    SlashIsTrimmed(mark, body, directory);
  }

  lemma SlashIsTrimmed(mark: string, body: string, directory: bool)
    requires body != "" && body[|body| - 1] != '/'
    ensures var text := body + if directory then "/" else "";
      TrimSlash(text) == body && (EndsWithSlash(mark + text) <==> directory) && mark + text != ""
  {
    assert (body + "/")[..|body|] == body;
  }

  lemma MarkIsTrimmed(mark: string, text: string)
    requires text != "" && text[0] != '/' && !StartsWith(text, "./") && (mark == "" || mark == "/" || mark == "./")
    ensures TrimPrefix(TrimPrefix(mark + text, "./"), "/") == text
  {
    var all := mark + text;
    if mark == "" {
      assert all == text;
    } else {
      assert all[0] == mark[0] && all[|mark|..] == text && all[..|mark|] == mark;
    }
  }

  /**
   What a text is parsed as: one part alone matches at any depth, several are anchored at the root; a mark in front makes no
   difference, a slash behind adds everything below; empty and `.` parts are left out and `..` is refused.
   */
  lemma PatternTextMeans(mark: string, parts: seq<string>, directory: bool, bad: string -> bool)
    requires AreParts(parts) && (mark == "" || mark == "/" || mark == "./")
    requires RawPath(PatternText(mark, parts, directory)) == PatternText(mark, parts, directory)
    ensures ParsedPattern(PatternText(mark, parts, directory), bad) ==
      if exists part | part in parts :: IsRefused(part, bad) then Rejected
      else Pattern((if |parts| == 1 then ["**"] else []) + Filter(parts, IsStep) + if directory then ["**"] else [])
  {
    hide RawPath, PatternText, JoinSlash, PatternSegments, IsRefused;
    MarksAreTrimmed(mark, parts, directory);
    JoinShape(parts);
    SplitOfJoin(parts);
    SegmentsOfParts(parts, bad);
    FilterMembers(parts, IsStep);
    assert parts[0] in parts;
  }

  /** Without a part that is a name or a glob. */
  predicate IsStepless(s: string) {
    forall part | part in SplitSlash(s) :: !IsStep(part)
  }

  lemma CutAround<T>(s: seq<T>, i: nat, x: T)
    requires i < |s| && s[i] == x
    ensures s == s[..i] + [x] + s[i + 1..] && s + [x] == s[..i] + [x] + (s[i + 1..] + [x])
  {}

  lemma {:induction false} SplitTrailingSlash(s: string)
    ensures SplitSlash(s + "/") == SplitSlash(s) + [""]
    decreases |s|
  {
    BeforeSlash(s);
    var i := IndexOfSlash(s);
    var head := s[..i];
    hide SplitSlash, IndexOfSlash;
    if i == |s| {
      SplitHead(head, "");
      assert head == s && s + "/" == s + "/" + "";
      SplitHead("", "");
    } else {
      var tail := s[i + 1..];
      SplitTrailingSlash(tail);
      SplitHead(head, tail);
      SplitHead(head, tail + "/");
      CutAround(s, i, '/');
    }
  }

  lemma TrimPrefixKeepsStepless(s: string, head: string)
    requires IsStepless(s) && '/' !in head
    ensures IsStepless(TrimPrefix(s, head + "/"))
  {
    hide SplitSlash, IsStep;
    var rest := TrimPrefix(s, head + "/");
    SplitHead(head, rest);
    assert rest == s || s == head + "/" + rest;
  }

  lemma TrimSlashKeepsStepless(s: string)
    requires IsStepless(s)
    ensures IsStepless(TrimSlash(s))
  {
    hide SplitSlash, IsStep;
    SplitTrailingSlash(TrimSlash(s));
    assert TrimSlash(s) == s || s == TrimSlash(s) + "/";
  }

  /** A text of white space is left out; one of slashes and single dots is refused. */
  lemma SteplessTextIsNoPattern(input: string, bad: string -> bool)
    requires IsStepless(RawPath(input))
    ensures ParsedPattern(input, bad) == if RawPath(input) == "" then Skipped else Rejected
  {
    hide RawPath, TrimPrefix, TrimSlash, EndsWithSlash, SplitSlash, PatternSegments;
    var raw := RawPath(input);
    TrimPrefixKeepsStepless(raw, ".");
    assert "." + "/" == "./" && "" + "/" == "/";
    var tail := TrimPrefix(raw, "./");
    TrimPrefixKeepsStepless(tail, "");
    TrimSlashKeepsStepless(TrimPrefix(tail, "/"));
    var parts := SplitSlash(TrimSlash(TrimPrefix(tail, "/")));
    SegmentsOfParts(parts, bad);
    FilterNone(parts, IsStep);
  }

  /** The parsed text as a decision about paths. */
  predicate TextExcludes(text: string, target: seq<string>, matches: SegmentMatch, bad: string -> bool) {
    var parsed := ParsedPattern(text, bad);
    parsed.Pattern? && MatchSegments(parsed.segments, target, matches)
  }

  /** A name without slashes excludes by the last segment at any depth, with or without a mark in front. */
  lemma NameExcludesAnywhere(mark: string, name: string, target: seq<string>, matches: SegmentMatch, bad: string -> bool)
    requires IsName(name) && name != STARS && !bad(name) && (mark == "" || mark == "/" || mark == "./")
    requires RawPath(mark + name) == mark + name
    ensures TextExcludes(mark + name, target, matches, bad) <==> target != [] && matches(name, target[|target| - 1])
  {
    var parts := [name];
    assert PatternText(mark, parts, false) == mark + name;
    PatternTextMeans(mark, parts, false, bad);
    assert parts[1..] == [] && Filter(parts, IsStep) == [name];
    NameMatchesLast(name, target, matches);
    hide ParsedPattern, MatchSegments, RawPath, Filter;
    assert ["**"] + [name] + [] == [STARS, name];
  }

  /** A name with a slash behind excludes whatever lies at or below a segment it matches. */
  lemma DirectoryExcludesBelow(mark: string, name: string, target: seq<string>, matches: SegmentMatch, bad: string -> bool)
    requires IsName(name) && name != STARS && !bad(name) && (mark == "" || mark == "/" || mark == "./")
    requires RawPath(mark + name + "/") == mark + name + "/"
    ensures TextExcludes(mark + name + "/", target, matches, bad) <==> exists i | 0 <= i < |target| :: matches(name, target[i])
  {
    var parts := [name];
    assert PatternText(mark, parts, true) == mark + name + "/";
    PatternTextMeans(mark, parts, true, bad);
    assert parts[1..] == [] && Filter(parts, IsStep) == [name];
    DirectoryMatchesAny(name, target, matches);
    hide ParsedPattern, MatchSegments, RawPath, Filter;
    assert ["**"] + [name] + ["**"] == [STARS, name, STARS];
  }

  lemma {:induction false} NamesMatchInTurn(names: seq<string>, target: seq<string>, matches: SegmentMatch)
    requires STARS !in names
    ensures MatchSegments(names, target, matches) <==>
            |target| == |names| && forall i | 0 <= i < |names| :: matches(names[i], target[i])
  {
    if names != [] && target != [] {
      NamesMatchInTurn(names[1..], target[1..], matches);
      if MatchSegments(names, target, matches) {
        forall i | 0 <= i < |names|
          ensures matches(names[i], target[i])
        {
          assert i > 0 ==> matches(names[1..][i - 1], target[1..][i - 1]);
        }
      }
    }
  }

  lemma {:induction false} NamesAreSteps(names: seq<string>)
    requires AreNames(names)
    ensures Filter(names, IsStep) == names && SlashFree(names)
  {
    if names != [] {
      NamesAreSteps(names[1..]);
    }
  }

  /** Names with a slash between them exclude exactly the paths that match them from the root on, name by name. */
  lemma InnerSlashAnchors(mark: string, names: seq<string>, target: seq<string>, matches: SegmentMatch, bad: string -> bool)
    requires |names| > 1 && AreNames(names) && STARS !in names && (forall name | name in names :: !bad(name))
    requires (mark == "" || mark == "/" || mark == "./") && RawPath(mark + JoinSlash(names)) == mark + JoinSlash(names)
    ensures TextExcludes(mark + JoinSlash(names), target, matches, bad) <==>
            |target| == |names| && forall i | 0 <= i < |names| :: matches(names[i], target[i])
  {
    NamesAreParsed(mark, names, bad);
    NamesMatchInTurn(names, target, matches);
    hide ParsedPattern, MatchSegments, RawPath, JoinSlash;
  }

  lemma NamesAreParsed(mark: string, names: seq<string>, bad: string -> bool)
    requires |names| > 1 && AreNames(names) && STARS !in names && (forall name | name in names :: !bad(name))
    requires (mark == "" || mark == "/" || mark == "./") && RawPath(mark + JoinSlash(names)) == mark + JoinSlash(names)
    ensures ParsedPattern(mark + JoinSlash(names), bad) == Pattern(names)
  {
    hide ParsedPattern, RawPath, Filter, JoinSlash, AreNames, AreParts, IsRefused, PatternText;
    TextWithoutSlash(mark, names);
    NamesAreSteps(names);
    NamesAreParts(names);
    NamesAreAccepted(names, bad);
    PatternTextMeans(mark, names, false, bad);
    NothingAround(names);
  }

  lemma NothingAround<T>(s: seq<T>)
    ensures [] + s + [] == s
  {}

  lemma TextWithoutSlash(mark: string, parts: seq<string>)
    ensures PatternText(mark, parts, false) == mark + JoinSlash(parts)
  {}

  lemma NamesAreParts(names: seq<string>)
    requires AreNames(names) && names != []
    ensures AreParts(names)
  {
    NamesAreSteps(names);
    assert names[0] in names && names[|names| - 1] in names;
  }

  lemma NamesAreAccepted(names: seq<string>, bad: string -> bool)
    requires AreNames(names) && forall name | name in names :: !bad(name)
    ensures forall part | part in names :: !IsRefused(part, bad)
  {
    forall part | part in names
      ensures !IsRefused(part, bad)
    {
      assert IsName(part);
    }
  }

  // ---------------------------------------------------------------- the excluder

  /** Whether a path is excluded: its normal form fits one of the patterns, segment by segment. */
  predicate Excluded(patterns: seq<seq<string>>, input: string, matches: SegmentMatch) {
    var path := NormalizedPath(input);
    path.Ok? && path.path != "" && exists i | 0 <= i < |patterns| :: MatchSegments(patterns[i], SplitSlash(path.path), matches)
  }

  /** Every pattern excludes for itself: a path in normal form by its segments, the root and what is no path never. */
  lemma EachPatternExcludes(patterns: seq<seq<string>>, pattern: seq<string>, input: string, matches: SegmentMatch)
    ensures !Excluded([], input, matches)
    ensures Excluded(patterns + [pattern], input, matches) <==>
            Excluded(patterns, input, matches) || Excluded([pattern], input, matches)
    ensures NormalizedPath(input) == Ok(input) && input != "" ==>
            (Excluded([pattern], input, matches) <==> MatchSegments(pattern, SplitSlash(input), matches))
    ensures NormalizedPath(input).Err? || NormalizedPath(input) == Ok("") ==> !Excluded([pattern], input, matches)
  {
    hide NormalizedPath, MatchSegments, SplitSlash;
    var path, all := NormalizedPath(input), patterns + [pattern];
    assert all[|patterns|] == pattern && [pattern][0] == pattern;
    if path.Ok? {
      var segments := SplitSlash(path.path);
      assert forall i | 0 <= i < |patterns| :: all[i] == patterns[i];
    }
  }

  method Matches(patterns: seq<seq<string>>, input: string, matches: SegmentMatch) returns (excluded: bool)
    ensures excluded == Excluded(patterns, input, matches)
  {
    var normalized := NormalizeRelativePath(input);
    if normalized.Err? || normalized.path == "" {
      return false;
    }
    NormalizedIsCanonical(input);
    excluded := MatchesCanonical(patterns, normalized.path, matches);
  }

  method MatchesCanonical(patterns: seq<seq<string>>, path: string, matches: SegmentMatch) returns (excluded: bool)
    requires path == "" || AreNames(SplitSlash(path))
    ensures excluded == (path != "" && exists i | 0 <= i < |patterns| :: MatchSegments(patterns[i], SplitSlash(path), matches))
  {
    if path == "" {
      return false;
    }
    assert path[0..] == path;
    var i := 0;
    while i < |patterns|
      invariant 0 <= i <= |patterns|
      invariant forall k | 0 <= k < i :: !MatchSegments(patterns[k], SplitSlash(path), matches)
    {
      var found := MatchExcludePath(patterns[i], path, 0, matches);
      if found {
        return true;
      }
      i := i + 1;
    }
    return false;
  }
}
