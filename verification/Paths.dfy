/**
 Workspace-relative paths: normalization with a stack of segments. The result is a path that
 stays below the root; the main results say which inputs are accepted and what the result is.
 */
module Paths {
  import opened Sequences

  // ---------------------------------------------------------------- segments

  function IndexOfSlash(s: string): (i: nat)
    ensures i <= |s|
  {
    if s == "" || s[0] == '/' then 0 else 1 + IndexOfSlash(s[1..])
  }

  lemma {:induction false} SlashAt(s: string, i: nat)
    requires i <= |s| && (forall k | 0 <= k < i :: s[k] != '/') && (i < |s| ==> s[i] == '/')
    ensures IndexOfSlash(s) == i
  {
    if i > 0 {
      SlashAt(s[1..], i - 1);
    }
  }

  lemma {:induction false} BeforeSlash(s: string)
    ensures '/' !in s[..IndexOfSlash(s)]
    ensures IndexOfSlash(s) < |s| ==> s[IndexOfSlash(s)] == '/'
  {
    if s != "" && s[0] != '/' {
      BeforeSlash(s[1..]);
      assert s[..IndexOfSlash(s)] == [s[0]] + s[1..][..IndexOfSlash(s[1..])];
    }
  }

  function SplitSlash(s: string): (r: seq<string>)
    ensures r != []
    decreases |s|
  {
    var i := IndexOfSlash(s);
    if i == |s| then [s] else [s[..i]] + SplitSlash(s[i + 1..])
  }

  function JoinSlash(segments: seq<string>): string {
    if segments == [] then "" else if |segments| == 1 then segments[0] else segments[0] + "/" + JoinSlash(segments[1..])
  }

  predicate SlashFree(segments: seq<string>) {
    forall i | 0 <= i < |segments| :: '/' !in segments[i]
  }

  lemma {:induction false} SplitIsSlashFree(s: string)
    ensures SlashFree(SplitSlash(s))
    decreases |s|
  {
    BeforeSlash(s);
    var i := IndexOfSlash(s);
    if i == |s| {
      assert s[..i] == s;
    } else {
      SplitIsSlashFree(s[i + 1..]);
    }
  }

  lemma SplitHead(head: string, tail: string)
    requires '/' !in head
    ensures SplitSlash(head) == [head]
    ensures SplitSlash(head + "/" + tail) == [head] + SplitSlash(tail)
  {
    var s := head + "/" + tail;
    SlashAt(head, |head|);
    SlashAt(s, |head|);
    assert s[..|head|] == head && s[|head| + 1..] == tail;
  }

  lemma {:induction false} SplitOfJoin(segments: seq<string>)
    requires segments != [] && SlashFree(segments)
    ensures SplitSlash(JoinSlash(segments)) == segments
  {
    if |segments| == 1 {
      SplitHead(segments[0], "");
    } else {
      SplitOfJoin(segments[1..]);
      SplitHead(segments[0], JoinSlash(segments[1..]));
    }
  }

  // ---------------------------------------------------------------- normalization

  predicate IsSpace(c: char) {
    || '\t' <= c <= '\r' || c == ' ' || c == '\U{85}' || c == '\U{A0}' || c == '\U{1680}'
    || '\U{2000}' <= c <= '\U{200A}' || c == '\U{2028}' || c == '\U{2029}' || c == '\U{202F}' || c == '\U{205F}' || c == '\U{3000}'
  }

  function TrimLeft(s: string): string {
    if s != "" && IsSpace(s[0]) then TrimLeft(s[1..]) else s
  }

  function TrimRight(s: string): string {
    if s != "" && IsSpace(s[|s| - 1]) then TrimRight(s[..|s| - 1]) else s
  }

  function TrimSpace(s: string): string {
    TrimRight(TrimLeft(s))
  }

  function ToSlash(c: char): char {
    if c == '\\' then '/' else c
  }

  function ToSlashes(s: string): (r: string)
    ensures |r| == |s|
    ensures forall i | 0 <= i < |r| :: r[i] == ToSlash(s[i])
  {
    seq(|s|, i requires 0 <= i < |s| => ToSlash(s[i]))
  }

  datatype PathError = InvalidCharacters | AbsolutePath | EscapesRoot

  datatype Normalized = Ok(path: string) | Err(error: PathError)

  /** The segments that remain on the stack when `segments` are read, or none when a `..` finds it empty. */
  function Resolve(segments: seq<string>, stack: seq<string>): Option<seq<string>> {
    if segments == [] then Some(stack)
    else if segments[0] == "" || segments[0] == "." then Resolve(segments[1..], stack)
    else if segments[0] == ".." then if stack == [] then None else Resolve(segments[1..], stack[..|stack| - 1])
    else Resolve(segments[1..], stack + [segments[0]])
  }

  function RawPath(input: string): string {
    TrimSpace(ToSlashes(input))
  }

  function NormalizeRaw(raw: string): Normalized {
    if '\0' in raw then Err(InvalidCharacters)
    else if raw == "" || raw == "." then Ok("")
    else if raw[0] == '/' then Err(AbsolutePath)
    else
      match Resolve(SplitSlash(raw), [])
      case None => Err(EscapesRoot)
      case Some(segments) => Ok(JoinSlash(segments))
  }

  function NormalizedPath(input: string): Normalized {
    NormalizeRaw(RawPath(input))
  }

  method NormalizeRelativePath(input: string) returns (result: Normalized)
    ensures result == NormalizedPath(input)
  {
    var raw := TrimSpace(ToSlashes(input));
    if '\0' in raw {
      return Err(InvalidCharacters);
    }
    if raw == "" || raw == "." {
      return Ok("");
    }
    if raw[0] == '/' {
      return Err(AbsolutePath);
    }
    var stack: seq<string> := [];
    var parts := SplitSlash(raw);
    var i := 0;
    while i < |parts|
      invariant 0 <= i <= |parts|
      invariant Resolve(parts[i..], stack) == Resolve(parts, [])
    {
      var segment := parts[i];
      assert parts[i..][1..] == parts[i + 1..];
      i := i + 1;
      if segment == "" || segment == "." {
        continue;
      }
      if segment == ".." {
        if |stack| == 0 {
          return Err(EscapesRoot);
        }
        stack := stack[..|stack| - 1];
        continue;
      }
      stack := stack + [segment];
    }
    return Ok(JoinSlash(stack));
  }

  // ---------------------------------------------------------------- what is accepted

  /** How far a segment climbs down (1), stays (0) or climbs up (-1). */
  function Climb(segment: string): int {
    if segment == "" || segment == "." then 0 else if segment == ".." then -1 else 1
  }

  function Depth(segments: seq<string>): int {
    if segments == [] then 0 else Climb(segments[0]) + Depth(segments[1..])
  }

  /** No prefix of the path climbs above a start that lies `start` levels below the root. */
  predicate StaysBelow(segments: seq<string>, start: nat) {
    forall k | 0 <= k <= |segments| :: start + Depth(segments[..k]) >= 0
  }

  lemma StaysBelowStep(segments: seq<string>, start: nat)
    requires segments != []
    ensures StaysBelow(segments, start)
       <==> start + Climb(segments[0]) >= 0 && StaysBelow(segments[1..], start + Climb(segments[0]))
  {
    var rest := segments[1..];
    forall k | 0 <= k <= |rest|
      ensures Depth(segments[..k + 1]) == Climb(segments[0]) + Depth(rest[..k])
    {
      assert segments[..k + 1][1..] == rest[..k];
    }
    if StaysBelow(segments, start) {
      assert rest[..0] == [];
      assert start + Depth(segments[..0 + 1]) >= 0;
      forall k | 0 <= k <= |rest|
        ensures start + Climb(segments[0]) + Depth(rest[..k]) >= 0
      {
        assert start + Depth(segments[..k + 1]) >= 0;
      }
    }
    if start + Climb(segments[0]) >= 0 && StaysBelow(rest, start + Climb(segments[0])) {
      forall k | 0 <= k <= |segments|
        ensures start + Depth(segments[..k]) >= 0
      {
        if k > 0 {
          assert start + Climb(segments[0]) + Depth(rest[..k - 1]) >= 0;
        }
      }
    }
  }

  lemma {:induction false} ResolveAccepts(segments: seq<string>, stack: seq<string>)
    ensures Resolve(segments, stack).Some? <==> StaysBelow(segments, |stack|)
    decreases segments
  {
    if segments != [] {
      StaysBelowStep(segments, |stack|);
      var s, rest := segments[0], segments[1..];
      if s == "" || s == "." {
        ResolveAccepts(rest, stack);
      } else if s != ".." {
        ResolveAccepts(rest, stack + [s]);
      } else if stack != [] {
        ResolveAccepts(rest, stack[..|stack| - 1]);
      }
    } else {
      assert segments[..0] == [];
    }
  }

  predicate IsAbsolute(raw: string) {
    raw != "" && raw[0] == '/'
  }

  /** A path is accepted exactly when it has no NUL, is not absolute and never climbs above the root. */
  lemma NormalizeAccepts(input: string)
    ensures var raw := RawPath(input);
            NormalizedPath(input).Ok? <==> '\0' !in raw && !IsAbsolute(raw) && StaysBelow(SplitSlash(raw), 0)
  {
    var raw := RawPath(input);
    ResolveAccepts(SplitSlash(raw), []);
    if raw == "" || raw == "." {
      SplitHead(raw, "");
      assert Resolve([raw], []) == Resolve([raw][1..], []) == Some([]);
    }
  }

  /** A refusal names its reason: a NUL first, then an absolute path, else a path that climbs above the root. */
  lemma NormalizeRefuses(input: string)
    requires NormalizedPath(input).Err?
    ensures var raw := RawPath(input);
      NormalizedPath(input).error ==
        if '\0' in raw then InvalidCharacters else if raw != "" && raw[0] == '/' then AbsolutePath else EscapesRoot
    ensures NormalizedPath(input).error == EscapesRoot ==> !StaysBelow(SplitSlash(RawPath(input)), 0)
  {
    NormalizeAccepts(input);
    hide StaysBelow, RawPath, SplitSlash;
  }

  // ---------------------------------------------------------------- what comes out

  predicate IsName(segment: string) {
    segment != "" && segment != "." && segment != ".." && '/' !in segment
  }

  predicate AreNames(segments: seq<string>) {
    forall i | 0 <= i < |segments| :: IsName(segments[i])
  }

  /** Every character of a segment list is one of `chars`. */
  predicate MadeOf(segments: seq<string>, chars: set<char>) {
    forall i | 0 <= i < |segments| :: forall c | c in segments[i] :: c in chars
  }

  lemma {:induction false} ResolveKeepsNames(segments: seq<string>, stack: seq<string>, chars: set<char>)
    requires SlashFree(segments) && AreNames(stack) && MadeOf(segments, chars) && MadeOf(stack, chars)
    requires Resolve(segments, stack).Some?
    ensures AreNames(Resolve(segments, stack).value) && MadeOf(Resolve(segments, stack).value, chars)
    decreases segments
  {
    if segments != [] {
      var s, rest := segments[0], segments[1..];
      if s == "" || s == "." {
        ResolveKeepsNames(rest, stack, chars);
      } else if s == ".." {
        ResolveKeepsNames(rest, stack[..|stack| - 1], chars);
      } else {
        ResolveKeepsNames(rest, stack + [s], chars);
      }
    }
  }

  /** Names are not changed by resolving them again. */
  lemma {:induction false} ResolveOfNames(names: seq<string>, stack: seq<string>)
    requires AreNames(names)
    ensures Resolve(names, stack) == Some(stack + names)
    decreases names
  {
    if names != [] {
      ResolveOfNames(names[1..], stack + [names[0]]);
      assert stack + [names[0]] + names[1..] == stack + names;
    } else {
      assert stack + names == stack;
    }
  }

  lemma JoinCons(head: string, tail: seq<string>)
    requires tail != []
    ensures JoinSlash([head] + tail) == head + "/" + JoinSlash(tail)
  {
    assert ([head] + tail)[1..] == tail;
  }

  lemma {:induction false} JoinOfSplit(s: string)
    ensures JoinSlash(SplitSlash(s)) == s
    decreases |s|
  {
    BeforeSlash(s);
    var i := IndexOfSlash(s);
    if i < |s| {
      hide JoinSlash, IndexOfSlash;
      JoinOfSplit(s[i + 1..]);
      JoinCons(s[..i], SplitSlash(s[i + 1..]));
      assert s == s[..i] + "/" + s[i + 1..];
    }
  }

  lemma {:induction false} SplitIsMadeOf(s: string, chars: set<char>)
    requires forall c | c in s :: c in chars
    ensures MadeOf(SplitSlash(s), chars)
    decreases |s|
  {
    var i := IndexOfSlash(s);
    if i < |s| {
      SplitIsMadeOf(s[i + 1..], chars);
    }
  }

  lemma {:induction false} JoinIsMadeOf(segments: seq<string>, chars: set<char>)
    requires MadeOf(segments, chars)
    ensures forall c | c in JoinSlash(segments) :: c in chars || c == '/'
  {
    if |segments| > 1 {
      JoinIsMadeOf(segments[1..], chars);
    }
  }

  lemma ToSlashesLeavesNoBackslash(input: string)
    ensures '\\' !in RawPath(input)
  {
    TrimIsPart(ToSlashes(input));
  }

  lemma {:induction false} TrimLeftIsPart(s: string)
    ensures |TrimLeft(s)| <= |s| && (|TrimLeft(s)| == |s| ==> TrimLeft(s) == s)
    ensures forall c | c in TrimLeft(s) :: c in s
  {
    if s != "" && IsSpace(s[0]) {
      TrimLeftIsPart(s[1..]);
    }
  }

  lemma {:induction false} TrimRightIsPart(s: string)
    ensures |TrimRight(s)| <= |s| && (|TrimRight(s)| == |s| ==> TrimRight(s) == s)
    ensures forall c | c in TrimRight(s) :: c in s
  {
    if s != "" && IsSpace(s[|s| - 1]) {
      TrimRightIsPart(s[..|s| - 1]);
    }
  }

  lemma TrimIsPart(s: string)
    ensures |TrimSpace(s)| <= |s| && (|TrimSpace(s)| == |s| ==> TrimSpace(s) == s)
    ensures forall c | c in TrimSpace(s) :: c in s
  {
    TrimLeftIsPart(s);
    TrimRightIsPart(TrimLeft(s));
  }

  /** A canonical path: empty, or names joined by single slashes, with no backslash and no NUL. */
  predicate IsCanonical(path: string) {
    '\\' !in path && '\0' !in path && (path == "" || AreNames(SplitSlash(path)))
  }

  /** Whatever is accepted comes out canonical: no empty, `.` or `..` segment is left. */
  lemma NormalizedIsCanonical(input: string)
    requires NormalizedPath(input).Ok?
    ensures IsCanonical(NormalizedPath(input).path)
    ensures forall c | c in NormalizedPath(input).path :: c in RawPath(input) || c == '/'
  {
    var raw := RawPath(input);
    ToSlashesLeavesNoBackslash(input);
    if raw != "" && raw != "." {
      var chars := set c | c in raw;
      SplitIsSlashFree(raw);
      SplitIsMadeOf(raw, chars);
      ResolveKeepsNames(SplitSlash(raw), [], chars);
      var names := Resolve(SplitSlash(raw), []).value;
      JoinIsMadeOf(names, chars);
      if names != [] {
        SplitOfJoin(names);
      }
    }
  }

  function Weight(segments: seq<string>): nat {
    if segments == [] then 0 else |segments[0]| + 1 + Weight(segments[1..])
  }

  lemma {:induction false} WeightConcat(a: seq<string>, b: seq<string>)
    ensures Weight(a + b) == Weight(a) + Weight(b)
  {
    if a == [] {
      assert a + b == b;
    } else {
      assert (a + b)[1..] == a[1..] + b;
      WeightConcat(a[1..], b);
    }
  }

  lemma {:induction false} ResolveGrowsNothing(segments: seq<string>, stack: seq<string>)
    requires Resolve(segments, stack).Some?
    ensures Weight(Resolve(segments, stack).value) <= Weight(stack) + Weight(segments)
    decreases segments
  {
    if segments != [] {
      var s, rest := segments[0], segments[1..];
      if s == "" || s == "." {
        ResolveGrowsNothing(rest, stack);
      } else if s == ".." {
        assert stack == stack[..|stack| - 1] + [stack[|stack| - 1]];
        WeightConcat(stack[..|stack| - 1], [stack[|stack| - 1]]);
        ResolveGrowsNothing(rest, stack[..|stack| - 1]);
      } else {
        WeightConcat(stack, [s]);
        assert Weight([s]) == |s| + 1 + Weight([s][1..]);
        ResolveGrowsNothing(rest, stack + [s]);
      }
    }
  }

  lemma {:induction false} JoinLength(segments: seq<string>)
    ensures |JoinSlash(segments)| == if segments == [] then 0 else Weight(segments) - 1
  {
    if |segments| > 1 {
      JoinLength(segments[1..]);
    } else if |segments| == 1 {
      assert Weight(segments[1..]) == 0;
    }
  }

  lemma NormalizeGrowsNothing(raw: string)
    requires NormalizeRaw(raw).Ok?
    ensures |NormalizeRaw(raw).path| <= |raw|
  {
    if raw != "" && raw != "." {
      ResolveGrowsNothing(SplitSlash(raw), []);
      JoinLength(Resolve(SplitSlash(raw), []).value);
      JoinLength(SplitSlash(raw));
      JoinOfSplit(raw);
    }
  }

  /** Normalizing a canonical path again changes nothing exactly when it has no white space at its ends. */
  lemma CanonicalIsFixed(path: string)
    requires IsCanonical(path)
    ensures NormalizedPath(path) == Ok(path) <==> TrimSpace(path) == path
  {
    assert ToSlashes(path) == path;
    if TrimSpace(path) == path {
      if path != "" {
        var names := SplitSlash(path);
        JoinOfSplit(path);
        ResolveOfNames(names, []);
        assert [] + names == names;
        assert names[0] != "" && names[0] != ".";
        if path == "." {
          SplitHead(".", "");
        }
      }
    } else {
      TrimIsPart(path);
      if NormalizeRaw(TrimSpace(path)).Ok? {
        NormalizeGrowsNothing(TrimSpace(path));
      }
    }
  }

  /** Normalizing a result again changes nothing exactly when it has no white space at its ends. */
  lemma IdempotentIfTrimmed(input: string)
    requires NormalizedPath(input).Ok?
    ensures var path := NormalizedPath(input).path;
            NormalizedPath(path) == NormalizedPath(input) <==> TrimSpace(path) == path
  {
    NormalizedIsCanonical(input);
    CanonicalIsFixed(NormalizedPath(input).path);
  }

  // ---------------------------------------------------------------- which inputs are normalized once and for all

  /** A name that no later `..` takes away again. */
  predicate Survives(parts: seq<string>, i: nat)
    requires i < |parts|
  {
    Climb(parts[i]) == 1 && StaysBelow(parts[i + 1..], 0)
  }

  predicate IsFirstSurvivor(parts: seq<string>, i: nat) {
    i < |parts| && Survives(parts, i) && forall k: nat | k < i :: !Survives(parts, k)
  }

  predicate IsLastSurvivor(parts: seq<string>, i: nat) {
    i < |parts| && Survives(parts, i) && forall k: nat | i < k < |parts| :: !Survives(parts, k)
  }

  /** The names that are left over, in order. */
  function Survivors(parts: seq<string>): seq<string> {
    if parts == [] then []
    else if Survives(parts, 0) then [parts[0]] + Survivors(parts[1..])
    else Survivors(parts[1..])
  }

  /** How many names the segments take off a stack on which they are read. */
  function Pops(segments: seq<string>): nat {
    if segments == [] then 0 else Max(0, Pops(segments[1..]) - Climb(segments[0]))
  }

  lemma {:induction false} PopsMeans(segments: seq<string>, start: nat)
    ensures StaysBelow(segments, start) <==> Pops(segments) <= start
    decreases segments
  {
    if segments != [] {
      StaysBelowStep(segments, start);
      if start + Climb(segments[0]) >= 0 {
        PopsMeans(segments[1..], start + Climb(segments[0]));
      }
    } else {
      assert segments[..0] == [];
    }
  }

  lemma PrefixOfPrefix<T>(s: seq<T>, m: nat, n: nat)
    requires n <= m <= |s|
    ensures s[..m][..n] == s[..n]
  {}

  lemma PrefixOfPushed<T>(s: seq<T>, x: T, n: nat)
    requires n <= |s|
    ensures (s + [x])[..n] == s[..n]
  {}

  lemma WholePrefix<T>(s: seq<T>, x: T, rest: seq<T>)
    ensures (s + [x])[..|s| + 1] + rest == s[..|s|] + ([x] + rest)
  {}

  /** The stack loses its unmatched names and gains the survivors. */
  lemma {:induction false} ResolveIs(segments: seq<string>, stack: seq<string>)
    requires Pops(segments) <= |stack|
    ensures Resolve(segments, stack) == Some(stack[..|stack| - Pops(segments)] + Survivors(segments))
    decreases segments
  {
    hide StaysBelow;
    if segments != [] {
      var s, rest := segments[0], segments[1..];
      PopsMeans(rest, 0);
      if s == "" || s == "." {
        ResolveIs(rest, stack);
      } else if s == ".." {
        ResolveIs(rest, stack[..|stack| - 1]);
        PrefixOfPrefix(stack, |stack| - 1, |stack| - Pops(segments));
      } else {
        ResolveIs(rest, stack + [s]);
        if Pops(rest) == 0 {
          WholePrefix(stack, s, Survivors(rest));
        } else {
          PrefixOfPushed(stack, s, |stack| - Pops(segments));
        }
      }
    } else {
      assert stack[..|stack|] + [] == stack;
    }
  }

  lemma SurvivesLater(parts: seq<string>, i: nat)
    requires 0 < i < |parts|
    ensures Survives(parts, i) <==> Survives(parts[1..], i - 1)
  {
    assert parts[1..][i..] == parts[i + 1..];
  }

  lemma {:induction false} FirstSurvivor(parts: seq<string>) returns (i: nat)
    requires Survivors(parts) != []
    ensures IsFirstSurvivor(parts, i) && parts[i] == Survivors(parts)[0]
  {
    hide Survives;
    if Survives(parts, 0) {
      i := 0;
    } else {
      var j := FirstSurvivor(parts[1..]);
      i := j + 1;
      SurvivesLater(parts, i);
      forall k: nat | k < i
        ensures !Survives(parts, k)
      {
        if k > 0 { SurvivesLater(parts, k); }
      }
    }
  }

  lemma {:induction false} NoSurvivor(parts: seq<string>, k: nat)
    requires Survivors(parts) == [] && k < |parts|
    ensures !Survives(parts, k)
  {
    hide Survives;
    if k > 0 {
      NoSurvivor(parts[1..], k - 1);
      SurvivesLater(parts, k);
    }
  }

  lemma {:induction false} LastSurvivor(parts: seq<string>) returns (i: nat)
    requires Survivors(parts) != []
    ensures IsLastSurvivor(parts, i) && parts[i] == Survivors(parts)[|Survivors(parts)| - 1]
  {
    hide Survives;
    var rest := parts[1..];
    if Survivors(rest) == [] {
      i := 0;
      forall k: nat | 0 < k < |parts|
        ensures !Survives(parts, k)
      {
        NoSurvivor(rest, k - 1);
        SurvivesLater(parts, k);
      }
    } else {
      var j := LastSurvivor(rest);
      i := j + 1;
      SurvivesLater(parts, i);
      forall k: nat | i < k < |parts|
        ensures !Survives(parts, k)
      {
        SurvivesLater(parts, k);
      }
    }
  }

  lemma TrimmedMeans(s: string)
    ensures TrimSpace(s) == s <==> s == "" || (!IsSpace(s[0]) && !IsSpace(s[|s| - 1]))
  {
    if s != "" {
      if IsSpace(s[0]) {
        TrimLeftIsPart(s[1..]);
        TrimRightIsPart(TrimLeft(s));
      } else if IsSpace(s[|s| - 1]) {
        TrimRightIsPart(s[..|s| - 1]);
      }
    }
  }

  lemma {:induction false} JoinEnds(names: seq<string>)
    requires names != [] && AreNames(names)
    ensures var path := JoinSlash(names);
            path != "" && path[0] == names[0][0] && path[|path| - 1] == names[|names| - 1][|names[|names| - 1]| - 1]
  {
    if |names| > 1 {
      JoinEnds(names[1..]);
    }
  }

  /** The result is the survivors, joined. */
  lemma NormalizedIsSurvivors(input: string)
    requires NormalizedPath(input).Ok?
    ensures NormalizedPath(input).path == JoinSlash(Survivors(SplitSlash(RawPath(input))))
    ensures AreNames(Survivors(SplitSlash(RawPath(input))))
  {
    var raw := RawPath(input);
    var parts := SplitSlash(raw);
    NormalizeAccepts(input);
    PopsMeans(parts, 0);
    ResolveIs(parts, []);
    var none: seq<string> := [];
    assert none[..0] + Survivors(parts) == Survivors(parts);
    if raw == "" || raw == "." {
      SplitHead(raw, "");
      assert Survivors([raw]) == Survivors([raw][1..]) == [];
    }
    SplitIsSlashFree(raw);
    SurvivorsAreNames(parts);
  }

  lemma {:induction false} SurvivorsAreNames(parts: seq<string>)
    requires SlashFree(parts)
    ensures AreNames(Survivors(parts))
  {
    if parts != [] {
      SurvivorsAreNames(parts[1..]);
    }
  }

  /** The first surviving segment does not start with white space and the last one does not end with it. */
  predicate SurvivesTrimming(parts: seq<string>) {
    && (forall i: nat | i < |parts| && IsFirstSurvivor(parts, i) :: !StartsWithSpace(parts[i]))
    && (forall i: nat | i < |parts| && IsLastSurvivor(parts, i) :: !EndsWithSpace(parts[i]))
  }

  predicate StartsWithSpace(s: string) {
    s != "" && IsSpace(s[0])
  }

  predicate EndsWithSpace(s: string) {
    s != "" && IsSpace(s[|s| - 1])
  }

  lemma SurvivorsTrimmed(parts: seq<string>)
    requires SlashFree(parts)
    ensures SurvivesTrimming(parts) <==> TrimSpace(JoinSlash(Survivors(parts))) == JoinSlash(Survivors(parts))
  {
    hide Survives, IsSpace, TrimSpace, JoinSlash;
    var names := Survivors(parts);
    SurvivorsAreNames(parts);
    TrimmedMeans(JoinSlash(names));
    if names == [] {
      forall i: nat | i < |parts|
        ensures !Survives(parts, i)
      {
        NoSurvivor(parts, i);
      }
      JoinLength(names);
    } else {
      JoinEnds(names);
      var first := FirstSurvivor(parts);
      var last := LastSurvivor(parts);
    }
  }

  /** Normalization is idempotent exactly on the inputs that survive trimming. */
  lemma IdempotentExactly(input: string)
    requires NormalizedPath(input).Ok?
    ensures NormalizedPath(NormalizedPath(input).path) == NormalizedPath(input)
       <==> SurvivesTrimming(SplitSlash(RawPath(input)))
  {
    hide NormalizedPath, SurvivesTrimming, RawPath, TrimSpace, JoinSlash, Survivors;
    NormalizedIsSurvivors(input);
    IdempotentIfTrimmed(input);
    SplitIsSlashFree(RawPath(input));
    SurvivorsTrimmed(SplitSlash(RawPath(input)));
  }

  lemma NormalizedName(raw: string, name: string)
    requires IsName(name) && '\0' !in raw && raw != "" && raw[0] != '/' && raw != "."
    requires SplitSlash(raw) == [name] || SplitSlash(raw) == ["."] + [name]
    ensures NormalizeRaw(raw) == Ok(name)
  {
    ResolveOfNames([name], []);
    assert [] + [name] == [name];
    assert (["."] + [name])[1..] == [name];
  }

  lemma TrimmedOnce()
    ensures RawPath("./ a") == "./ a" && RawPath(" a") == "a"
  {
    assert ToSlashes("./ a") == "./ a" && ToSlashes(" a") == " a";
    assert " a"[1..] == "a" && TrimLeft(" a") == TrimLeft("a");
  }

  /** A first segment that starts with a space: the second normalization trims what the first one kept. */
  lemma NotIdempotent()
    ensures NormalizedPath("./ a") == Ok(" a") && NormalizedPath(" a") == Ok("a")
  {
    hide SplitSlash, RawPath, NormalizeRaw;
    TrimmedOnce();
    SplitHead(".", " a");
    SplitHead(" a", "");
    SplitHead("a", "");
    assert "." + "/" + " a" == "./ a";
    NormalizedName("./ a", " a");
    NormalizedName("a", "a");
  }

  // ---------------------------------------------------------------- the other implementation

  lemma {:induction false} TrimLeftCommutes(s: string)
    ensures TrimLeft(ToSlashes(s)) == ToSlashes(TrimLeft(s))
  {
    if s != "" {
      assert ToSlashes(s)[1..] == ToSlashes(s[1..]);
      TrimLeftCommutes(s[1..]);
    }
  }

  lemma {:induction false} TrimRightCommutes(s: string)
    ensures TrimRight(ToSlashes(s)) == ToSlashes(TrimRight(s))
  {
    if s != "" {
      assert ToSlashes(s)[..|s| - 1] == ToSlashes(s[..|s| - 1]);
      TrimRightCommutes(s[..|s| - 1]);
    }
  }

  /** A backslash is a slash. */
  lemma BackslashIsSlash(front: string, rest: string)
    ensures NormalizedPath(front + "\\" + rest) == NormalizedPath(front + "/" + rest)
  {
    assert ToSlashes(front + "\\" + rest) == ToSlashes(front + "/" + rest);
  }

  /** With one set of white space, trimming before replacing backslashes gives the same path. */
  lemma TrimFirstIsTheSame(input: string)
    ensures RawPath(input) == ToSlashes(TrimSpace(input))
  {
    TrimLeftCommutes(input);
    TrimRightCommutes(TrimLeft(input));
  }
}
