/** Detection of renames among the events of a review, followed by their collapse. */
module RenameDetection {
  import opened Sequences
  import opened RenameChains

  datatype EventType = Add | Change | Unlink

  datatype ReviewEvent = ReviewEvent(id: string, kind: EventType, isFile: bool, path: string, receivedAt: int)

  const MAX_RENAME_GAP := 2000

  /** What comes before the last `c` of `s`, or `None` without one. */
  function BeforeLast(s: string, c: char): (r: Option<string>)
    ensures r.None? <==> c !in s
    ensures r.Some? ==> exists rest: string :: s == r.value + [c] + rest && c !in rest
  {
    if s == [] then None
    else
      var last := |s| - 1;
      if s[last] == c then
        assert s == s[..last] + [c] + "";
        Some(s[..last])
      else
        var r := BeforeLast(s[..last], c);
        assert s == s[..last] + [s[last]];
        assert r.Some? ==>
          var rest: string :| s[..last] == r.value + [c] + rest && c !in rest;
          s == r.value + [c] + (rest + [s[last]]) && c !in rest + [s[last]];
        r
  }

  function AfterLast(s: string, c: char): string {
    match BeforeLast(s, c)
    case None => s
    case Some(front) => if |front| < |s| then s[|front| + 1..] else s
  }

  function ParentPath(path: string): string {
    match BeforeLast(path, '/')
    case None => ""
    case Some(parent) => parent
  }

  function Extension(path: string): string {
    var basename := AfterLast(path, '/');
    if '.' in basename then LowerAscii(AfterLast(basename, '.')) else ""
  }

  predicate LooksLikeRename(remove: ReviewEvent, add: ReviewEvent) {
    && -MAX_RENAME_GAP <= add.receivedAt - remove.receivedAt <= MAX_RENAME_GAP
    && add.path != remove.path
    && ParentPath(add.path) == ParentPath(remove.path)
    && Extension(add.path) == Extension(remove.path)
  }

  lemma LastIsUnique(s: string, c: char, front: string, rest: string, front': string, rest': string)
    requires s == front + [c] + rest == front' + [c] + rest' && c !in rest && c !in rest'
    ensures |front| <= |front'|
  {
    assert s[|front|] == c;
    forall k | |front'| < k < |s|
      ensures s[k] != c
    {
      assert s[k] == rest'[k - |front'| - 1] && rest'[k - |front'| - 1] in rest';
    }
  }

  lemma SplitAtLast(front: string, c: char, rest: string)
    requires c !in rest
    ensures BeforeLast(front + [c] + rest, c) == Some(front) && AfterLast(front + [c] + rest, c) == rest
  {
    var s := front + [c] + rest;
    assert s[|front|] == c;
    var front' := BeforeLast(s, c).value;
    var rest': string :| s == front' + [c] + rest' && c !in rest';
    LastIsUnique(s, c, front, rest, front', rest');
    LastIsUnique(s, c, front', rest', front, rest);
    assert s[..|front|] == front && s[..|front'|] == front' && s[|front| + 1..] == rest;
  }

  /** The path is a name in a directory; "" is the directory of a bare name, too. */
  predicate IsIn(path: string, directory: string, name: string) {
    '/' !in name && (path == directory + "/" + name || (directory == "" && path == name))
  }

  /** The extension of a name: what stands behind its last dot, in lower case, or nothing. */
  predicate IsExtension(name: string, stem: string, extension: string) {
    if '.' in name then
      && |stem| < |name| && name[..|stem|] == stem && name[|stem|] == '.'
      && '.' !in name[|stem| + 1..] && extension == LowerAscii(name[|stem| + 1..])
    else stem == name && extension == ""
  }

  lemma IsInMeans(path: string, directory: string, name: string)
    ensures IsIn(path, directory, name) <==> ParentPath(path) == directory && AfterLast(path, '/') == name
  {
    assert directory + "/" + name == directory + ['/'] + name;
    if '/' !in name {
      SplitAtLast(directory, '/', name);
    }
    if '/' in path {
      var rest: string :| path == BeforeLast(path, '/').value + ['/'] + rest && '/' !in rest;
      SplitAtLast(BeforeLast(path, '/').value, '/', rest);
    }
  }

  /** Both are names in one directory, with one extension, their events no more than 2000 ms apart. */
  predicate IsRenameIn(remove: ReviewEvent, add: ReviewEvent, directory: string, from: string, to: string, fromStem: string,
                       toStem: string, extension: string)
  {
    && add.path != remove.path && -2000 <= add.receivedAt - remove.receivedAt <= 2000
    && IsIn(remove.path, directory, from) && IsIn(add.path, directory, to)
    && IsExtension(from, fromStem, extension) && IsExtension(to, toStem, extension)
  }

  function Stem(name: string): string {
    match BeforeLast(name, '.')
    case None => name
    case Some(stem) => stem
  }

  lemma DottedExtension(name: string, front: string, rest: string, stem: string, extension: string)
    requires name == front + ['.'] + rest && '.' !in rest
    ensures IsExtension(name, stem, extension) <==> extension == LowerAscii(rest) && stem == front
  {
    assert '.' in name && name[..|front|] == front && name[|front| + 1..] == rest;
    if IsExtension(name, stem, extension) {
      var suffix := name[|stem| + 1..];
      assert name == stem + ['.'] + suffix;
      LastIsUnique(name, '.', front, rest, stem, suffix);
      LastIsUnique(name, '.', stem, suffix, front, rest);
    }
  }

  lemma ExtensionMeans(path: string, stem: string, extension: string)
    ensures var name := AfterLast(path, '/');
      IsExtension(name, stem, extension) <==> Extension(path) == extension && stem == Stem(name)
  {
    var name := AfterLast(path, '/');
    if '.' in name {
      var front := BeforeLast(name, '.').value;
      var rest: string :| name == front + ['.'] + rest && '.' !in rest;
      SplitAtLast(front, '.', rest);
      DottedExtension(name, front, rest, stem, extension);
      hide IsExtension, BeforeLast;
    }
  }

  /** What looks like a rename: two names in one directory, with one extension, not long after one another. */
  lemma LooksLikeRenameMeans(remove: ReviewEvent, add: ReviewEvent)
    ensures LooksLikeRename(remove, add) <==> exists directory, from, to, fromStem, toStem, extension ::
              IsRenameIn(remove, add, directory, from, to, fromStem, toStem, extension)
  {
    hide IsIn, IsExtension, ParentPath, Extension, AfterLast, Stem;
    var directory, from, to := ParentPath(remove.path), AfterLast(remove.path, '/'), AfterLast(add.path, '/');
    if LooksLikeRename(remove, add) {
      IsInMeans(remove.path, directory, from);
      IsInMeans(add.path, directory, to);
      ExtensionMeans(remove.path, Stem(from), Extension(remove.path));
      ExtensionMeans(add.path, Stem(to), Extension(remove.path));
      assert IsRenameIn(remove, add, directory, from, to, Stem(from), Stem(to), Extension(remove.path));
    }
    forall d, f, t, fs, ts, e | IsRenameIn(remove, add, d, f, t, fs, ts, e)
      ensures LooksLikeRename(remove, add)
    {
      IsInMeans(remove.path, d, f);
      IsInMeans(add.path, d, t);
      ExtensionMeans(remove.path, fs, e);
      ExtensionMeans(add.path, ts, e);
    }
  }

  predicate IsAddition(e: ReviewEvent) { e.kind == Add && e.isFile }

  predicate IsRemoval(e: ReviewEvent) { e.kind == Unlink && e.isFile }

  /** `m` is the first removal that looks like the other half of `add` and is not in use. */
  predicate IsFirstFree(removals: seq<ReviewEvent>, add: ReviewEvent, used: set<string>, m: Option<nat>) {
    var end := if m.Some? then m.value else |removals|;
    && end <= |removals|
    && (forall r | 0 <= r < end :: removals[r].id in used || !LooksLikeRename(removals[r], add))
    && (m.Some? ==> end < |removals| && removals[end].id !in used && LooksLikeRename(removals[end], add))
  }

  /** The ids of the matched removals. */
  function UsedIds(removals: seq<ReviewEvent>, matches: seq<Option<nat>>): set<string> {
    set m | m in matches && m.Some? && m.value < |removals| :: removals[m.value].id
  }

  /** Every addition, in order, is matched with its first removal that no earlier addition uses. */
  ghost predicate IsMatching(additions: seq<ReviewEvent>, removals: seq<ReviewEvent>, matches: seq<Option<nat>>) {
    && |matches| == |additions|
    && forall i {:trigger IsFirstFree(removals, additions[i], UsedIds(removals, matches[..i]), matches[i])} | 0 <= i < |matches| ::
         IsFirstFree(removals, additions[i], UsedIds(removals, matches[..i]), matches[i])
  }

  function PairOf(remove: ReviewEvent, add: ReviewEvent): RenamePair<string> {
    RenamePair(remove.path, add.path, Max(remove.receivedAt, add.receivedAt))
  }

  function MatchedPairs(additions: seq<ReviewEvent>, removals: seq<ReviewEvent>, matches: seq<Option<nat>>): seq<RenamePair<string>>
    requires |matches| == |additions|
  {
    if matches == [] then []
    else
      var n := |matches| - 1;
      MatchedPairs(additions[..n], removals, matches[..n])
      + if matches[n].Some? && matches[n].value < |removals| then [PairOf(removals[matches[n].value], additions[n])] else []
  }

  method FirstFree(removals: seq<ReviewEvent>, add: ReviewEvent, used: set<string>) returns (m: Option<nat>)
    ensures IsFirstFree(removals, add, used, m)
  {
    for r := 0 to |removals|
      invariant forall q | 0 <= q < r :: removals[q].id in used || !LooksLikeRename(removals[q], add)
    {
      if removals[r].id !in used && LooksLikeRename(removals[r], add) {
        return Some(r);
      }
    }
    return None;
  }

  lemma StartMatching(removals: seq<ReviewEvent>)
    ensures IsMatching([], removals, []) && UsedIds(removals, []) == {} && MatchedPairs([], removals, []) == []
  {}

  method MatchRemovals(additions: seq<ReviewEvent>, removals: seq<ReviewEvent>)
    returns (pairs: seq<RenamePair<string>>, ghost matches: seq<Option<nat>>)
    ensures IsMatching(additions, removals, matches) && pairs == MatchedPairs(additions, removals, matches)
  {
    hide IsMatching, UsedIds, MatchedPairs, PairOf;
    StartMatching(removals);
    var usedRemovals: set<string> := {};
    pairs, matches := [], [];
    for i := 0 to |additions|
      invariant |matches| == i && IsMatching(additions[..i], removals, matches)
      invariant usedRemovals == UsedIds(removals, matches)
      invariant pairs == MatchedPairs(additions[..i], removals, matches)
    {
      var m := FirstFree(removals, additions[i], usedRemovals);
      MatchOneMore(additions, removals, matches, m, i);
      UseOneMore(removals, matches, m);
      PairOneMore(additions, removals, matches, m, i);
      if m.Some? {
        usedRemovals := usedRemovals + {removals[m.value].id};
        pairs := pairs + [PairOf(removals[m.value], additions[i])];
      }
      matches := matches + [m];
    }
    assert additions[..|additions|] == additions;
  }

  lemma UseOneMore(removals: seq<ReviewEvent>, matches: seq<Option<nat>>, m: Option<nat>)
    requires m.Some? ==> m.value < |removals|
    ensures UsedIds(removals, matches + [m]) == UsedIds(removals, matches) + if m.Some? then {removals[m.value].id} else {}
  {
    var more := matches + [m];
    assert more[|matches|] == m;
    assert forall x | x in matches :: x in more;
    assert forall x | x in more :: x in matches || x == m;
  }

  lemma PairOneMore(additions: seq<ReviewEvent>, removals: seq<ReviewEvent>, matches: seq<Option<nat>>, m: Option<nat>, i: nat)
    requires i < |additions| && i == |matches| && (m.Some? ==> m.value < |removals|)
    ensures MatchedPairs(additions[..i + 1], removals, matches + [m])
         == MatchedPairs(additions[..i], removals, matches) + if m.Some? then [PairOf(removals[m.value], additions[i])] else []
  {
    assert (matches + [m])[..i] == matches && additions[..i + 1][..i] == additions[..i];
  }

  lemma MatchOneMore(additions: seq<ReviewEvent>, removals: seq<ReviewEvent>, matches: seq<Option<nat>>, m: Option<nat>, i: nat)
    requires i < |additions| && i == |matches| && IsMatching(additions[..i], removals, matches)
    requires IsFirstFree(removals, additions[i], UsedIds(removals, matches), m)
    ensures IsMatching(additions[..i + 1], removals, matches + [m])
  {
    hide IsFirstFree, UsedIds;
    var more := matches + [m];
    forall j | 0 <= j < i + 1
      ensures IsFirstFree(removals, additions[..i + 1][j], UsedIds(removals, more[..j]), more[j])
    {
      if j < i {
        assert more[..j] == matches[..j] && additions[..i + 1][j] == additions[..i][j];
      } else {
        assert more[..j] == matches;
      }
    }
  }

  /** No removal is used for two additions. */
  lemma MatchesAreOneToOne(additions: seq<ReviewEvent>, removals: seq<ReviewEvent>, matches: seq<Option<nat>>, i: nat, j: nat)
    requires IsMatching(additions, removals, matches) && i < j < |matches| && matches[i].Some? && matches[j].Some?
    ensures matches[i].value < |removals| && matches[j].value < |removals|
    ensures removals[matches[i].value].id != removals[matches[j].value].id
  {
    assert IsFirstFree(removals, additions[i], UsedIds(removals, matches[..i]), matches[i]);
    assert IsFirstFree(removals, additions[j], UsedIds(removals, matches[..j]), matches[j]);
    assert matches[i] in matches[..j] by { assert matches[..j][i] == matches[i]; }
  }

  /** The addition behind a detected pair. */
  lemma {:induction false} PairHasOrigin(additions: seq<ReviewEvent>, removals: seq<ReviewEvent>, matches: seq<Option<nat>>, k: nat)
    returns (i: nat)
    requires IsMatching(additions, removals, matches) && k < |MatchedPairs(additions, removals, matches)|
    ensures i < |matches| && matches[i].Some? && matches[i].value < |removals|
    ensures MatchedPairs(additions, removals, matches)[k] == PairOf(removals[matches[i].value], additions[i])
    ensures LooksLikeRename(removals[matches[i].value], additions[i])
  {
    var n := |matches| - 1;
    assert IsFirstFree(removals, additions[n], UsedIds(removals, matches[..n]), matches[n]);
    MatchingOfPrefix(additions, removals, matches);
    if k < |MatchedPairs(additions[..n], removals, matches[..n])| {
      i := PairHasOrigin(additions[..n], removals, matches[..n], k);
    } else {
      i := n;
    }
  }

  /** A detected pair leads from a file removed to a file added, at the later of the two times, and is a rename in one directory. */
  lemma DetectedPairMeans(events: seq<ReviewEvent>, matches: seq<Option<nat>>, k: nat)
    requires IsMatching(Filter(events, IsAddition), Filter(events, IsRemoval), matches)
    requires k < |MatchedPairs(Filter(events, IsAddition), Filter(events, IsRemoval), matches)|
    ensures exists remove, add | remove in events && add in events ::
              && remove.kind == Unlink && remove.isFile && add.kind == Add && add.isFile
              && IsDetected(MatchedPairs(Filter(events, IsAddition), Filter(events, IsRemoval), matches)[k], remove, add)
  {
    var additions, removals := Filter(events, IsAddition), Filter(events, IsRemoval);
    var i := PairHasOrigin(additions, removals, matches, k);
    var remove, add := removals[matches[i].value], additions[i];
    LooksLikeRenameMeans(remove, add);
    FilterMembers(events, IsAddition);
    FilterMembers(events, IsRemoval);
    assert remove in removals && add in additions;
    hide LooksLikeRename, IsMatching, MatchedPairs, IsRenameIn, Filter;
    assert IsDetected(MatchedPairs(additions, removals, matches)[k], remove, add);
  }

  ghost predicate IsDetected(p: RenamePair<string>, remove: ReviewEvent, add: ReviewEvent) {
    && p.fromPath == remove.path && p.toPath == add.path
    && p.receivedAt == (if remove.receivedAt >= add.receivedAt then remove.receivedAt else add.receivedAt)
    && exists directory, from, to, fromStem, toStem, extension ::
         IsRenameIn(remove, add, directory, from, to, fromStem, toStem, extension)
  }

  lemma MatchingOfPrefix(additions: seq<ReviewEvent>, removals: seq<ReviewEvent>, matches: seq<Option<nat>>)
    requires IsMatching(additions, removals, matches) && matches != []
    ensures IsMatching(additions[..|matches| - 1], removals, matches[..|matches| - 1])
  {
    var n := |matches| - 1;
    forall i | 0 <= i < n
      ensures IsFirstFree(removals, additions[..n][i], UsedIds(removals, matches[..n][..i]), matches[..n][i])
    {
      assert matches[..n][..i] == matches[..i];
      assert IsFirstFree(removals, additions[i], UsedIds(removals, matches[..i]), matches[i]);
    }
  }

  predicate DistinctPaths(events: seq<ReviewEvent>) {
    forall i, j | 0 <= i < j < |events| :: events[i].path != events[j].path
  }

  lemma NewPairHasNewEnds(additions: seq<ReviewEvent>, removals: seq<ReviewEvent>, matches: seq<Option<nat>>, k: nat)
    requires IsMatching(additions, removals, matches) && DistinctPaths(additions) && DistinctPaths(removals)
    requires matches != [] && matches[|matches| - 1].Some?
    requires k < |MatchedPairs(additions[..|matches| - 1], removals, matches[..|matches| - 1])|
    ensures var n := |matches| - 1;
      matches[n].value < |removals| &&
      var p := MatchedPairs(additions[..n], removals, matches[..n])[k];
      p.fromPath != removals[matches[n].value].path && p.toPath != additions[n].path
  {
    assert |matches| == |additions|;
    hide IsMatching, DistinctPaths, MatchedPairs, LooksLikeRename;
    var n := |matches| - 1;
    MatchingOfPrefix(additions, removals, matches);
    var i := PairHasOrigin(additions[..n], removals, matches[..n], k);
    MatchesAreOneToOne(additions, removals, matches, i, n);
    HaveOtherPaths(removals, matches[i].value, matches[n].value);
    HaveOtherPaths(additions, i, n);
  }

  lemma HaveOtherPaths(events: seq<ReviewEvent>, i: nat, j: nat)
    requires DistinctPaths(events) && i < |events| && j < |events| && i != j
    ensures events[i].path != events[j].path
  {}

  /** Additions of distinct paths and removals of distinct paths give pairs that collapse cleanly. */
  lemma {:induction false} DetectedEndsAreDistinct(additions: seq<ReviewEvent>, removals: seq<ReviewEvent>, matches: seq<Option<nat>>)
    requires IsMatching(additions, removals, matches) && DistinctPaths(additions) && DistinctPaths(removals)
    ensures DistinctEnds(MatchedPairs(additions, removals, matches))
  {
    if matches != [] {
      var n := |matches| - 1;
      assert IsFirstFree(removals, additions[n], UsedIds(removals, matches[..n]), matches[n]);
      MatchingOfPrefix(additions, removals, matches);
      DetectedEndsAreDistinct(additions[..n], removals, matches[..n]);
      if matches[n].Some? {
        forall k | 0 <= k < |MatchedPairs(additions[..n], removals, matches[..n])|
          ensures MatchedPairs(additions[..n], removals, matches[..n])[k].fromPath != removals[matches[n].value].path
          ensures MatchedPairs(additions[..n], removals, matches[..n])[k].toPath != additions[n].path
        {
          NewPairHasNewEnds(additions, removals, matches, k);
        }
      }
    }
  }

  /** `collapsed` comes from matching each addition with its first free removal. */
  ghost predicate IsDetection(additions: seq<ReviewEvent>, removals: seq<ReviewEvent>, collapsed: seq<Collapsed<string>>) {
    exists matches: seq<Option<nat>> :: IsMatching(additions, removals, matches) &&
      IsCollapsed(MatchedPairs(additions, removals, matches), collapsed)
  }

  /** The rename pairs of a review. */
  method DetectRenamePairs(events: seq<ReviewEvent>) returns (collapsed: seq<Collapsed<string>>)
    ensures DistinctPaths(Filter(events, IsAddition)) && DistinctPaths(Filter(events, IsRemoval)) ==>
      IsDetection(Filter(events, IsAddition), Filter(events, IsRemoval), collapsed)
  {
    hide IsMatching, DistinctPaths, IsCollapsed, DistinctEnds, MatchedPairs, Filter;
    var additions, removals := Filter(events, IsAddition), Filter(events, IsRemoval);
    var pairs;
    ghost var matches;
    pairs, matches := MatchRemovals(additions, removals);
    collapsed := CollapseRenameChains(pairs);
    if DistinctPaths(additions) && DistinctPaths(removals) {
      DetectedEndsAreDistinct(additions, removals, matches);
    }
  }
}
