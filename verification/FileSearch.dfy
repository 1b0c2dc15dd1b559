/** File search: scoring a path against the query terms, and the bounded list of best results. */
module FileSearch {
  import opened Sequences
  import opened Ordering

  datatype FileSearchResult = FileSearchResult(path: string, score: int)

  // ---------------------------------------------------------------- scoring

  predicate PrefixAt(text: string, term: string, k: nat) {
    k <= |text| && StartsWith(text[k..], term)
  }

  /** The least offset of `term` in `text` from `k` on, or -1. */
  function IndexFrom(text: string, term: string, k: nat): int
    decreases |text| - k
  {
    if k > |text| then -1 else if PrefixAt(text, term, k) then k else IndexFrom(text, term, k + 1)
  }

  lemma {:induction false} IndexFromIsLeast(text: string, term: string, k: nat)
    ensures var i := IndexFrom(text, term, k);
            && (i == -1 || (k <= i && PrefixAt(text, term, i)))
            && forall j | k <= j && (i == -1 || j < i) :: !PrefixAt(text, term, j)
    decreases |text| - k
  {
    if k <= |text| && !PrefixAt(text, term, k) {
      IndexFromIsLeast(text, term, k + 1);
    }
  }

  /** The points of one term: found, found scattered, or missing. */
  function TermScore(path: string, term: string): Option<int> {
    var index := IndexFrom(path, term, 0);
    if index >= 0 then Some(100 - index)
    else if IsSubsequence(term, path) && path != "" then Some(10)
    else None
  }

  predicate FoundFirstAt(text: string, term: string, i: nat) {
    PrefixAt(text, term, i) && forall j | 0 <= j < i :: !PrefixAt(text, term, j)
  }

  /** A term earns 100 less the first offset at which it occurs, 10 when it only occurs scattered, or nothing. */
  lemma TermScoreMeans(path: string, term: string)
    ensures forall i: nat | FoundFirstAt(path, term, i) :: TermScore(path, term) == Some(100 - i)
    ensures (forall i: nat :: !FoundFirstAt(path, term, i)) ==>
              TermScore(path, term) == if IsSubsequence(term, path) && path != "" then Some(10) else None
  {
    IndexFromIsLeast(path, term, 0);
    var index := IndexFrom(path, term, 0);
    if index >= 0 {
      assert FoundFirstAt(path, term, index);
    }
  }

  /** The sum of the points of the terms; zero as soon as one of them is missing. */
  function Score(path: string, terms: seq<string>): int {
    if exists i | 0 <= i < |terms| :: TermScore(path, terms[i]) == None then 0 else PointSum(path, terms)
  }

  function PointSum(path: string, terms: seq<string>): int {
    if terms == [] then 0
    else PointSum(path, terms[..|terms| - 1]) + match TermScore(path, terms[|terms| - 1]) { case None => 0 case Some(p) => p }
  }

  /** A path scores 0 exactly as soon as a term earns nothing; otherwise each further term adds what it earns. */
  lemma ScoreMeans(path: string, terms: seq<string>, term: string)
    requires forall i | 0 <= i < |terms| :: TermScore(path, terms[i]).Some?
    ensures Score(path, []) == 0
    ensures Score(path, terms + [term])
         == if TermScore(path, term).Some? then Score(path, terms) + TermScore(path, term).value else 0
  {
    var more := terms + [term];
    assert more[..|terms|] == terms && more[|terms|] == term;
    forall i | 0 <= i < |more| && TermScore(path, term).Some?
      ensures TermScore(path, more[i]) != None
    {
      assert i < |terms| ==> more[i] == terms[i];
    }
    hide TermScore;
  }

  lemma MissingTermScoresNothing(path: string, terms: seq<string>, i: nat)
    requires i < |terms| && TermScore(path, terms[i]).None?
    ensures Score(path, terms) == 0
  {
    hide TermScore;
  }

  method FileSearchScore(path: string, terms: seq<string>) returns (score: int)
    ensures score == Score(path, terms)
  {
    score := 0;
    var i := 0;
    while i < |terms|
      invariant 0 <= i <= |terms|
      invariant score == PointSum(path, terms[..i])
      invariant forall k | 0 <= k < i :: TermScore(path, terms[k]) != None
    {
      var term := terms[i];
      assert terms[..i + 1][..i] == terms[..i];
      i := i + 1;
      var index := IndexFrom(path, term, 0);
      if index >= 0 {
        score := score + 100 - index;
        continue;
      }
      var scattered := IsScattered(term, path);
      if scattered {
        score := score + 10;
        continue;
      }
      return 0;
    }
    assert terms[..i] == terms;
  }

  /** Greedy matching decides whether the needle is a subsequence. */
  lemma GreedyStep(needle: string, haystack: string)
    requires needle != "" && haystack != ""
    ensures IsSubsequence(needle, haystack)
       <==> IsSubsequence(if needle[0] == haystack[0] then needle[1..] else needle, haystack[1..])
  {
    if needle[0] == haystack[0] && IsSubsequence(needle, haystack) {
      SubsequenceTail(needle, haystack);
    }
  }

  /** The scan answers only while it reads characters, so an empty haystack has no match at all. */
  method IsScattered(needle: string, haystack: string) returns (found: bool)
    ensures found == (IsSubsequence(needle, haystack) && haystack != "")
  {
    var cursor, i := 0, 0;
    while i < |haystack|
      invariant 0 <= i <= |haystack| && 0 <= cursor <= |needle|
      invariant i > 0 ==> cursor < |needle|
      invariant IsSubsequence(needle, haystack) <==> IsSubsequence(needle[cursor..], haystack[i..])
    {
      var rest, tail := needle[cursor..], haystack[i..];
      if rest != "" {
        GreedyStep(rest, tail);
        assert rest[1..] == needle[cursor + 1..];
      }
      assert tail[1..] == haystack[i + 1..];
      if cursor < |needle| && haystack[i] == needle[cursor] {
        cursor := cursor + 1;
      }
      i := i + 1;
      if cursor == |needle| {
        assert needle[cursor..] == "";
        return true;
      }
    }
    return false;
  }

  // ---------------------------------------------------------------- the best results

  /** Higher scores first; equal scores by path. */
  predicate Before(a: FileSearchResult, b: FileSearchResult) {
    if a.score == b.score then StringLess(a.path, b.path) else a.score > b.score
  }

  lemma BeforeIsOrder()
    ensures IsStrictOrder(Before)
  {
    StringOrder();
  }

  function Take<T>(s: seq<T>, n: nat): seq<T> {
    s[..Min(n, |s|)]
  }

  /** Keeping only the best `n` before an insertion does not change the best `n` after it. */
  lemma {:induction false} TakeInsert<T>(x: T, s: seq<T>, n: nat, less: (T, T) -> bool)
    ensures Take(Insert(x, s, less), n) == Take(Insert(x, Take(s, n), less), n)
  {
    if n == 0 || |s| == 0 {
      assert Take(s, n) == if n == 0 then [] else s;
    } else if !less(x, s[0]) {
      TakeInsert(x, s[1..], n - 1, less);
      var kept := Take(s, n);
      assert kept[0] == s[0] && kept[1..] == Take(s[1..], n - 1);
      TakeCons(s[0], Insert(x, s[1..], less), n);
      TakeCons(s[0], Insert(x, kept[1..], less), n);
    }
  }

  lemma TakeCons<T>(x: T, s: seq<T>, n: nat)
    requires n > 0
    ensures Take([x] + s, n) == [x] + Take(s, n - 1)
  {}

  /** The score of a file is that of its path in lower case. */
  function FileScore(path: string, terms: seq<string>): int {
    if terms == [] then 1 else Score(LowerAscii(path), terms)
  }

  /** What one file contributes: nothing unless its score is positive. */
  function Scored(path: string, terms: seq<string>): seq<FileSearchResult> {
    var score := FileScore(path, terms);
    if score <= 0 then [] else [FileSearchResult(path, score)]
  }

  function AllScored(paths: seq<string>, terms: seq<string>): seq<FileSearchResult> {
    if paths == [] then [] else AllScored(paths[..|paths| - 1], terms) + Scored(paths[|paths| - 1], terms)
  }

  lemma ScoredOneMore(paths: seq<string>, terms: seq<string>, i: nat)
    requires i < |paths|
    ensures AllScored(paths[..i + 1], terms) == AllScored(paths[..i], terms) + Scored(paths[i], terms)
  {
    hide Scored;
    assert paths[..i + 1][..i] == paths[..i];
  }

  lemma {:induction false} ScoredPaths(paths: seq<string>, terms: seq<string>)
    requires Distinct(paths)
    ensures forall r | r in AllScored(paths, terms) :: r.path in paths
    ensures Distinct(AllScored(paths, terms))
  {
    if paths != [] {
      var front, last := paths[..|paths| - 1], paths[|paths| - 1];
      ScoredPaths(front, terms);
      assert last !in front;
    }
  }

  /**
   The search keeps a sorted, truncated list while it goes through the files. At the end it holds
   the first `limit` results of the full ranking.
   */
  method SearchFiles(paths: seq<string>, terms: seq<string>, limit: int) returns (results: seq<FileSearchResult>)
    requires Distinct(paths)
    ensures results == Take(Insertions(AllScored(paths, terms), Before), if limit <= 0 then 40 else limit)
  {
    hide AllScored, Score, Insertions, Before, Take;
    var bound: nat := if limit <= 0 then 40 else limit;
    results := [];
    NothingRanked(terms, bound);
    var i := 0;
    while i < |paths|
      invariant 0 <= i <= |paths|
      invariant results == Take(Insertions(AllScored(paths[..i], terms), Before), bound)
    {
      ghost var all := AllScored(paths[..i], terms);
      ScoredOneMore(paths, terms, i);
      NextIsNew(paths, terms, i);
      var path := paths[i];
      i := i + 1;
      var score := 1;
      if |terms| > 0 {
        score := FileSearchScore(LowerAscii(path), terms);
        if score <= 0 {
          assert all + [] == all;
          continue;
        }
      }
      results := AppendSortTruncate(results, FileSearchResult(path, score), all, bound);
    }
    assert paths[..i] == paths;
  }

  lemma NothingRanked(terms: seq<string>, n: nat)
    ensures Take(Insertions(AllScored([], terms), Before), n) == []
  {}

  lemma NextIsNew(paths: seq<string>, terms: seq<string>, i: nat)
    requires Distinct(paths) && i < |paths|
    ensures Distinct(AllScored(paths[..i], terms))
    ensures forall r | r in AllScored(paths[..i], terms) :: r.path != paths[i]
  {
    ScoredPaths(paths[..i], terms);
  }

  /** The body of the loop: append, sort the whole list, cut it. */
  method AppendSortTruncate(kept: seq<FileSearchResult>, x: FileSearchResult, ghost all: seq<FileSearchResult>, bound: nat)
    returns (results: seq<FileSearchResult>)
    requires Distinct(all) && x !in all && kept == Take(Insertions(all, Before), bound)
    ensures results == Take(Insertions(all + [x], Before), bound)
  {
    BeforeIsOrder();
    InsertionsSort(all, Before);
    ghost var ranking := Insertions(all, Before);
    assert x !in ranking;
    assert Sorted(kept, Before) && x !in kept;
    SortedIsDistinct(kept);
    results := Sort(kept + [x], Before);
    InsertSorts(x, kept, Before);
    InsertMembers(x, kept, Before);
    SortedIsUnique(results, Insert(x, kept, Before), Before);
    TakeInsert(x, ranking, bound, Before);
    assert (all + [x])[..|all|] == all;
    results := Take(results, bound);
  }

  lemma SortedIsDistinct(s: seq<FileSearchResult>)
    requires Sorted(s, Before)
    ensures Distinct(s)
  {
    BeforeIsOrder();
  }

  /** The ranking that `SearchFiles` cuts: sorted, and made of exactly the positively scored files. */
  lemma RankingMeans(paths: seq<string>, terms: seq<string>)
    requires Distinct(paths)
    ensures var ranking := Insertions(AllScored(paths, terms), Before);
            && (forall i, j | 0 <= i < j < |ranking| ::
                 ranking[i].score > ranking[j].score
                 || (ranking[i].score == ranking[j].score && StringLess(ranking[i].path, ranking[j].path)))
            && forall r: FileSearchResult ::
                 r in ranking <==>
                 r.path in paths && r.score > 0 && r.score == if terms == [] then 1 else Score(LowerAscii(r.path), terms)
  {
    BeforeIsOrder();
    ScoredPaths(paths, terms);
    InsertionsSort(AllScored(paths, terms), Before);
    AllScoredMeans(paths, terms);
  }

  /** Without a term the ranking holds all files, in the order of their paths. */
  lemma NoTermsRankAll(paths: seq<string>)
    requires Distinct(paths)
    ensures var ranking := Insertions(AllScored(paths, []), Before);
            && (forall i, j | 0 <= i < j < |ranking| :: StringLess(ranking[i].path, ranking[j].path))
            && forall r: FileSearchResult :: r in ranking <==> r.path in paths && r.score == 1
  {
    RankingMeans(paths, []);
    hide Insertions, AllScored, Before, StringLess;
    var ranking := Insertions(AllScored(paths, []), Before);
    assert forall i | 0 <= i < |ranking| :: ranking[i] in ranking && ranking[i].score == 1;
  }

  lemma {:induction false} AllScoredMeans(paths: seq<string>, terms: seq<string>)
    ensures forall r: FileSearchResult ::
      r in AllScored(paths, terms) <==>
      r.path in paths && r.score > 0 && r.score == FileScore(r.path, terms)
  {
    if paths != [] {
      AllScoredMeans(paths[..|paths| - 1], terms);
      assert paths == paths[..|paths| - 1] + [paths[|paths| - 1]];
    }
  }
}
