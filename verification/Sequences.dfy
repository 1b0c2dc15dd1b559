/** Vocabulary shared by the other modules: optional values, subsequences and string helpers. */
module Sequences {

  datatype Option<+T> = None | Some(value: T)

  function Max(a: int, b: int): int {
    if a >= b then a else b
  }

  function Min(a: int, b: int): int {
    if a <= b then a else b
  }

  /** `c` is obtained from `s` by deleting elements and keeping the order of the rest. */
  predicate IsSubsequence<T(==)>(c: seq<T>, s: seq<T>) {
    c == [] || (s != [] && ((c[0] == s[0] && IsSubsequence(c[1..], s[1..])) || IsSubsequence(c, s[1..])))
  }

  lemma {:induction false} SubsequenceTail<T>(c: seq<T>, s: seq<T>)
    requires c != [] && IsSubsequence(c, s)
    ensures s != [] && IsSubsequence(c[1..], s[1..])
    decreases s
  {
    if c[0] != s[0] || !IsSubsequence(c[1..], s[1..]) {
      SubsequenceTail(c, s[1..]);
      SubsequencePrepend(c[1..], s[1..][1..], s[1]);
      assert s[1..] == [s[1]] + s[1..][1..];
    }
  }

  lemma SubsequencePrepend<T>(c: seq<T>, s: seq<T>, x: T)
    requires IsSubsequence(c, s)
    ensures IsSubsequence(c, [x] + s)
  {
    assert ([x] + s)[1..] == s;
  }

  lemma {:induction false} SubsequenceReflexive<T>(s: seq<T>)
    ensures IsSubsequence(s, s)
  {
    if s != [] {
      SubsequenceReflexive(s[1..]);
    }
  }

  lemma {:induction false} SubsequenceConcat<T>(c: seq<T>, s: seq<T>, d: seq<T>, t: seq<T>)
    requires IsSubsequence(c, s) && IsSubsequence(d, t)
    ensures IsSubsequence(c + d, s + t)
    decreases s
  {
    if s == [] {
      assert c + d == d && s + t == t;
    } else if c != [] && c[0] == s[0] && IsSubsequence(c[1..], s[1..]) {
      SubsequenceConcat(c[1..], s[1..], d, t);
      assert (c + d)[1..] == c[1..] + d && (s + t)[1..] == s[1..] + t;
    } else {
      SubsequenceConcat(c, s[1..], d, t);
      assert s + t == [s[0]] + (s[1..] + t);
      SubsequencePrepend(c + d, s[1..] + t, s[0]);
    }
  }

  /** The elements of `s` that satisfy `p`, in order. */
  function Filter<T>(s: seq<T>, p: T -> bool): seq<T> {
    if s == [] then [] else if p(s[0]) then [s[0]] + Filter(s[1..], p) else Filter(s[1..], p)
  }

  lemma {:induction false} FilterConcat<T>(s: seq<T>, t: seq<T>, p: T -> bool)
    ensures Filter(s + t, p) == Filter(s, p) + Filter(t, p)
  {
    if s == [] {
      assert s + t == t;
    } else {
      FilterConcat(s[1..], t, p);
      assert (s + t)[1..] == s[1..] + t;
      if p(s[0]) {
        ConcatAssociative([s[0]], Filter(s[1..], p), Filter(t, p));
      }
    }
  }

  lemma FilterNothing<T>(p: T -> bool)
    ensures Filter([], p) == []
  {}

  lemma {:induction false} FilterNone<T>(s: seq<T>, p: T -> bool)
    requires forall x | x in s :: !p(x)
    ensures Filter(s, p) == []
  {
    if s != [] {
      assert s[0] in s;
      FilterNone(s[1..], p);
    }
  }

  /** One more element through the filter. */
  lemma FilterOneMore<T>(s: seq<T>, i: nat, p: T -> bool)
    requires i < |s|
    ensures Filter(s[..i + 1], p) == Filter(s[..i], p) + if p(s[i]) then [s[i]] else []
  {
    assert s[..i + 1] == s[..i] + [s[i]];
    FilterConcat(s[..i], [s[i]], p);
    assert [s[i]][1..] == [];
  }

  lemma {:induction false} FilterMembers<T>(s: seq<T>, p: T -> bool)
    ensures |Filter(s, p)| <= |s|
    ensures forall x | x in Filter(s, p) :: x in s && p(x)
    ensures forall x | x in s && p(x) :: x in Filter(s, p)
  {
    if s != [] {
      FilterMembers(s[1..], p);
    }
  }

  lemma {:induction false} FilterSwaps<T>(s: seq<T>, p: T -> bool, q: T -> bool)
    ensures Filter(Filter(s, p), q) == Filter(Filter(s, q), p)
  {
    if s != [] {
      var x, rest := s[0], s[1..];
      FilterSwaps(rest, p, q);
      FilterCons(x, Filter(rest, p), q);
      FilterCons(x, Filter(rest, q), p);
    }
  }

  lemma FilterCons<T>(x: T, s: seq<T>, p: T -> bool)
    ensures Filter([x] + s, p) == if p(x) then [x] + Filter(s, p) else Filter(s, p)
  {
    assert ([x] + s)[1..] == s;
  }

  /** A filter that keeps all that a second one wants does not change what the second one finds. */
  lemma {:induction false} FilterWithin<T>(s: seq<T>, p: T -> bool, q: T -> bool)
    requires forall x | x in s && q(x) :: p(x)
    ensures Filter(Filter(s, p), q) == Filter(s, q)
  {
    if s != [] {
      FilterWithin(s[1..], p, q);
      FilterCons(s[0], Filter(s[1..], p), q);
    }
  }

  /** The concatenation of the images of the elements of `s`. */
  function FlatMap<T, U>(s: seq<T>, f: T -> seq<U>): seq<U> {
    if s == [] then [] else f(s[0]) + FlatMap(s[1..], f)
  }

  lemma {:induction false} FlatMapConcat<T, U>(s: seq<T>, t: seq<T>, f: T -> seq<U>)
    ensures FlatMap(s + t, f) == FlatMap(s, f) + FlatMap(t, f)
  {
    if s == [] {
      assert s + t == t;
    } else {
      assert (s + t)[1..] == s[1..] + t;
      FlatMapConcat(s[1..], t, f);
      ConcatAssociative(f(s[0]), FlatMap(s[1..], f), FlatMap(t, f));
    }
  }

  lemma {:induction false} FlatMapEmpty<T, U>(s: seq<T>, f: T -> seq<U>)
    requires forall x | x in s :: f(x) == []
    ensures FlatMap(s, f) == []
  {
    if s != [] {
      FlatMapEmpty(s[1..], f);
    }
  }

  lemma FlatMapCons<T, U>(x: T, s: seq<T>, f: T -> seq<U>)
    ensures FlatMap([x] + s, f) == f(x) + FlatMap(s, f)
  {
    assert ([x] + s)[1..] == s;
  }

  lemma FlatMapSingle<T, U>(x: T, f: T -> seq<U>)
    ensures FlatMap([x], f) == f(x)
  {
    assert [x][1..] == [];
  }

  /** The outputs of a machine that reads `xs` from state `s`. */
  function ScanOut<T, S, U>(xs: seq<T>, s: S, step: (S, T) -> (U, S)): (r: seq<U>)
    ensures |r| == |xs|
    decreases xs
  {
    if xs == [] then [] else [step(s, xs[0]).0] + ScanOut(xs[1..], step(s, xs[0]).1, step)
  }

  /** The state of that machine after `xs`. */
  function ScanState<T, S, U>(xs: seq<T>, s: S, step: (S, T) -> (U, S)): S
    decreases xs
  {
    if xs == [] then s else ScanState(xs[1..], step(s, xs[0]).1, step)
  }

  lemma {:induction false} ScanAppend<T, S, U>(xs: seq<T>, x: T, s: S, step: (S, T) -> (U, S))
    ensures ScanOut(xs + [x], s, step) == ScanOut(xs, s, step) + [step(ScanState(xs, s, step), x).0]
    ensures ScanState(xs + [x], s, step) == step(ScanState(xs, s, step), x).1
    decreases xs
  {
    if xs == [] {
      assert xs + [x] == [x] && [x][1..] == [];
    } else {
      assert (xs + [x])[1..] == xs[1..] + [x];
      ScanAppend(xs[1..], x, step(s, xs[0]).1, step);
    }
  }

  lemma ConcatAssociative<T>(a: seq<T>, b: seq<T>, c: seq<T>)
    ensures a + b + c == a + (b + c)
  {}

  predicate StartsWith(s: string, prefix: string) {
    |prefix| <= |s| && s[..|prefix|] == prefix
  }

  function LowerAsciiChar(c: char): char {
    if 'A' <= c <= 'Z' then ((c as int + 32) as char) else c
  }

  function LowerAscii(s: string): (r: string)
    ensures |r| == |s|
    ensures forall i | 0 <= i < |s| :: r[i] == LowerAsciiChar(s[i])
  {
    seq(|s|, i requires 0 <= i < |s| => LowerAsciiChar(s[i]))
  }

  const CAPITALS := "ABCDEFGHIJKLMNOPQRSTUVWXYZ"
  const SMALL_LETTERS := "abcdefghijklmnopqrstuvwxyz"

  /** The capital letters become the small ones, in order, and nothing else changes. */
  lemma LowerAsciiMeans(s: string)
    ensures LowerAscii(CAPITALS) == SMALL_LETTERS
    ensures (forall c | c in s :: c !in CAPITALS) ==> LowerAscii(s) == s
  {
    forall i | 0 <= i < |s| && LowerAsciiChar(s[i]) != s[i]
      ensures s[i] in CAPITALS
    {
      assert CAPITALS[s[i] as int - 65] == s[i];
    }
    assert LowerAscii(CAPITALS) == SMALL_LETTERS;
  }

  /** The least offset from `start` on at which `pattern` occurs in `s`. */
  function FindFrom(s: string, pattern: string, start: nat): (r: Option<nat>)
    requires start <= |s|
    ensures r.Some? ==> start <= r.value <= |s| && StartsWith(s[r.value..], pattern)
    ensures r.Some? ==> forall i | start <= i < r.value :: !StartsWith(s[i..], pattern)
    ensures r.None? ==> forall i | start <= i <= |s| :: !StartsWith(s[i..], pattern)
    decreases |s| - start
  {
    if StartsWith(s[start..], pattern) then Some(start)
    else if start == |s| then None
    else FindFrom(s, pattern, start + 1)
  }
}
