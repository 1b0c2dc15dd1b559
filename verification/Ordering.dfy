/** Strict total orders, strictly sorted sequences, and the order of strings. */
module Ordering {

  ghost predicate IsStrictOrder<T(!new)>(less: (T, T) -> bool) {
    && (forall x :: !less(x, x))
    && (forall x, y, z | less(x, y) && less(y, z) :: less(x, z))
    && (forall x, y | x != y :: less(x, y) || less(y, x))
  }

  predicate Sorted<T>(s: seq<T>, less: (T, T) -> bool) {
    forall i, j | 0 <= i < j < |s| :: less(s[i], s[j])
  }

  predicate SameElements<T(==)>(s: seq<T>, t: seq<T>) {
    (forall x | x in s :: x in t) && (forall x | x in t :: x in s)
  }

  /** Sorting a collection of distinct values has one result. */
  lemma {:induction false} SortedIsUnique<T(!new)>(s: seq<T>, t: seq<T>, less: (T, T) -> bool)
    requires IsStrictOrder(less) && Sorted(s, less) && Sorted(t, less) && SameElements(s, t)
    ensures s == t
    decreases s
  {
    assert t != [] ==> t[0] in s;
    if s != [] {
      assert s[0] in t;
      var k :| 0 <= k < |t| && t[k] == s[0];
      var l :| 0 <= l < |s| && s[l] == t[0];
      assert s[0] == t[0];
      forall x | x in s[1..]
        ensures x in t[1..]
      {
        TailMember(s, t, x, less);
      }
      forall x | x in t[1..]
        ensures x in s[1..]
      {
        TailMember(t, s, x, less);
      }
      SortedIsUnique(s[1..], t[1..], less);
    }
  }

  lemma TailMember<T(!new)>(s: seq<T>, t: seq<T>, x: T, less: (T, T) -> bool)
    requires IsStrictOrder(less) && Sorted(s, less) && s != [] && t != [] && s[0] == t[0]
    requires x in s[1..] && x in t
    ensures x in t[1..]
  {
    var i :| 0 <= i < |s[1..]| && s[1..][i] == x;
    assert less(s[0], s[i + 1]);
    var j :| 0 <= j < |t| && t[j] == x;
    assert j > 0 && t[1..][j - 1] == x;
  }

  /** `x` put into its place in a sorted sequence. */
  function Insert<T>(x: T, s: seq<T>, less: (T, T) -> bool): (r: seq<T>)
    ensures |r| == |s| + 1
  {
    if s == [] || less(x, s[0]) then [x] + s else [s[0]] + Insert(x, s[1..], less)
  }

  lemma {:induction false} InsertMembers<T>(x: T, s: seq<T>, less: (T, T) -> bool)
    ensures SameElements(Insert(x, s, less), s + [x])
  {
    if s != [] && !less(x, s[0]) {
      InsertMembers(x, s[1..], less);
      assert s == [s[0]] + s[1..];
    }
  }

  lemma {:induction false} InsertSorts<T(!new)>(x: T, s: seq<T>, less: (T, T) -> bool)
    requires IsStrictOrder(less) && Sorted(s, less) && x !in s
    ensures Sorted(Insert(x, s, less), less)
  {
    if s == [] {
    } else if less(x, s[0]) {
      forall j | 0 <= j < |s|
        ensures less(x, s[j])
      {
        if j > 0 {
          assert less(s[0], s[j]);
        }
      }
    } else {
      var rest := s[1..];
      InsertSorts(x, rest, less);
      InsertMembers(x, rest, less);
      var r := Insert(x, rest, less);
      forall j | 0 <= j < |r|
        ensures less(s[0], r[j])
      {
        assert r[j] in rest + [x];
        if r[j] != x {
          var k :| 0 <= k < |rest| && rest[k] == r[j];
          assert less(s[0], s[k + 1]);
        }
      }
    }
  }

  function Insertions<T>(s: seq<T>, less: (T, T) -> bool): (r: seq<T>)
    ensures |r| == |s|
  {
    if s == [] then [] else Insert(s[|s| - 1], Insertions(s[..|s| - 1], less), less)
  }

  predicate Distinct<T(==)>(s: seq<T>) {
    forall i, j | 0 <= i < j < |s| :: s[i] != s[j]
  }

  /** Every list of distinct values can be sorted. */
  lemma {:induction false} InsertionsSort<T(!new)>(s: seq<T>, less: (T, T) -> bool)
    requires IsStrictOrder(less) && Distinct(s)
    ensures Sorted(Insertions(s, less), less) && SameElements(Insertions(s, less), s)
  {
    if s != [] {
      var x, front := s[|s| - 1], s[..|s| - 1];
      InsertionsSort(front, less);
      assert x !in front;
      InsertSorts(x, Insertions(front, less), less);
      InsertMembers(x, Insertions(front, less), less);
      assert s == front + [x];
    }
  }

  /** The library sort: any method that returns a sorted sequence of the same distinct values. */
  method Sort<T(!new)>(s: seq<T>, less: (T, T) -> bool) returns (r: seq<T>)
    requires IsStrictOrder(less) && Distinct(s)
    ensures r == Insertions(s, less) && Sorted(r, less) && SameElements(r, s)
  {
    r := [];
    var i := 0;
    while i < |s|
      invariant 0 <= i <= |s|
      invariant r == Insertions(s[..i], less)
    {
      assert s[..i + 1][..i] == s[..i];
      r := Insert(s[i], r, less);
      i := i + 1;
    }
    assert s[..i] == s;
    InsertionsSort(s, less);
  }

  // ---------------------------------------------------------------- strings

  predicate StringLess(a: string, b: string) {
    b != "" && (a == "" || a[0] < b[0] || (a[0] == b[0] && StringLess(a[1..], b[1..])))
  }

  lemma {:induction false} StringLessIrreflexive(a: string)
    ensures !StringLess(a, a)
  {
    if a != "" {
      StringLessIrreflexive(a[1..]);
    }
  }

  lemma {:induction false} StringLessTransitive(a: string, b: string, c: string)
    requires StringLess(a, b) && StringLess(b, c)
    ensures StringLess(a, c)
  {
    if a != "" && a[0] == b[0] == c[0] {
      StringLessTransitive(a[1..], b[1..], c[1..]);
    }
  }

  lemma {:induction false} StringLessTotal(a: string, b: string)
    ensures a == b || StringLess(a, b) || StringLess(b, a)
  {
    if a != "" && b != "" && a[0] == b[0] {
      StringLessTotal(a[1..], b[1..]);
      assert a == [a[0]] + a[1..] && b == [b[0]] + b[1..];
    }
  }

  lemma StringOrder()
    ensures IsStrictOrder(StringLess)
  {
    forall a { StringLessIrreflexive(a); }
    forall a, b, c | StringLess(a, b) && StringLess(b, c)
      ensures StringLess(a, c)
    {
      StringLessTransitive(a, b, c);
    }
    forall a, b
      ensures a == b || StringLess(a, b) || StringLess(b, a)
    {
      StringLessTotal(a, b);
    }
  }

  /** The strings are equal before index `n`, where the first one ends or has the smaller character. */
  predicate DiffersFirstAt(a: string, b: string, n: nat) {
    n <= |a| && n < |b| && (forall i | 0 <= i < n :: a[i] == b[i]) && (n < |a| ==> a[n] < b[n])
  }

  /** The order of strings is that of their first difference. */
  lemma {:induction false} StringLessMeans(a: string, b: string)
    ensures StringLess(a, b) <==> exists n :: DiffersFirstAt(a, b, n)
  {
    if b != "" && a != "" && a[0] == b[0] {
      StringLessMeans(a[1..], b[1..]);
      if StringLess(a, b) {
        var n :| DiffersFirstAt(a[1..], b[1..], n);
        LaterDifference(a, b, n);
      }
      if exists n :: DiffersFirstAt(a, b, n) {
        var n :| DiffersFirstAt(a, b, n);
        EarlierDifference(a, b, n);
      }
    } else if b != "" && (a == "" || a[0] < b[0]) {
      assert DiffersFirstAt(a, b, 0);
    }
  }

  lemma LaterDifference(a: string, b: string, n: nat)
    requires a != "" && b != "" && a[0] == b[0] && DiffersFirstAt(a[1..], b[1..], n)
    ensures DiffersFirstAt(a, b, n + 1)
  {
    forall i | 0 < i < n + 1
      ensures a[i] == b[i]
    {
      assert a[1..][i - 1] == b[1..][i - 1];
    }
  }

  lemma EarlierDifference(a: string, b: string, n: nat)
    requires a != "" && b != "" && a[0] == b[0] && DiffersFirstAt(a, b, n)
    ensures n > 0 && DiffersFirstAt(a[1..], b[1..], n - 1)
  {}
}
