/**
 The line diff of a change review: a dynamic-programming table of suffix scores, a greedy walk
 over it, and the interleaving of each removed run with the added run that follows it.
 Lines are numbered from 1.
 */
module LineDiff {
  import opened Sequences

  datatype DiffOp =
    | Context(line: string, oldNumber: nat, newNumber: nat)
    | Remove(line: string, oldNumber: nat)
    | Add(line: string, newNumber: nat)

  /** One entry of a diff column: a line and its number in its file. */
  datatype Numbered = Numbered(number: nat, text: string)

  const CELL_LIMIT := 2_000_000
  const UINT16 := 65_536

  // ---------------------------------------------------------------- what an edit script means

  /** The old file as the script shows it: every operation that is not an addition. */
  function OldSide(ops: seq<DiffOp>): seq<Numbered> {
    FlatMap(ops, OldOf)
  }

  function NewSide(ops: seq<DiffOp>): seq<Numbered> {
    FlatMap(ops, NewOf)
  }

  /** The lines the script keeps. */
  function ContextLines(ops: seq<DiffOp>): seq<string> {
    FlatMap(ops, KeptOf)
  }

  function OldOf(op: DiffOp): seq<Numbered> {
    if op.Add? then [] else [Numbered(op.oldNumber, op.line)]
  }

  function NewOf(op: DiffOp): seq<Numbered> {
    if op.Remove? then [] else [Numbered(op.newNumber, op.line)]
  }

  function KeptOf(op: DiffOp): seq<string> {
    if op.Context? then [op.line] else []
  }

  /** The lines of a file, the first one numbered `start`. */
  function NumberFrom(lines: seq<string>, start: nat): (r: seq<Numbered>)
    ensures |r| == |lines|
    ensures forall i :: 0 <= i < |r| ==> r[i] == Numbered(start + i, lines[i])
  {
    seq(|lines|, i requires 0 <= i < |lines| => Numbered(start + i, lines[i]))
  }

  function Texts(side: seq<Numbered>): (r: seq<string>)
    ensures |r| == |side|
    ensures forall i :: 0 <= i < |r| ==> r[i] == side[i].text
  {
    seq(|side|, i requires 0 <= i < |side| => side[i].text)
  }

  lemma SidesConcat(a: seq<DiffOp>, b: seq<DiffOp>)
    ensures OldSide(a + b) == OldSide(a) + OldSide(b)
    ensures NewSide(a + b) == NewSide(a) + NewSide(b)
    ensures ContextLines(a + b) == ContextLines(a) + ContextLines(b)
  {
    FlatMapConcat(a, b, OldOf);
    FlatMapConcat(a, b, NewOf);
    FlatMapConcat(a, b, KeptOf);
  }

  lemma ConsSides(op: DiffOp, rest: seq<DiffOp>)
    ensures OldSide([op] + rest) == OldOf(op) + OldSide(rest)
    ensures NewSide([op] + rest) == NewOf(op) + NewSide(rest)
    ensures ContextLines([op] + rest) == KeptOf(op) + ContextLines(rest)
  {
    FlatMapCons(op, rest, OldOf);
    FlatMapCons(op, rest, NewOf);
    FlatMapCons(op, rest, KeptOf);
  }

  /** Whatever the script, the lines it keeps appear in order on both sides. */
  lemma {:induction false} ContextIsCommon(ops: seq<DiffOp>)
    ensures IsSubsequence(ContextLines(ops), Texts(OldSide(ops)))
    ensures IsSubsequence(ContextLines(ops), Texts(NewSide(ops)))
  {
    if ops != [] {
      var rest := ops[1..];
      ContextIsCommon(rest);
      SubsequenceStep(ContextLines(rest), OldSide(rest), ops[0].line, ops[0].Context?,
                      OldOf(ops[0]));
      SubsequenceStep(ContextLines(rest), NewSide(rest), ops[0].line, ops[0].Context?,
                      NewOf(ops[0]));
    }
  }

  lemma SubsequenceStep(c: seq<string>, side: seq<Numbered>, line: string, kept: bool, head: seq<Numbered>)
    requires IsSubsequence(c, Texts(side))
    requires |head| <= 1 && (head != [] ==> head[0].text == line)
    requires kept ==> head != []
    ensures IsSubsequence((if kept then [line] else []) + c, Texts(head + side))
  {
    var whole := Texts(head + side);
    if head == [] {
      assert head + side == side && [] + c == c;
    } else {
      assert whole == [line] + Texts(side);
      if kept {
        assert ([line] + c)[1..] == c && whole[1..] == Texts(side);
      } else {
        SubsequencePrepend(c, Texts(side), line);
        assert [] + c == c;
      }
    }
  }

  // ---------------------------------------------------------------- the longest common subsequence

  /** The score of the suffixes from `i` and `j`: the recurrence that the table satisfies. */
  function SuffixLcs(before: seq<string>, after: seq<string>, i: nat, j: nat): (r: nat)
    requires i <= |before| && j <= |after|
    ensures r <= |before| - i && r <= |after| - j
    decreases |before| - i + |after| - j
  {
    if i == |before| || j == |after| then 0
    else if before[i] == after[j] then 1 + SuffixLcs(before, after, i + 1, j + 1)
    else Max(SuffixLcs(before, after, i + 1, j), SuffixLcs(before, after, i, j + 1))
  }

  /** No common subsequence of the suffixes is longer than their score. */
  lemma {:induction false} ScoreBoundsCommon(before: seq<string>, after: seq<string>, i: nat, j: nat, c: seq<string>)
    requires i <= |before| && j <= |after|
    requires IsSubsequence(c, before[i..]) && IsSubsequence(c, after[j..])
    ensures |c| <= SuffixLcs(before, after, i, j)
    decreases |before| - i + |after| - j
  {
    if c != [] {
      assert before[i..][1..] == before[i + 1..] && after[j..][1..] == after[j + 1..];
      if before[i] == after[j] {
        SubsequenceTail(c, before[i..]);
        SubsequenceTail(c, after[j..]);
        ScoreBoundsCommon(before, after, i + 1, j + 1, c[1..]);
      } else if c[0] != before[i] {
        ScoreBoundsCommon(before, after, i + 1, j, c);
      } else {
        ScoreBoundsCommon(before, after, i, j + 1, c);
      }
    }
  }

  /** The 2,000,000-cell limit keeps every score at most 1414, so that none reaches 65536. */
  lemma ScoresFitSixteenBits(before: seq<string>, after: seq<string>, i: nat, j: nat)
    requires |before| * |after| <= CELL_LIMIT
    requires i <= |before| && j <= |after|
    ensures SuffixLcs(before, after, i, j) <= 1414 < UINT16
  {
    if |before| >= 1415 && |after| >= 1415 {
      LargeProduct(|before|, |after|);
    }
  }

  lemma LargeProduct(n: nat, m: nat)
    requires n >= 1415 && m >= 1415
    ensures n * m > CELL_LIMIT
  {
    MulMonotone(1415, n, m);
    MulMonotone(1415, m, 1415);
  }

  lemma MulMonotone(a: nat, b: nat, c: nat)
    requires a <= b
    ensures a * c <= b * c
  {}

  // ---------------------------------------------------------------- the table

  /** The offset of a table cell in the flat array. */
  function Offset(columns: nat, i: nat, j: nat): nat {
    i * columns + j
  }

  lemma OffsetInRange(columns: nat, rows: nat, i: nat, j: nat)
    requires i < rows && j < columns
    ensures Offset(columns, i, j) < rows * columns
  {
    MulMonotone(i + 1, rows, columns);
    assert (i + 1) * columns == i * columns + columns;
  }

  lemma OffsetInjective(columns: nat, i: nat, j: nat, k: nat, l: nat)
    requires j < columns && l < columns && (i, j) != (k, l)
    ensures Offset(columns, i, j) != Offset(columns, k, l)
  {
    if i < k {
      MulMonotone(i + 1, k, columns);
      assert (i + 1) * columns == i * columns + columns;
    } else if k < i {
      MulMonotone(k + 1, i, columns);
      assert (k + 1) * columns == k * columns + columns;
    }
  }

  /** Cell (k, l) has already been visited when the loops stand at row `i`, column `j`. */
  predicate Visited(i: int, j: int, k: int, l: int) {
    k > i || (k == i && l > j)
  }

  /** The cells visited so far hold suffix scores; the last row and column are zero. */
  ghost predicate Filled(t: seq<int>, before: seq<string>, after: seq<string>, i: int, j: int)
  {
    var columns := |after| + 1;
    && |t| == (|before| + 1) * columns
    && forall k: nat, l: nat {:trigger Offset(columns, k, l)}
         | k <= |before| && l <= |after| && (k == |before| || l == |after| || Visited(i, j, k, l)) ::
           Offset(columns, k, l) < |t| && t[Offset(columns, k, l)] == SuffixLcs(before, after, k, l)
  }

  /** Writing the score of cell (i, j) extends the visited part by that cell. */
  lemma FillStep(t: seq<int>, before: seq<string>, after: seq<string>, i: nat, j: nat, value: int)
    requires i < |before| && j < |after|
    requires Filled(t, before, after, i, j)
    requires value == SuffixLcs(before, after, i, j)
    ensures Offset(|after| + 1, i, j) < |t|
    ensures Filled(t[Offset(|after| + 1, i, j) := value], before, after, i, j - 1)
  {
    var columns := |after| + 1;
    OffsetInRange(columns, |before| + 1, i, j);
    forall k: nat, l: nat | k <= |before| && l <= |after| && (k, l) != (i, j)
      ensures Offset(columns, k, l) != Offset(columns, i, j)
    {
      OffsetInjective(columns, i, j, k, l);
    }
  }

  method FillTable(before: seq<string>, after: seq<string>) returns (table: array<int>)
    requires |before| * |after| <= CELL_LIMIT
    ensures fresh(table)
    ensures Filled(table[..], before, after, -1, -1)
  {
    var columns := |after| + 1;
    table := new int[(|before| + 1) * columns](_ => 0);
    ZeroTable(table[..], before, after);
    var oldIndex := |before| - 1;
    while oldIndex >= 0
      invariant -1 <= oldIndex < |before|
      invariant Filled(table[..], before, after, oldIndex, |after|)
    {
      var newIndex := |after| - 1;
      NextRow(table[..], before, after, oldIndex);
      while newIndex >= 0
        invariant -1 <= newIndex < |after|
        invariant Filled(table[..], before, after, oldIndex, newIndex)
      {
        FillCell(table, before, after, oldIndex, newIndex);
        newIndex := newIndex - 1;
      }
      PreviousRow(table[..], before, after, oldIndex);
      oldIndex := oldIndex - 1;
    }
  }

  lemma ZeroTable(t: seq<int>, before: seq<string>, after: seq<string>)
    requires |t| == (|before| + 1) * (|after| + 1) && forall k :: 0 <= k < |t| ==> t[k] == 0
    ensures Filled(t, before, after, |before| - 1, |after|)
  {
    forall k: nat, l: nat {:trigger Offset(|after| + 1, k, l)} | k <= |before| && l <= |after|
      ensures Offset(|after| + 1, k, l) < |t|
    {
      OffsetInRange(|after| + 1, |before| + 1, k, l);
    }
  }

  lemma NextRow(t: seq<int>, before: seq<string>, after: seq<string>, i: nat)
    requires Filled(t, before, after, i, |after|)
    ensures Filled(t, before, after, i, |after| - 1)
  {}

  lemma PreviousRow(t: seq<int>, before: seq<string>, after: seq<string>, i: nat)
    requires Filled(t, before, after, i, -1)
    ensures Filled(t, before, after, i - 1, |after|)
  {}

  lemma CellValue(t: seq<int>, before: seq<string>, after: seq<string>, i: int, j: int, k: nat, l: nat)
    requires Filled(t, before, after, i, j)
    requires k <= |before| && l <= |after| && (k == |before| || l == |after| || Visited(i, j, k, l))
    ensures Offset(|after| + 1, k, l) < |t|
    ensures t[Offset(|after| + 1, k, l)] == SuffixLcs(before, after, k, l)
  {}

  method Cell(table: array<int>, before: seq<string>, after: seq<string>, i: nat, j: nat) returns (value: int)
    requires i <= |before| && j <= |after| && Filled(table[..], before, after, -1, -1)
    ensures value == SuffixLcs(before, after, i, j)
  {
    CellValue(table[..], before, after, -1, -1, i, j);
    value := table[Offset(|after| + 1, i, j)];
  }

  /** What the inner loop computes for a cell. A Uint16Array keeps each stored number modulo 65536. */
  function CellOf(t: seq<int>, before: seq<string>, after: seq<string>, i: nat, j: nat): int
    requires i < |before| && j < |after|
    requires Offset(|after| + 1, i + 1, j + 1) < |t| && Offset(|after| + 1, i + 1, j) < |t| && Offset(|after| + 1, i, j + 1) < |t|
  {
    var columns := |after| + 1;
    if before[i] == after[j] then (t[Offset(columns, i + 1, j + 1)] + 1) % UINT16
    else Max(t[Offset(columns, i + 1, j)], t[Offset(columns, i, j + 1)]) % UINT16
  }

  lemma CellIsScore(t: seq<int>, before: seq<string>, after: seq<string>, i: nat, j: nat)
    requires |before| * |after| <= CELL_LIMIT && i < |before| && j < |after| && Filled(t, before, after, i, j)
    ensures Offset(|after| + 1, i + 1, j + 1) < |t| && Offset(|after| + 1, i + 1, j) < |t| && Offset(|after| + 1, i, j + 1) < |t|
    ensures CellOf(t, before, after, i, j) == SuffixLcs(before, after, i, j)
  {
    hide Filled, Offset;
    ScoresFitSixteenBits(before, after, i, j);
    CellValue(t, before, after, i, j, i + 1, j + 1);
    CellValue(t, before, after, i, j, i + 1, j);
    CellValue(t, before, after, i, j, i, j + 1);
  }

  /** One assignment of the inner loop. */
  method FillCell(table: array<int>, before: seq<string>, after: seq<string>, oldIndex: nat, newIndex: nat)
    requires |before| * |after| <= CELL_LIMIT && oldIndex < |before| && newIndex < |after|
    requires Filled(table[..], before, after, oldIndex, newIndex)
    modifies table
    ensures Filled(table[..], before, after, oldIndex, newIndex - 1)
  {
    hide Filled, SuffixLcs, Offset;
    var columns := |after| + 1;
    ghost var prior := table[..];
    var offset := Offset(columns, oldIndex, newIndex);
    FillStep(prior, before, after, oldIndex, newIndex, SuffixLcs(before, after, oldIndex, newIndex));
    CellIsScore(prior, before, after, oldIndex, newIndex);
    if before[oldIndex] == after[newIndex] {
      table[offset] := (table[Offset(columns, oldIndex + 1, newIndex + 1)] + 1) % UINT16;
    } else {
      table[offset] :=
        Max(table[Offset(columns, oldIndex + 1, newIndex)], table[Offset(columns, oldIndex, newIndex + 1)]) % UINT16;
    }
    assert table[..] == prior[offset := CellOf(prior, before, after, oldIndex, newIndex)];
  }

  // ---------------------------------------------------------------- the walk

  function RemoveAll(before: seq<string>, i: nat): (r: seq<DiffOp>)
    requires i <= |before|
    ensures |r| == |before| - i
    decreases |before| - i
  {
    if i == |before| then [] else [Remove(before[i], i + 1)] + RemoveAll(before, i + 1)
  }

  function AddAll(after: seq<string>, j: nat): (r: seq<DiffOp>)
    requires j <= |after|
    ensures |r| == |after| - j
    decreases |after| - j
  {
    if j == |after| then [] else [Add(after[j], j + 1)] + AddAll(after, j + 1)
  }

  /** The walk from (i, j): keep equal lines, otherwise go where the score is larger, old side first. */
  function Walk(before: seq<string>, after: seq<string>, i: nat, j: nat): seq<DiffOp>
    requires i <= |before| && j <= |after|
    decreases |before| - i + |after| - j
  {
    if i == |before| || j == |after| then RemoveAll(before, i) + AddAll(after, j)
    else if before[i] == after[j] then [Context(before[i], i + 1, j + 1)] + Walk(before, after, i + 1, j + 1)
    else if SuffixLcs(before, after, i + 1, j) >= SuffixLcs(before, after, i, j + 1) then
      [Remove(before[i], i + 1)] + Walk(before, after, i + 1, j)
    else
      [Add(after[j], j + 1)] + Walk(before, after, i, j + 1)
  }

  lemma {:induction false} RemoveAllSides(before: seq<string>, i: nat)
    requires i <= |before|
    ensures OldSide(RemoveAll(before, i)) == NumberFrom(before[i..], i + 1)
    ensures NewSide(RemoveAll(before, i)) == [] && ContextLines(RemoveAll(before, i)) == []
    decreases |before| - i
  {
    if i < |before| {
      RemoveAllSides(before, i + 1);
      NumberFromHead(before, i);
    }
  }

  lemma {:induction false} AddAllSides(after: seq<string>, j: nat)
    requires j <= |after|
    ensures NewSide(AddAll(after, j)) == NumberFrom(after[j..], j + 1)
    ensures OldSide(AddAll(after, j)) == [] && ContextLines(AddAll(after, j)) == []
    decreases |after| - j
  {
    if j < |after| {
      AddAllSides(after, j + 1);
      NumberFromHead(after, j);
    }
  }

  lemma NumberFromHead(lines: seq<string>, i: nat)
    requires i < |lines|
    ensures NumberFrom(lines[i..], i + 1) == [Numbered(i + 1, lines[i])] + NumberFrom(lines[i + 1..], i + 2)
  {}

  /** The walk shows both files completely, and keeps exactly as many lines as the score says. */
  lemma {:induction false} WalkSides(before: seq<string>, after: seq<string>, i: nat, j: nat)
    requires i <= |before| && j <= |after|
    ensures OldSide(Walk(before, after, i, j)) == NumberFrom(before[i..], i + 1)
    ensures NewSide(Walk(before, after, i, j)) == NumberFrom(after[j..], j + 1)
    ensures |ContextLines(Walk(before, after, i, j))| == SuffixLcs(before, after, i, j)
    decreases |before| - i + |after| - j
  {
    if i == |before| || j == |after| {
      SidesConcat(RemoveAll(before, i), AddAll(after, j));
      RemoveAllSides(before, i);
      AddAllSides(after, j);
    } else {
      if before[i] == after[j] {
        WalkSides(before, after, i + 1, j + 1);
        ConsSides(Context(before[i], i + 1, j + 1), Walk(before, after, i + 1, j + 1));
        NumberFromHead(before, i);
        NumberFromHead(after, j);
      } else if SuffixLcs(before, after, i + 1, j) >= SuffixLcs(before, after, i, j + 1) {
        WalkSides(before, after, i + 1, j);
        ConsSides(Remove(before[i], i + 1), Walk(before, after, i + 1, j));
        NumberFromHead(before, i);
      } else {
        WalkSides(before, after, i, j + 1);
        ConsSides(Add(after[j], j + 1), Walk(before, after, i, j + 1));
        NumberFromHead(after, j);
      }
    }
  }

  // ---------------------------------------------------------------- interleaving

  function LeadingRemoves(ops: seq<DiffOp>): (n: nat)
    ensures n <= |ops|
    ensures forall k :: 0 <= k < n ==> ops[k].Remove?
    ensures n < |ops| ==> !ops[n].Remove?
  {
    if ops != [] && ops[0].Remove? then 1 + LeadingRemoves(ops[1..]) else 0
  }

  function LeadingAdds(ops: seq<DiffOp>): (n: nat)
    ensures n <= |ops|
    ensures forall k :: 0 <= k < n ==> ops[k].Add?
    ensures n < |ops| ==> !ops[n].Add?
  {
    if ops != [] && ops[0].Add? then 1 + LeadingAdds(ops[1..]) else 0
  }

  /** Two runs dealt out alternately from rank `k`, the removed one first; the longer one ends alone. */
  function Dealt<T>(removed: seq<T>, added: seq<T>, k: nat): seq<T>
    decreases Max(|removed|, |added|) - k
  {
    if k >= Max(|removed|, |added|) then [] else Pair(removed, added, k) + Dealt(removed, added, k + 1)
  }

  function Pair<T>(removed: seq<T>, added: seq<T>, k: nat): seq<T> {
    (if k < |removed| then [removed[k]] else []) + (if k < |added| then [added[k]] else [])
  }

  /** The script with each removed run dealt out against the added run that follows it. */
  function Interleaved(ops: seq<DiffOp>): seq<DiffOp>
    decreases |ops|
  {
    if ops == [] then []
    else if !ops[0].Remove? then [ops[0]] + Interleaved(ops[1..])
    else
      var r := LeadingRemoves(ops);
      var a := LeadingAdds(ops[r..]);
      Dealt(ops[..r], ops[r..r + a], 0) + Interleaved(ops[r + a..])
  }

  /** A view blind to the added run sees the removed run in its own order. */
  lemma {:induction false} DealtHidesAdded<T, U>(removed: seq<T>, added: seq<T>, k: nat, f: T -> seq<U>)
    requires forall x | x in added :: f(x) == []
    ensures FlatMap(Dealt(removed, added, k), f) == FlatMap(removed[Min(k, |removed|)..], f)
    decreases Max(|removed|, |added|) - k
  {
    hide FlatMap;
    if k < Max(|removed|, |added|) {
      DealtHidesAdded(removed, added, k + 1, f);
      var pair, rest := Pair(removed, added, k), Dealt(removed, added, k + 1);
      FlatMapConcat(pair, rest, f);
      PairView(removed, added, k, f);
      if k < |removed| {
        FlatMapCons(removed[k], removed[k + 1..], f);
        assert removed[k..] == [removed[k]] + removed[k + 1..];
      }
    } else {
      assert removed[Min(k, |removed|)..] == [];
    }
  }

  /** A view blind to the removed run sees the added run in its own order. */
  lemma {:induction false} DealtHidesRemoved<T, U>(removed: seq<T>, added: seq<T>, k: nat, f: T -> seq<U>)
    requires forall x | x in removed :: f(x) == []
    ensures FlatMap(Dealt(removed, added, k), f) == FlatMap(added[Min(k, |added|)..], f)
    decreases Max(|removed|, |added|) - k
  {
    if k < Max(|removed|, |added|) {
      DealtHidesRemoved(removed, added, k + 1, f);
      var pair, rest := Pair(removed, added, k), Dealt(removed, added, k + 1);
      FlatMapConcat(pair, rest, f);
      PairView(removed, added, k, f);
      if k < |added| {
        assert added[k..][1..] == added[k + 1..];
      }
    }
  }

  lemma PairView<T, U>(removed: seq<T>, added: seq<T>, k: nat, f: T -> seq<U>)
    ensures FlatMap(Pair(removed, added, k), f)
         == (if k < |removed| then f(removed[k]) else []) + (if k < |added| then f(added[k]) else [])
  {
    var r := if k < |removed| then [removed[k]] else [];
    var a := if k < |added| then [added[k]] else [];
    FlatMapConcat(r, a, f);
    if k < |removed| { FlatMapSingle(removed[k], f); }
    if k < |added| { FlatMapSingle(added[k], f); }
  }

  predicate Blind<U(==)>(f: DiffOp -> seq<U>, removed: seq<DiffOp>, added: seq<DiffOp>) {
    (forall x | x in added :: f(x) == []) || (forall x | x in removed :: f(x) == [])
  }

  lemma DealtView<U>(removed: seq<DiffOp>, added: seq<DiffOp>, f: DiffOp -> seq<U>)
    requires Blind(f, removed, added)
    ensures FlatMap(Dealt(removed, added, 0), f) == FlatMap(removed + added, f)
  {
    assert removed[0..] == removed && added[0..] == added;
    FlatMapConcat(removed, added, f);
    if forall x | x in added :: f(x) == [] {
      DealtHidesAdded(removed, added, 0, f);
      FlatMapEmpty(added, f);
    } else {
      DealtHidesRemoved(removed, added, 0, f);
      FlatMapEmpty(removed, f);
    }
  }

  /** Interleaving moves operations only across the other side: a view blind to one side is kept. */
  lemma {:induction false} InterleavedView<U>(ops: seq<DiffOp>, f: DiffOp -> seq<U>)
    requires (forall op: DiffOp | op.Add? :: f(op) == []) || (forall op: DiffOp | op.Remove? :: f(op) == [])
    ensures FlatMap(Interleaved(ops), f) == FlatMap(ops, f)
    decreases |ops|
  {
    if ops != [] {
      if !ops[0].Remove? {
        InterleavedView(ops[1..], f);
        FlatMapCons(ops[0], Interleaved(ops[1..]), f);
      } else {
        var removed, added, rest := FirstRuns(ops);
        InterleavedView(rest, f);
        FlatMapConcat(removed + added, rest, f);
        DealtView(removed, added, f);
        FlatMapConcat(Dealt(removed, added, 0), Interleaved(rest), f);
      }
    }
  }

  lemma FirstRuns(ops: seq<DiffOp>) returns (removed: seq<DiffOp>, added: seq<DiffOp>, rest: seq<DiffOp>)
    requires ops != [] && ops[0].Remove?
    ensures ops == removed + added + rest && |rest| < |ops|
    ensures forall x | x in removed :: x.Remove?
    ensures forall x | x in added :: x.Add?
    ensures Interleaved(ops) == Dealt(removed, added, 0) + Interleaved(rest)
  {
    var r := LeadingRemoves(ops);
    var a := LeadingAdds(ops[r..]);
    removed, added, rest := ops[..r], ops[r..r + a], ops[r + a..];
    assert forall i :: 0 <= i < a ==> added[i] == ops[r..][i];
  }

  lemma InterleavedSides(ops: seq<DiffOp>)
    ensures OldSide(Interleaved(ops)) == OldSide(ops)
    ensures NewSide(Interleaved(ops)) == NewSide(ops)
    ensures ContextLines(Interleaved(ops)) == ContextLines(ops)
  {
    InterleavedView(ops, OldOf);
    InterleavedView(ops, NewOf);
    InterleavedView(ops, KeptOf);
  }

  method InterleaveReplacementRuns(ops: seq<DiffOp>) returns (output: seq<DiffOp>)
    ensures output == Interleaved(ops)
  {
    output := [];
    var index := 0;
    while index < |ops|
      invariant 0 <= index <= |ops|
      invariant output + Interleaved(ops[index..]) == Interleaved(ops)
    {
      if !ops[index].Remove? {
        assert ops[index..][1..] == ops[index + 1..];
        output := output + [ops[index]];
        index := index + 1;
        continue;
      }
      ghost var start := index;
      var removed, added;
      removed, added, index := CollectRuns(ops, index);
      InterleavedRuns(ops[start..], removed, added, ops[index..]);
      ConcatAssociative(output, Dealt(removed, added, 0), Interleaved(ops[index..]));
      if |added| == 0 {
        DealtAlone(removed, added, 0);
        output := output + removed;
      } else {
        output := DealOut(output, removed, added);
      }
    }
  }

  /** The maximal removed run at `start` and the maximal added run behind it. */
  method CollectRuns(ops: seq<DiffOp>, start: nat)
    returns (removed: seq<DiffOp>, added: seq<DiffOp>, index: nat)
    requires start < |ops| && ops[start].Remove?
    ensures start < index <= |ops| && ops[start..] == removed + added + ops[index..] && removed != []
    ensures forall i :: 0 <= i < |removed| ==> removed[i].Remove?
    ensures forall i :: 0 <= i < |added| ==> added[i].Add?
    ensures index < |ops| ==> !ops[index].Add? && (added == [] ==> !ops[index].Remove?)
  {
    index := start;
    removed, added := [], [];
    while index < |ops| && ops[index].Remove?
      invariant start <= index <= |ops|
      invariant removed == ops[start..index]
      invariant forall k :: start <= k < index ==> ops[k].Remove?
    {
      removed := removed + [ops[index]];
      index := index + 1;
    }
    ghost var middle := index;
    while index < |ops| && ops[index].Add?
      invariant start < middle <= index <= |ops|
      invariant added == ops[middle..index]
      invariant index == middle < |ops| ==> !ops[index].Remove?
      invariant forall k :: middle <= k < index ==> ops[k].Add?
    {
      added := added + [ops[index]];
      index := index + 1;
    }
  }

  method DealOut(start: seq<DiffOp>, removed: seq<DiffOp>, added: seq<DiffOp>) returns (output: seq<DiffOp>)
    ensures output == start + Dealt(removed, added, 0)
  {
    output := start;
    var maxLength := Max(|removed|, |added|);
    var pairIndex := 0;
    while pairIndex < maxLength
      invariant 0 <= pairIndex <= maxLength
      invariant output + Dealt(removed, added, pairIndex) == start + Dealt(removed, added, 0)
    {
      ConcatAssociative(output, Pair(removed, added, pairIndex), Dealt(removed, added, pairIndex + 1));
      if pairIndex < |removed| { output := output + [removed[pairIndex]]; }
      if pairIndex < |added| { output := output + [added[pairIndex]]; }
      pairIndex := pairIndex + 1;
    }
  }

  /** How the next pair of maximal runs unfolds the interleaving. */
  lemma InterleavedRuns(ops: seq<DiffOp>, removed: seq<DiffOp>, added: seq<DiffOp>, rest: seq<DiffOp>)
    requires ops == removed + added + rest && removed != []
    requires forall i :: 0 <= i < |removed| ==> removed[i].Remove?
    requires forall i :: 0 <= i < |added| ==> added[i].Add?
    requires rest != [] ==> !rest[0].Add? && (added == [] ==> !rest[0].Remove?)
    ensures Interleaved(ops) == Dealt(removed, added, 0) + Interleaved(rest)
  {
    var tail := added + rest;
    assert ops == removed + tail && ops[..|removed|] == removed && ops[|removed|..] == tail;
    RemovesEnd(removed, tail);
    AddsEnd(added, rest);
    assert tail[..|added|] == added && tail[|added|..] == rest;
    assert ops[|removed|..|removed| + |added|] == tail[..|added|];
  }

  lemma RemovesEnd(removed: seq<DiffOp>, tail: seq<DiffOp>)
    requires forall i :: 0 <= i < |removed| ==> removed[i].Remove?
    requires tail != [] ==> !tail[0].Remove?
    ensures LeadingRemoves(removed + tail) == |removed|
  {
    var ops := removed + tail;
    assert forall i :: 0 <= i < |removed| ==> ops[i] == removed[i];
    assert tail != [] ==> ops[|removed|] == tail[0];
  }

  lemma AddsEnd(added: seq<DiffOp>, tail: seq<DiffOp>)
    requires forall i :: 0 <= i < |added| ==> added[i].Add?
    requires tail != [] ==> !tail[0].Add?
    ensures LeadingAdds(added + tail) == |added|
  {
    var ops := added + tail;
    assert forall i :: 0 <= i < |added| ==> ops[i] == added[i];
    assert tail != [] ==> ops[|added|] == tail[0];
  }

  lemma {:induction false} DealtAlone(removed: seq<DiffOp>, added: seq<DiffOp>, k: nat)
    requires added == [] && k <= |removed|
    ensures Dealt(removed, added, k) == removed[k..]
    decreases |removed| - k
  {
    if k < |removed| {
      DealtAlone(removed, added, k + 1);
    }
  }

  lemma {:induction false} DealtBehind<T>(removed: seq<T>, added: seq<T>, k: nat)
    requires Min(|removed|, |added|) <= k
    ensures Dealt(removed, added, k) == removed[Min(k, |removed|)..] + added[Min(k, |added|)..]
    decreases Max(|removed|, |added|) - k
  {
    if k < Max(|removed|, |added|) {
      DealtBehind(removed, added, k + 1);
    }
  }

  /** Elements of each rank side by side from rank `k` on, then what is left of the longer sequence. */
  ghost predicate Alternate<T>(dealt: seq<T>, removed: seq<T>, added: seq<T>, k: nat)
    requires k <= Min(|removed|, |added|)
  {
    var n := Min(|removed|, |added|);
    && |dealt| == |removed| + |added| - 2 * k
    && (forall j | k <= j < n :: dealt[2 * (j - k)] == removed[j] && dealt[2 * (j - k) + 1] == added[j])
    && dealt[2 * (n - k)..] == removed[n..] + added[n..]
  }

  lemma AlternateOneMore<T>(rest: seq<T>, removed: seq<T>, added: seq<T>, k: nat)
    requires k < Min(|removed|, |added|) && Alternate(rest, removed, added, k + 1)
    ensures Alternate([removed[k], added[k]] + rest, removed, added, k)
  {
    var n, dealt := Min(|removed|, |added|), [removed[k], added[k]] + rest;
    forall j | k <= j < n
      ensures dealt[2 * (j - k)] == removed[j] && dealt[2 * (j - k) + 1] == added[j]
    {
      if j > k {
        assert dealt[2 * (j - k)] == rest[2 * (j - (k + 1))] && dealt[2 * (j - k) + 1] == rest[2 * (j - (k + 1)) + 1];
      }
    }
    assert dealt[2 * (n - k)..] == rest[2 * (n - (k + 1))..];
  }

  lemma {:induction false} DealtAlternates<T>(removed: seq<T>, added: seq<T>, k: nat)
    requires k <= Min(|removed|, |added|)
    ensures Alternate(Dealt(removed, added, k), removed, added, k)
    decreases |removed| - k
  {
    if k < Min(|removed|, |added|) {
      DealtAlternates(removed, added, k + 1);
      AlternateOneMore(Dealt(removed, added, k + 1), removed, added, k);
      assert Pair(removed, added, k) == [removed[k], added[k]];
      hide Alternate;
    } else {
      DealtBehind(removed, added, k);
      hide Dealt;
      assert Dealt(removed, added, k)[0..] == Dealt(removed, added, k);
    }
  }

  /**
   A maximal removed run and the added run behind it come out alternately, each in its order and the removed line of a rank first;
   what is left of the longer run follows, then the rest of the script.
   */
  lemma RunsAlternate(removed: seq<DiffOp>, added: seq<DiffOp>, rest: seq<DiffOp>)
    requires removed != [] && (forall x | x in removed :: x.Remove?) && (forall x | x in added :: x.Add?)
    requires rest != [] ==> !rest[0].Add? && (added == [] ==> !rest[0].Remove?)
    ensures |Interleaved(removed + added + rest)| == |removed| + |added| + |Interleaved(rest)|
    ensures var script, n := Interleaved(removed + added + rest), Min(|removed|, |added|);
      && (forall k | 0 <= k < n :: script[2 * k] == removed[k] && script[2 * k + 1] == added[k])
      && script[2 * n..] == removed[n..] + added[n..] + Interleaved(rest)
  {
    hide Interleaved, Dealt, Alternate;
    InterleavedRuns(removed + added + rest, removed, added, rest);
    DealtAlternates(removed, added, 0);
    AlternatesInFront(Dealt(removed, added, 0), removed, added, Interleaved(rest));
  }

  lemma AlternatesInFront<T>(dealt: seq<T>, removed: seq<T>, added: seq<T>, tail: seq<T>)
    requires Alternate(dealt, removed, added, 0)
    ensures |dealt| == |removed| + |added|
    ensures var n := Min(|removed|, |added|);
      && (forall k | 0 <= k < n :: (dealt + tail)[2 * k] == removed[k] && (dealt + tail)[2 * k + 1] == added[k])
      && (dealt + tail)[2 * n..] == removed[n..] + added[n..] + tail
  {
    var n := Min(|removed|, |added|);
    forall k | 0 <= k < n
      ensures (dealt + tail)[2 * k] == removed[k] && (dealt + tail)[2 * k + 1] == added[k]
    {
      assert dealt[2 * (k - 0)] == removed[k] && dealt[2 * (k - 0) + 1] == added[k];
    }
    assert (dealt + tail)[2 * n..] == dealt[2 * (n - 0)..] + tail;
  }

  /** What stands in front of the first removed line stays where it is. */
  lemma {:induction false} FrontStays(front: seq<DiffOp>, rest: seq<DiffOp>)
    requires forall x | x in front :: !x.Remove?
    ensures Interleaved(front + rest) == front + Interleaved(rest)
  {
    if front == [] {
      assert front + rest == rest;
    } else {
      assert (front + rest)[1..] == front[1..] + rest;
      FrontStays(front[1..], rest);
      assert front == [front[0]] + front[1..];
    }
  }

  // ---------------------------------------------------------------- the whole diff

  /** The script the review shows; files beyond the cell limit are replaced wholesale. */
  function DiffScript(before: seq<string>, after: seq<string>): seq<DiffOp> {
    if |before| * |after| > CELL_LIMIT then RemoveAll(before, 0) + AddAll(after, 0)
    else Interleaved(Walk(before, after, 0, 0))
  }

  method GreedyWalk(before: seq<string>, after: seq<string>) returns (output: seq<DiffOp>)
    requires |before| * |after| <= CELL_LIMIT
    ensures output == Walk(before, after, 0, 0)
  {
    hide Filled, SuffixLcs;
    var table := FillTable(before, after);
    output := [];
    var oldIndex, newIndex := 0, 0;
    while oldIndex < |before| && newIndex < |after|
      invariant 0 <= oldIndex <= |before| && 0 <= newIndex <= |after|
      invariant Filled(table[..], before, after, -1, -1)
      invariant output + Walk(before, after, oldIndex, newIndex) == Walk(before, after, 0, 0)
      decreases |before| - oldIndex + |after| - newIndex
    {
      ghost var had, i, j := output, oldIndex, newIndex;
      var below := Cell(table, before, after, oldIndex + 1, newIndex);
      var right := Cell(table, before, after, oldIndex, newIndex + 1);
      if before[oldIndex] == after[newIndex] {
        output := output + [Context(before[oldIndex], oldIndex + 1, newIndex + 1)];
        oldIndex, newIndex := oldIndex + 1, newIndex + 1;
      } else if below >= right {
        output := output + [Remove(before[oldIndex], oldIndex + 1)];
        oldIndex := oldIndex + 1;
      } else {
        output := output + [Add(after[newIndex], newIndex + 1)];
        newIndex := newIndex + 1;
      }
      ConcatAssociative(had, [output[|had|]], Walk(before, after, oldIndex, newIndex));
    }
    output := AppendRest(output, before, oldIndex, after, newIndex);
  }

  method AppendRest(start: seq<DiffOp>, before: seq<string>, i: nat, after: seq<string>, j: nat)
    returns (output: seq<DiffOp>)
    requires i <= |before| && j <= |after|
    ensures output == start + (RemoveAll(before, i) + AddAll(after, j))
  {
    output := start;
    var oldIndex, newIndex := i, j;
    while oldIndex < |before|
      invariant i <= oldIndex <= |before|
      invariant output + RemoveAll(before, oldIndex) == start + RemoveAll(before, i)
    {
      output := output + [Remove(before[oldIndex], oldIndex + 1)];
      oldIndex := oldIndex + 1;
    }
    while newIndex < |after|
      invariant j <= newIndex <= |after|
      invariant output + AddAll(after, newIndex) == start + RemoveAll(before, i) + AddAll(after, j)
    {
      output := output + [Add(after[newIndex], newIndex + 1)];
      newIndex := newIndex + 1;
    }
    ConcatAssociative(start, RemoveAll(before, i), AddAll(after, j));
  }

  method BuildInterleavedLineDiff(before: seq<string>, after: seq<string>) returns (ops: seq<DiffOp>)
    ensures ops == DiffScript(before, after)
  {
    if |before| * |after| > CELL_LIMIT {
      ops := AppendRest([], before, 0, after, 0);
      return;
    }
    var output := GreedyWalk(before, after);
    ops := InterleaveReplacementRuns(output);
  }

  /** In both branches the script shows every old line and every new line, numbered from 1, in order. */
  lemma ScriptShowsBothFiles(before: seq<string>, after: seq<string>)
    ensures OldSide(DiffScript(before, after)) == NumberFrom(before, 1)
    ensures NewSide(DiffScript(before, after)) == NumberFrom(after, 1)
  {
    assert before[0..] == before && after[0..] == after;
    WalkSides(before, after, 0, 0);
    InterleavedSides(Walk(before, after, 0, 0));
    SidesConcat(RemoveAll(before, 0), AddAll(after, 0));
    RemoveAllSides(before, 0);
    AddAllSides(after, 0);
  }

  ghost predicate IsLongestCommonSubsequence(c: seq<string>, s: seq<string>, t: seq<string>) {
    && IsSubsequence(c, s) && IsSubsequence(c, t)
    && forall d :: IsSubsequence(d, s) && IsSubsequence(d, t) ==> |d| <= |c|
  }

  /**
   Between two different lines the walk gives up the old one exactly if some longest common subsequence of what is left does
   without it, and the new one otherwise.
   */
  lemma WalkGivesUpOldFirst(before: seq<string>, after: seq<string>, i: nat, j: nat)
    requires i < |before| && j < |after| && before[i] != after[j]
    ensures Walk(before, after, i, j) != []
    ensures Walk(before, after, i, j)[0] ==
      if exists c :: IsSubsequence(c, before[i + 1..]) && IsLongestCommonSubsequence(c, before[i..], after[j..])
      then Remove(before[i], i + 1) else Add(after[j], j + 1)
  {
    var below := ScoreIsAttained(before, after, i + 1, j);
    var here := ScoreIsAttained(before, after, i, j);
    assert before[i..] == [before[i]] + before[i + 1..];
    if SuffixLcs(before, after, i + 1, j) >= SuffixLcs(before, after, i, j + 1) {
      SubsequencePrepend(below, before[i + 1..], before[i]);
      AttainedIsLongest(before, after, i, j, below);
    } else {
      forall c | IsSubsequence(c, before[i + 1..]) && IsSubsequence(c, after[j..])
        ensures |c| < |here|
      {
        ScoreBoundsCommon(before, after, i + 1, j, c);
      }
    }
  }

  lemma AttainedIsLongest(before: seq<string>, after: seq<string>, i: nat, j: nat, c: seq<string>)
    requires i <= |before| && j <= |after| && |c| == SuffixLcs(before, after, i, j)
    requires IsSubsequence(c, before[i..]) && IsSubsequence(c, after[j..])
    ensures IsLongestCommonSubsequence(c, before[i..], after[j..])
  {
    forall d | IsSubsequence(d, before[i..]) && IsSubsequence(d, after[j..])
      ensures |d| <= |c|
    {
      ScoreBoundsCommon(before, after, i, j, d);
    }
  }

  lemma ScoreIsAttained(before: seq<string>, after: seq<string>, i: nat, j: nat) returns (c: seq<string>)
    requires i <= |before| && j <= |after|
    ensures IsSubsequence(c, before[i..]) && IsSubsequence(c, after[j..]) && |c| == SuffixLcs(before, after, i, j)
  {
    var ops := Walk(before, after, i, j);
    WalkSides(before, after, i, j);
    ContextIsCommon(ops);
    assert Texts(NumberFrom(before[i..], i + 1)) == before[i..] && Texts(NumberFrom(after[j..], j + 1)) == after[j..];
    c := ContextLines(ops);
  }

  /** Up to the cell limit the kept lines are a longest common subsequence of the two files. */
  lemma ScriptKeepsLongest(before: seq<string>, after: seq<string>)
    requires |before| * |after| <= CELL_LIMIT
    ensures IsLongestCommonSubsequence(ContextLines(DiffScript(before, after)), before, after)
  {
    var ops := DiffScript(before, after);
    ScriptShowsBothFiles(before, after);
    ContextIsCommon(ops);
    assert Texts(NumberFrom(before, 1)) == before && Texts(NumberFrom(after, 1)) == after;
    InterleavedSides(Walk(before, after, 0, 0));
    WalkSides(before, after, 0, 0);
    assert before[0..] == before && after[0..] == after;
    forall d | IsSubsequence(d, before) && IsSubsequence(d, after)
      ensures |d| <= |ContextLines(ops)|
    {
      ScoreBoundsCommon(before, after, 0, 0, d);
    }
  }

  /** Beyond the limit nothing is kept, even of two equal files. */
  lemma OversizeKeepsNothing(before: seq<string>, after: seq<string>)
    requires |before| * |after| > CELL_LIMIT
    ensures ContextLines(DiffScript(before, after)) == []
  {
    SidesConcat(RemoveAll(before, 0), AddAll(after, 0));
    RemoveAllSides(before, 0);
    AddAllSides(after, 0);
  }

  lemma {:induction false} RemoveAllAt(before: seq<string>, i: nat, k: nat)
    requires i <= k < |before|
    ensures RemoveAll(before, i)[k - i] == Remove(before[k], k + 1)
    decreases k - i
  {
    if i < k {
      RemoveAllAt(before, i + 1, k);
    }
  }

  lemma {:induction false} AddAllAt(after: seq<string>, j: nat, k: nat)
    requires j <= k < |after|
    ensures AddAll(after, j)[k - j] == Add(after[k], k + 1)
    decreases k - j
  {
    if j < k {
      AddAllAt(after, j + 1, k);
    }
  }

  /** Beyond the limit all removals come first, then all additions. */
  lemma OversizeReplacesAll(before: seq<string>, after: seq<string>)
    requires |before| * |after| > CELL_LIMIT
    ensures |DiffScript(before, after)| == |before| + |after|
    ensures forall k | 0 <= k < |before| :: DiffScript(before, after)[k] == Remove(before[k], k + 1)
    ensures forall k | 0 <= k < |after| :: DiffScript(before, after)[|before| + k] == Add(after[k], k + 1)
  {
    var removals, additions := RemoveAll(before, 0), AddAll(after, 0);
    assert DiffScript(before, after) == removals + additions;
    hide DiffScript, RemoveAll, AddAll;
    forall k | 0 <= k < |before|
      ensures removals[k] == Remove(before[k], k + 1)
    {
      RemoveAllAt(before, 0, k);
    }
    forall k | 0 <= k < |after|
      ensures additions[k] == Add(after[k], k + 1)
    {
      AddAllAt(after, 0, k);
    }
  }
}
