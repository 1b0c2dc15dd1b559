/** Collapsing rename pairs: a chain of renames shows as one pair and a cycle of renames as one self-pair. */
module RenameChains {
  import opened Sequences

  datatype RenamePair<P> = RenamePair(fromPath: P, toPath: P, receivedAt: int)

  /** A collapsed pair; `inner` holds the paths in between and is empty when the source leaves it out. */
  datatype Collapsed<P> = Collapsed(fromPath: P, toPath: P, receivedAt: int, inner: seq<P>)

  // ---------------------------------------------------------------- chains and cycles

  /** No two pairs leave the same path or reach the same path. */
  predicate DistinctEnds<P(==)>(pairs: seq<RenamePair<P>>) {
    forall i, j | 0 <= i < j < |pairs| :: pairs[i].fromPath != pairs[j].fromPath && pairs[i].toPath != pairs[j].toPath
  }

  lemma SameEnds<P>(pairs: seq<RenamePair<P>>, p: RenamePair<P>, q: RenamePair<P>)
    requires DistinctEnds(pairs) && p in pairs && q in pairs
    ensures p.fromPath == q.fromPath || p.toPath == q.toPath ==> p == q
  {
    var i :| 0 <= i < |pairs| && pairs[i] == p;
    var j :| 0 <= j < |pairs| && pairs[j] == q;
  }

  predicate IsSource<P(==)>(pairs: seq<RenamePair<P>>, path: P) {
    exists p | p in pairs :: p.fromPath == path
  }

  predicate IsTarget<P(==)>(pairs: seq<RenamePair<P>>, path: P) {
    exists p | p in pairs :: p.toPath == path
  }

  function Froms<P(==)>(g: seq<RenamePair<P>>): (r: seq<P>)
    ensures |r| == |g|
    ensures forall i | 0 <= i < |r| :: r[i] == g[i].fromPath
  {
    seq(|g|, i requires 0 <= i < |g| => g[i].fromPath)
  }

  /** Renames that follow each other, no path left twice. */
  predicate IsPath<P(==)>(pairs: seq<RenamePair<P>>, g: seq<RenamePair<P>>) {
    && g != []
    && (forall i | 0 <= i < |g| :: g[i] in pairs)
    && (forall i | 0 <= i < |g| - 1 :: g[i].toPath == g[i + 1].fromPath)
    && (forall i, j | 0 <= i < j < |g| :: g[i].fromPath != g[j].fromPath)
  }

  predicate IsMaximalChain<P(==)>(pairs: seq<RenamePair<P>>, g: seq<RenamePair<P>>) {
    IsPath(pairs, g) && !IsTarget(pairs, g[0].fromPath) && !IsSource(pairs, g[|g| - 1].toPath)
  }

  predicate IsCycle<P(==)>(pairs: seq<RenamePair<P>>, g: seq<RenamePair<P>>) {
    IsPath(pairs, g) && g[|g| - 1].toPath == g[0].fromPath
  }

  /** A chain shows its first source, its last target and the paths in between, in order. */
  function ChainSummary<P(==)>(g: seq<RenamePair<P>>): Collapsed<P>
    requires g != []
  {
    Collapsed(g[0].fromPath, g[|g| - 1].toPath, Max(g[0].receivedAt, g[|g| - 1].receivedAt), Froms(g[1..]))
  }

  /** The first of the latest pairs. */
  function Latest<P>(g: seq<RenamePair<P>>): RenamePair<P>
    requires g != []
  {
    if |g| == 1 then g[0]
    else
      var best, last := Latest(g[..|g| - 1]), g[|g| - 1];
      if last.receivedAt > best.receivedAt then last else best
  }

  lemma {:induction false} LatestMeans<P>(g: seq<RenamePair<P>>) returns (i: nat)
    requires g != []
    ensures i < |g| && g[i] == Latest(g)
    ensures forall j | 0 <= j < |g| :: g[j].receivedAt <= g[i].receivedAt
    ensures forall j | 0 <= j < i :: g[j].receivedAt < g[i].receivedAt
  {
    if |g| == 1 {
      i := 0;
    } else {
      i := LatestMeans(g[..|g| - 1]);
      if g[|g| - 1].receivedAt > g[i].receivedAt {
        i := |g| - 1;
      }
    }
  }

  /** A cycle shows where its latest rename ended, as a pair from and to that path. */
  function CycleSummary<P(==)>(g: seq<RenamePair<P>>): Collapsed<P>
    requires g != []
  {
    var final := Latest(g).toPath;
    Collapsed(final, final, Latest(g).receivedAt, Filter(Froms(g), path => path != final))
  }

  /** A chain is shown from a path that nothing is renamed to, to a path that is not renamed, with the paths in between. */
  lemma ChainShows<P>(pairs: seq<RenamePair<P>>, g: seq<RenamePair<P>>)
    requires IsMaximalChain(pairs, g)
    ensures var shown := ChainSummary(g);
      && !IsTarget(pairs, shown.fromPath) && !IsSource(pairs, shown.toPath)
      && shown.fromPath == g[0].fromPath && shown.toPath == g[|g| - 1].toPath
      && |shown.inner| == |g| - 1 && (forall i | 0 <= i < |g| - 1 :: shown.inner[i] == g[i].toPath)
      && shown.receivedAt == if g[0].receivedAt >= g[|g| - 1].receivedAt then g[0].receivedAt else g[|g| - 1].receivedAt
  {}

  lemma {:induction false} FilterOne<T>(s: seq<T>, x: T, k: nat)
    requires k < |s| && s[k] == x && forall i | 0 <= i < |s| && i != k :: s[i] != x
    ensures Filter(s, y => y != x) == s[..k] + s[k + 1..]
  {
    if k == 0 {
      FilterAll(s[1..], x);
    } else {
      FilterOne(s[1..], x, k - 1);
      assert s[..k] == [s[0]] + s[1..][..k - 1] && s[k + 1..] == s[1..][k..];
    }
  }

  lemma {:induction false} FilterAll<T>(s: seq<T>, x: T)
    requires x !in s
    ensures Filter(s, y => y != x) == s
  {
    if s != [] {
      FilterAll(s[1..], x);
    }
  }

  /** A cycle is shown from and to the target of its latest rename, with all its other paths in order. */
  lemma CycleShows<P>(pairs: seq<RenamePair<P>>, g: seq<RenamePair<P>>) returns (i: nat, k: nat)
    requires IsCycle(pairs, g)
    ensures i < |g| && (forall j | 0 <= j < |g| :: g[j].receivedAt <= g[i].receivedAt)
    ensures forall j | 0 <= j < i :: g[j].receivedAt < g[i].receivedAt
    ensures k == (if i + 1 < |g| then i + 1 else 0) && g[k].fromPath == g[i].toPath
    ensures CycleSummary(g) == Collapsed(g[i].toPath, g[i].toPath, g[i].receivedAt, Froms(g)[..k] + Froms(g)[k + 1..])
  {
    i := LatestMeans(g);
    k := if i + 1 < |g| then i + 1 else 0;
    hide Latest;
    FilterOne(Froms(g), g[i].toPath, k);
  }

  // ---------------------------------------------------------------- chains do not meet

  lemma HasSuccessor<P>(pairs: seq<RenamePair<P>>, g: seq<RenamePair<P>>, i: nat)
    requires IsPath(pairs, g) && i + 1 < |g|
    ensures IsSource(pairs, g[i].toPath)
  {
    assert g[i + 1] in pairs;
  }

  lemma HasPredecessor<P>(pairs: seq<RenamePair<P>>, g: seq<RenamePair<P>>, i: nat)
    requires IsPath(pairs, g) && 0 < i < |g|
    ensures IsTarget(pairs, g[i].fromPath)
  {
    assert g[i - 1] in pairs;
  }

  lemma CycleGoesOn<P>(pairs: seq<RenamePair<P>>, cycle: seq<RenamePair<P>>)
    requires IsCycle(pairs, cycle)
    ensures forall p | p in cycle :: IsSource(pairs, p.toPath)
  {
    forall i | 0 <= i < |cycle|
      ensures IsSource(pairs, cycle[i].toPath)
    {
      assert cycle[if i + 1 < |cycle| then i + 1 else 0] in pairs;
    }
  }

  /** Two paths that share a pair and end where nothing follows go on together. */
  lemma {:induction false} SharedTail<P>(pairs: seq<RenamePair<P>>, g: seq<RenamePair<P>>, i: nat, h: seq<RenamePair<P>>, j: nat)
    requires DistinctEnds(pairs) && IsPath(pairs, g) && IsPath(pairs, h)
    requires !IsSource(pairs, g[|g| - 1].toPath) && !IsSource(pairs, h[|h| - 1].toPath)
    requires i < |g| && j < |h| && g[i] == h[j]
    ensures g[i..] == h[j..]
    decreases |g| - i
  {
    if i + 1 < |g| { HasSuccessor(pairs, g, i); }
    if j + 1 < |h| { HasSuccessor(pairs, h, j); }
    if i + 1 < |g| && j + 1 < |h| {
      SameEnds(pairs, g[i + 1], h[j + 1]);
      SharedTail(pairs, g, i + 1, h, j + 1);
      assert g[i..] == [g[i]] + g[i + 1..] && h[j..] == [h[j]] + h[j + 1..];
    }
  }

  /** From a pair of a cycle one never leaves the cycle. */
  lemma {:induction false} StaysInCycle<P>(pairs: seq<RenamePair<P>>, cycle: seq<RenamePair<P>>, g: seq<RenamePair<P>>, i: nat, k: nat)
    requires DistinctEnds(pairs) && IsCycle(pairs, cycle) && IsPath(pairs, g)
    requires i <= k < |g| && g[i] in cycle
    ensures g[k] in cycle
    decreases k - i
  {
    if i < k {
      var j :| 0 <= j < |cycle| && cycle[j] == g[i];
      var next := if j + 1 < |cycle| then cycle[j + 1] else cycle[0];
      assert next in pairs && g[i + 1] in pairs;
      SameEnds(pairs, next, g[i + 1]);
      StaysInCycle(pairs, cycle, g, i + 1, k);
    }
  }

  lemma ChainMissesCycle<P>(pairs: seq<RenamePair<P>>, chain: seq<RenamePair<P>>, cycle: seq<RenamePair<P>>)
    requires DistinctEnds(pairs) && IsMaximalChain(pairs, chain) && IsCycle(pairs, cycle)
    ensures forall i | 0 <= i < |chain| :: chain[i] !in cycle
  {
    CycleGoesOn(pairs, cycle);
    forall i | 0 <= i < |chain|
      ensures chain[i] !in cycle
    {
      if chain[i] in cycle {
        StaysInCycle(pairs, cycle, chain, i, |chain| - 1);
      }
    }
  }

  /** Two cycles that share a pair: each contains the first pair of the other. */
  lemma CyclesMeet<P>(pairs: seq<RenamePair<P>>, g: seq<RenamePair<P>>, h: seq<RenamePair<P>>, i: nat)
    requires DistinctEnds(pairs) && IsCycle(pairs, g) && IsCycle(pairs, h)
    requires i < |g| && g[i] in h
    ensures g[0] in h
  {
    StaysInCycle(pairs, h, g, i, |g| - 1);
    var j :| 0 <= j < |h| && h[j] == g[|g| - 1];
    var next := if j + 1 < |h| then h[j + 1] else h[0];
    assert next in pairs && g[0] in pairs;
    SameEnds(pairs, next, g[0]);
  }

  /** A path that ends with the last pair of a maximal chain lies in that chain. */
  lemma {:induction false} PathInChain<P>(pairs: seq<RenamePair<P>>, g: seq<RenamePair<P>>, chain: seq<RenamePair<P>>, k: nat)
    requires DistinctEnds(pairs) && IsPath(pairs, g) && IsMaximalChain(pairs, chain)
    requires g[|g| - 1] == chain[|chain| - 1] && k < |g|
    ensures g[k] in chain
    decreases |g| - k
  {
    if k < |g| - 1 {
      PathInChain(pairs, g, chain, k + 1);
      var j :| 0 <= j < |chain| && chain[j] == g[k + 1];
      assert g[k] in pairs;
      assert j > 0;
      SameEnds(pairs, g[k], chain[j - 1]);
    }
  }

  /** Maximal chains with a common pair are equal. */
  lemma MaximalChainsAreEqual<P>(pairs: seq<RenamePair<P>>, g: seq<RenamePair<P>>, h: seq<RenamePair<P>>, i: nat, j: nat)
    requires DistinctEnds(pairs) && IsMaximalChain(pairs, g) && IsMaximalChain(pairs, h)
    requires i < |g| && j < |h| && g[i] == h[j]
    ensures g == h
  {
    SharedTail(pairs, g, i, h, j);
    assert g[i..][|g| - 1 - i] == h[j..][|h| - 1 - j];
    PathInChain(pairs, g, h, 0);
    PathInChain(pairs, h, g, 0);
    var k :| 0 <= k < |h| && h[k] == g[0];
    if k > 0 { HasPredecessor(pairs, h, k); }
    SharedTail(pairs, g, 0, h, 0);
    assert g[0..] == g && h[0..] == h;
  }

  // ---------------------------------------------------------------- the result of collapsing

  /** Every pair lies in exactly one group, at exactly one place. */
  ghost predicate IsPartition<P>(pairs: seq<RenamePair<P>>, groups: seq<seq<RenamePair<P>>>) {
    && (forall i | 0 <= i < |groups| :: forall p | p in groups[i] :: p in pairs)
    && (forall p {:trigger InOneOf(groups, p)} | p in pairs :: InOneOf(groups, p))
    && (forall i, j | 0 <= i < j < |groups| :: Disjoint(groups[i], groups[j]))
  }

  ghost predicate InOneOf<P>(groups: seq<seq<RenamePair<P>>>, p: RenamePair<P>) {
    exists k | 0 <= k < |groups| :: p in groups[k]
  }

  predicate Disjoint<P(==)>(g: seq<RenamePair<P>>, h: seq<RenamePair<P>>) {
    forall p | p in g :: p !in h
  }

  /** The first `chains` groups are the maximal chains, the others are cycles, each with its summary. */
  ghost predicate IsCollapse<P>(pairs: seq<RenamePair<P>>, collapsed: seq<Collapsed<P>>, groups: seq<seq<RenamePair<P>>>, chains: nat) {
    && |collapsed| == |groups| && chains <= |groups|
    && (forall i | 0 <= i < chains :: IsMaximalChain(pairs, groups[i]) && collapsed[i] == ChainSummary(groups[i]))
    && (forall i | chains <= i < |groups| :: IsCycle(pairs, groups[i]) && collapsed[i] == CycleSummary(groups[i]))
    && (forall i, j | 0 <= i < j < |groups| :: Disjoint(groups[i], groups[j]))
  }

  /** Every rename of `g` is one of `h`. */
  predicate Covers<P(==)>(h: seq<RenamePair<P>>, g: seq<RenamePair<P>>) {
    forall p | p in g :: p in h
  }

  lemma ChainIsAGroup<P>(pairs: seq<RenamePair<P>>, collapsed: seq<Collapsed<P>>, groups: seq<seq<RenamePair<P>>>, chains: nat,
                      g: seq<RenamePair<P>>) returns (i: nat)
    requires DistinctEnds(pairs) && IsCollapse(pairs, collapsed, groups, chains) && IsPartition(pairs, groups)
    requires IsMaximalChain(pairs, g)
    ensures i < chains && groups[i] == g
  {
    assert g[0] in pairs && InOneOf(groups, g[0]);
    i :| 0 <= i < |groups| && g[0] in groups[i];
    if i >= chains {
      ChainMissesCycle(pairs, g, groups[i]);
    }
    var j :| 0 <= j < |groups[i]| && groups[i][j] == g[0];
    MaximalChainsAreEqual(pairs, g, groups[i], 0, j);
  }

  lemma CycleIsInAGroup<P>(pairs: seq<RenamePair<P>>, collapsed: seq<Collapsed<P>>, groups: seq<seq<RenamePair<P>>>, chains: nat,
                        g: seq<RenamePair<P>>) returns (i: nat)
    requires DistinctEnds(pairs) && IsCollapse(pairs, collapsed, groups, chains) && IsPartition(pairs, groups)
    requires IsCycle(pairs, g)
    ensures chains <= i < |groups| && Covers(groups[i], g)
  {
    assert g[0] in pairs && InOneOf(groups, g[0]);
    i :| 0 <= i < |groups| && g[0] in groups[i];
    if i < chains {
      ChainMissesCycle(pairs, groups[i], g);
    }
    forall p | p in g
      ensures p in groups[i]
    {
      var k :| 0 <= k < |g| && g[k] == p;
      StaysInCycle(pairs, groups[i], g, 0, k);
    }
  }

  /** A partition into maximal chains and cycles contains every maximal chain, and every cycle up to its start. */
  lemma CollapseIsComplete<P>(pairs: seq<RenamePair<P>>, collapsed: seq<Collapsed<P>>, groups: seq<seq<RenamePair<P>>>, chains: nat)
    requires DistinctEnds(pairs) && IsCollapse(pairs, collapsed, groups, chains) && IsPartition(pairs, groups)
    ensures forall g | IsMaximalChain(pairs, g) :: exists i | 0 <= i < chains :: groups[i] == g
    ensures forall g | IsCycle(pairs, g) :: exists i | chains <= i < |groups| :: Covers(groups[i], g)
  {
    assert chains <= |groups|;
    hide DistinctEnds, IsCollapse, IsPartition, IsMaximalChain, IsCycle;
    forall g | IsMaximalChain(pairs, g)
      ensures exists i | 0 <= i < chains :: groups[i] == g
    {
      var i := ChainIsAGroup(pairs, collapsed, groups, chains, g);
    }
    forall g | IsCycle(pairs, g)
      ensures exists i | chains <= i < |groups| :: Covers(groups[i], g)
    {
      var i := CycleIsInAGroup(pairs, collapsed, groups, chains, g);
    }
  }

  // ---------------------------------------------------------------- the two walks

  ghost predicate IndexesSources<P>(pairs: seq<RenamePair<P>>, byFrom: map<P, RenamePair<P>>) {
    && (forall k | k in byFrom :: byFrom[k] in pairs && byFrom[k].fromPath == k)
    && (forall p | p in pairs :: p.fromPath in byFrom)
  }

  ghost predicate IndexesTargets<P>(pairs: seq<RenamePair<P>>, byTo: map<P, RenamePair<P>>) {
    && (forall k | k in byTo :: byTo[k] in pairs && byTo[k].toPath == k)
    && (forall p | p in pairs :: p.toPath in byTo)
  }

  method IndexPairs<P(==)>(pairs: seq<RenamePair<P>>) returns (byFrom: map<P, RenamePair<P>>, byTo: map<P, RenamePair<P>>)
    ensures IndexesSources(pairs, byFrom) && IndexesTargets(pairs, byTo)
  {
    byFrom, byTo := map[], map[];
    var i := 0;
    while i < |pairs|
      invariant 0 <= i <= |pairs|
      invariant IndexesSources(pairs[..i], byFrom) && IndexesTargets(pairs[..i], byTo)
    {
      assert pairs[..i + 1] == pairs[..i] + [pairs[i]];
      byFrom := byFrom[pairs[i].fromPath := pairs[i]];
      byTo := byTo[pairs[i].toPath := pairs[i]];
      i := i + 1;
    }
    assert pairs[..i] == pairs;
  }

  /** Putting the pair that reaches the start of a path in front of it gives a path again. */
  lemma ExtendBack<P>(pairs: seq<RenamePair<P>>, g: seq<RenamePair<P>>, p: RenamePair<P>)
    requires DistinctEnds(pairs) && IsPath(pairs, g) && !IsSource(pairs, g[|g| - 1].toPath)
    requires p in pairs && p.toPath == g[0].fromPath
    ensures IsPath(pairs, [p] + g)
  {
    var h := [p] + g;
    forall i | 0 <= i < |g|
      ensures p.fromPath != g[i].fromPath
    {
      assert g[i] in pairs && g[0] in pairs;
      assert i + 1 < |g| ==> g[i].toPath == g[i + 1].fromPath;
      assert g[i].toPath != p.toPath;
      SameEnds(pairs, p, g[i]);
    }
  }

  /** The paths the walk back has seen when it has collected `g`. */
  ghost function Seen<P>(g: seq<RenamePair<P>>, terminal: P): set<P> {
    {terminal} + set i | 1 <= i < |g| :: g[i].fromPath
  }

  lemma SeesTheNext<P>(g: seq<RenamePair<P>>, p: RenamePair<P>, terminal: P)
    requires g != []
    ensures Seen([p] + g, terminal) == Seen(g, terminal) + {g[0].fromPath}
  {
    var h := [p] + g;
    forall x | x in Seen(g, terminal) + {g[0].fromPath}
      ensures x in Seen(h, terminal)
    {
      if x != terminal {
        var i :| 0 <= i < |g| && g[i].fromPath == x;
        assert h[i + 1].fromPath == x;
      }
    }
    forall x | x in Seen(h, terminal)
      ensures x in Seen(g, terminal) + {g[0].fromPath}
    {
      if x != terminal {
        var i :| 1 <= i < |h| && h[i].fromPath == x;
        assert g[i - 1].fromPath == x;
      }
    }
  }

  lemma FirstIsNotSeen<P>(pairs: seq<RenamePair<P>>, g: seq<RenamePair<P>>, terminal: P)
    requires IsPath(pairs, g) && !IsSource(pairs, terminal)
    ensures g[0].fromPath !in Seen(g, terminal)
  {
    assert g[0] in pairs;
  }

  ghost predicate WalkedBack<P>(pairs: seq<RenamePair<P>>, terminal: RenamePair<P>, first: RenamePair<P>, inner: seq<P>,
                                g: seq<RenamePair<P>>)
  {
    IsPath(pairs, g) && g[|g| - 1] == terminal && first == g[0] && inner == Froms(g[1..])
  }

  lemma WalkFurtherBack<P>(pairs: seq<RenamePair<P>>, terminal: RenamePair<P>, first: RenamePair<P>, inner: seq<P>,
                           g: seq<RenamePair<P>>, p: RenamePair<P>)
    requires DistinctEnds(pairs) && !IsSource(pairs, terminal.toPath) && WalkedBack(pairs, terminal, first, inner, g)
    requires p in pairs && p.toPath == first.fromPath
    ensures WalkedBack(pairs, terminal, p, [first.fromPath] + inner, [p] + g)
  {
    ExtendBack(pairs, g, p);
    assert Froms(g) == [first.fromPath] + inner;
    assert ([p] + g)[1..] == g;
  }

  lemma WalkedToTheHead<P>(pairs: seq<RenamePair<P>>, byTo: map<P, RenamePair<P>>, terminal: RenamePair<P>,
                           first: RenamePair<P>, inner: seq<P>, g: seq<RenamePair<P>>)
    requires IndexesTargets(pairs, byTo) && !IsSource(pairs, terminal.toPath)
    requires WalkedBack(pairs, terminal, first, inner, g)
    requires first.fromPath !in byTo || first.fromPath in Seen(g, terminal.toPath)
    ensures IsMaximalChain(pairs, g) && g[|g| - 1] == terminal
    ensures Collapsed(first.fromPath, terminal.toPath, Max(first.receivedAt, terminal.receivedAt), inner) == ChainSummary(g)
  {
    FirstIsNotSeen(pairs, g, terminal.toPath);
  }

  /** The walk from the last pair of a chain back to its first one. */
  method WalkBack<P(==)>(pairs: seq<RenamePair<P>>, byTo: map<P, RenamePair<P>>, terminal: RenamePair<P>)
    returns (summary: Collapsed<P>, ghost g: seq<RenamePair<P>>)
    requires IndexesTargets(pairs, byTo) && terminal in pairs && !IsSource(pairs, terminal.toPath)
    ensures DistinctEnds(pairs) ==> IsMaximalChain(pairs, g) && g[|g| - 1] == terminal && summary == ChainSummary(g)
  {
    hide WalkedBack, Seen, DistinctEnds, IsMaximalChain, ChainSummary;
    var first, inner := terminal, [];
    var visited := {terminal.toPath};
    g := [terminal];
    StartsWalk(pairs, terminal);
    while first.fromPath in byTo && first.fromPath !in visited
      invariant g != [] && first == g[0]
      invariant DistinctEnds(pairs) ==> WalkedBack(pairs, terminal, first, inner, g)
      invariant visited == Seen(g, terminal.toPath)
      decreases byTo.Keys - visited
    {
      SeesTheNext(g, byTo[first.fromPath], terminal.toPath);
      if DistinctEnds(pairs) {
        WalkFurtherBack(pairs, terminal, first, inner, g, byTo[first.fromPath]);
      }
      g := [byTo[first.fromPath]] + g;
      visited := visited + {first.fromPath};
      inner := [first.fromPath] + inner;
      first := byTo[first.fromPath];
    }
    summary := Collapsed(first.fromPath, terminal.toPath, Max(first.receivedAt, terminal.receivedAt), inner);
    if DistinctEnds(pairs) {
      WalkedToTheHead(pairs, byTo, terminal, first, inner, g);
    }
  }

  lemma StartsWalk<P>(pairs: seq<RenamePair<P>>, terminal: RenamePair<P>)
    requires terminal in pairs
    ensures WalkedBack(pairs, terminal, terminal, [], [terminal]) && Seen([terminal], terminal.toPath) == {terminal.toPath}
  {}

  /** A path grows at its end by the pair that leaves its last target, unless that closes a cycle. */
  lemma ExtendForward<P>(pairs: seq<RenamePair<P>>, g: seq<RenamePair<P>>, p: RenamePair<P>)
    requires IsPath(pairs, g) && p in pairs && p.fromPath == g[|g| - 1].toPath
    requires p.fromPath !in Froms(g)
    ensures IsPath(pairs, g + [p])
  {
    forall i | 0 <= i < |g|
      ensures g[i].fromPath != p.fromPath
    {
      assert Froms(g)[i] in Froms(g);
    }
  }

  /** A path that comes back to one of its paths comes back to its start. */
  lemma ComesBackToItsStart<P>(pairs: seq<RenamePair<P>>, g: seq<RenamePair<P>>, start: nat)
    requires DistinctEnds(pairs) && IsPath(pairs, g) && start < |g| && g[start].fromPath == g[|g| - 1].toPath
    ensures start == 0
  {
    if start > 0 {
      assert g[start - 1].toPath == g[start].fromPath;
      SameEnds(pairs, g[start - 1], g[|g| - 1]);
    }
  }

  /** The walk stands at `cursor` when it has collected `g`. */
  ghost predicate WalkedForward<P>(pairs: seq<RenamePair<P>>, seed: RenamePair<P>, cursor: P, g: seq<RenamePair<P>>) {
    && cursor == (if g == [] then seed.fromPath else g[|g| - 1].toPath)
    && (DistinctEnds(pairs) && g != [] ==> IsPath(pairs, g) && g[0] == seed)
  }

  lemma WalkFurther<P>(pairs: seq<RenamePair<P>>, seed: RenamePair<P>, g: seq<RenamePair<P>>, p: RenamePair<P>)
    requires WalkedForward(pairs, seed, p.fromPath, g) && p in pairs && seed in pairs && p.fromPath !in Froms(g)
    ensures WalkedForward(pairs, seed, p.toPath, g + [p])
  {
    if DistinctEnds(pairs) {
      if g == [] {
        SameEnds(pairs, p, seed);
        assert g + [p] == [seed];
      } else {
        ExtendForward(pairs, g, p);
      }
    }
  }

  /** The map tells where each of the listed paths stands. */
  ghost predicate IsIndex<P>(paths: seq<P>, index: map<P, nat>) {
    && (forall path | path in paths :: path in index)
    && (forall path | path in index :: index[path] < |paths| && paths[index[path]] == path)
  }

  lemma IndexOneMore<P>(paths: seq<P>, index: map<P, nat>, path: P)
    requires IsIndex(paths, index) && path !in index
    ensures IsIndex(paths + [path], index[path := |paths|])
  {}

  lemma FromsOneMore<P>(g: seq<RenamePair<P>>, p: RenamePair<P>)
    ensures Froms(g + [p]) == Froms(g) + [p.fromPath]
  {}

  lemma StartsForward<P>(pairs: seq<RenamePair<P>>, seed: RenamePair<P>)
    ensures WalkedForward(pairs, seed, seed.fromPath, []) && IsIndex<P>([], map[]) && Froms<P>([]) == []
  {}

  lemma NotListed<P>(paths: seq<P>, index: map<P, nat>, path: P)
    requires IsIndex(paths, index) && path !in index
    ensures path !in paths
  {}

  /** The walk has taken a step, and it ends behind its last pair: at a path it knows, or at one that no pair leaves. */
  lemma WalkEnds<P>(pairs: seq<RenamePair<P>>, seed: RenamePair<P>, cursor: P, g: seq<RenamePair<P>>, paths: seq<P>, index: map<P, nat>,
                    byFrom: map<P, RenamePair<P>>)
    requires WalkedForward(pairs, seed, cursor, g) && Froms(g) == paths && IsIndex(paths, index)
    requires seed.fromPath in byFrom && !(cursor in byFrom && cursor !in index)
    ensures g != [] && cursor == g[|g| - 1].toPath && (DistinctEnds(pairs) ==> IsPath(pairs, g) && g[0] == seed)
    ensures cursor in index ==> index[cursor] < |g| && g[index[cursor]].fromPath == cursor
  {
    hide DistinctEnds, IsPath;
  }

  lemma NotASource<P>(pairs: seq<RenamePair<P>>, byFrom: map<P, RenamePair<P>>, path: P)
    requires IndexesSources(pairs, byFrom) && path !in byFrom
    ensures !IsSource(pairs, path)
  {}

  /** The walk from a pair along the renames that follow it; `None` when it ends without coming back. */
  method WalkForward<P(==)>(pairs: seq<RenamePair<P>>, byFrom: map<P, RenamePair<P>>, seed: RenamePair<P>)
    returns (cyclePaths: Option<seq<P>>, ghost g: seq<RenamePair<P>>)
    requires IndexesSources(pairs, byFrom) && seed in pairs
    ensures DistinctEnds(pairs) ==> IsPath(pairs, g) && g[0] == seed
    ensures DistinctEnds(pairs) && cyclePaths.Some? ==> IsCycle(pairs, g) && cyclePaths.value == Froms(g)
    ensures DistinctEnds(pairs) && cyclePaths.None? ==> !IsSource(pairs, g[|g| - 1].toPath)
    ensures cyclePaths.Some? ==> forall path | path in cyclePaths.value :: path in byFrom
    ensures cyclePaths.Some? ==> cyclePaths.value != []
  {
    hide DistinctEnds, IsPath, IsSource, WalkedForward, IsIndex, Froms;
    var pathOrder: seq<P> := [];
    var pathIndex: map<P, nat> := map[];
    var cursor := seed.fromPath;
    g := [];
    StartsForward(pairs, seed);
    while cursor in byFrom && cursor !in pathIndex
      invariant Froms(g) == pathOrder && IsIndex(pathOrder, pathIndex)
      invariant forall path | path in pathOrder :: path in byFrom
      invariant WalkedForward(pairs, seed, cursor, g) && (g == [] ==> cursor == seed.fromPath)
      decreases byFrom.Keys - pathIndex.Keys
    {
      ghost var p := byFrom[cursor];
      NotListed(pathOrder, pathIndex, cursor);
      WalkFurther(pairs, seed, g, p);
      IndexOneMore(pathOrder, pathIndex, cursor);
      FromsOneMore(g, p);
      ghost var before := pathIndex.Keys;
      pathIndex := pathIndex[cursor := |pathOrder|];
      assert pathIndex.Keys == before + {cursor};
      pathOrder := pathOrder + [cursor];
      g := g + [p];
      cursor := byFrom[cursor].toPath;
    }
    WalkEnds(pairs, seed, cursor, g, pathOrder, pathIndex, byFrom);
    if cursor !in pathIndex {
      NotASource(pairs, byFrom, cursor);
      return None, g;
    }
    var cycleStart := pathIndex[cursor];
    if DistinctEnds(pairs) {
      ComesBackToItsStart(pairs, g, cycleStart);
    }
    cyclePaths := Some(pathOrder[cycleStart..]);
  }

  // ---------------------------------------------------------------- collapsing

  /** The pairs that leave the given paths. */
  function PairsFrom<P(==)>(byFrom: map<P, RenamePair<P>>, paths: seq<P>): (r: seq<RenamePair<P>>)
    requires forall path | path in paths :: path in byFrom
    ensures |r| == |paths|
    ensures forall i | 0 <= i < |r| :: r[i] == byFrom[paths[i]]
  {
    seq(|paths|, i requires 0 <= i < |paths| => byFrom[paths[i]])
  }

  lemma LatestOfOne<P>(g: seq<RenamePair<P>>)
    requires g != []
    ensures Latest(g[..1]) == g[0]
  {}

  lemma LatestOfMore<P>(g: seq<RenamePair<P>>, i: nat)
    requires 1 <= i < |g|
    ensures Latest(g[..i + 1]) == if g[i].receivedAt > Latest(g[..i]).receivedAt then g[i] else Latest(g[..i])
  {
    assert g[..i + 1][..i] == g[..i];
  }

  /** The first of the latest pairs that leave the given paths. */
  method LatestOf<P(==)>(byFrom: map<P, RenamePair<P>>, cyclePaths: seq<P>) returns (latest: RenamePair<P>)
    requires cyclePaths != [] && forall path | path in cyclePaths :: path in byFrom
    ensures latest == Latest(PairsFrom(byFrom, cyclePaths))
  {
    ghost var g := PairsFrom(byFrom, cyclePaths);
    hide Latest;
    latest := byFrom[cyclePaths[0]];
    LatestOfOne(g);
    var i := 1;
    while i < |cyclePaths|
      invariant 1 <= i <= |cyclePaths| && latest == Latest(g[..i])
    {
      LatestOfMore(g, i);
      if byFrom[cyclePaths[i]].receivedAt > latest.receivedAt {
        latest := byFrom[cyclePaths[i]];
      }
      i := i + 1;
    }
    assert g[..i] == g;
  }

  method SummarizeCycle<P(==)>(byFrom: map<P, RenamePair<P>>, cyclePaths: seq<P>) returns (c: Collapsed<P>)
    requires cyclePaths != [] && forall path | path in cyclePaths :: path in byFrom && byFrom[path].fromPath == path
    ensures c == CycleSummary(PairsFrom(byFrom, cyclePaths))
  {
    hide Latest;
    var latest := LatestOf(byFrom, cyclePaths);
    var finalPath := latest.toPath;
    assert Froms(PairsFrom(byFrom, cyclePaths)) == cyclePaths;
    c := Collapsed(finalPath, finalPath, latest.receivedAt, Filter(cyclePaths, path => path != finalPath));
  }

  ghost predicate ChainsSoFar<P>(pairs: seq<RenamePair<P>>, done: nat, collapsed: seq<Collapsed<P>>, groups: seq<seq<RenamePair<P>>>)
    requires done <= |pairs|
  {
    && |collapsed| == |groups|
    && (forall k | 0 <= k < |groups| :: IsMaximalChain(pairs, groups[k]) && collapsed[k] == ChainSummary(groups[k]))
    && (forall k | 0 <= k < |groups| :: groups[k][|groups[k]| - 1] in pairs[..done])
    && (forall j {:trigger EndsOneOf(groups, pairs[j])} | 0 <= j < done :: !IsSource(pairs, pairs[j].toPath) ==> EndsOneOf(groups, pairs[j]))
    && (forall i, j | 0 <= i < j < |groups| :: Disjoint(groups[i], groups[j]))
  }

  ghost predicate EndsOneOf<P>(groups: seq<seq<RenamePair<P>>>, p: RenamePair<P>) {
    exists k | 0 <= k < |groups| :: groups[k] != [] && groups[k][|groups[k]| - 1] == p
  }

  lemma ChainsAreDisjoint<P>(pairs: seq<RenamePair<P>>, g: seq<RenamePair<P>>, h: seq<RenamePair<P>>)
    requires DistinctEnds(pairs) && IsMaximalChain(pairs, g) && IsMaximalChain(pairs, h)
    requires g[|g| - 1] != h[|h| - 1]
    ensures Disjoint(g, h)
  {
    forall i, j | 0 <= i < |g| && 0 <= j < |h|
      ensures g[i] != h[j]
    {
      if g[i] == h[j] {
        MaximalChainsAreEqual(pairs, g, h, i, j);
      }
    }
  }

  lemma EndsStay<P>(groups: seq<seq<RenamePair<P>>>, g: seq<RenamePair<P>>, p: RenamePair<P>)
    requires EndsOneOf(groups, p) || (g != [] && g[|g| - 1] == p)
    ensures EndsOneOf(groups + [g], p)
  {
    if EndsOneOf(groups, p) {
      var k :| 0 <= k < |groups| && groups[k] != [] && groups[k][|groups[k]| - 1] == p;
      assert (groups + [g])[k] == groups[k];
    } else {
      assert (groups + [g])[|groups|] == g;
    }
  }

  lemma NewChainIsDisjoint<P>(pairs: seq<RenamePair<P>>, done: nat, collapsed: seq<Collapsed<P>>,
                              groups: seq<seq<RenamePair<P>>>, g: seq<RenamePair<P>>, k: nat)
    requires DistinctEnds(pairs) && done < |pairs| && ChainsSoFar(pairs, done, collapsed, groups) && k < |groups|
    requires IsMaximalChain(pairs, g) && g[|g| - 1] == pairs[done]
    ensures Disjoint(groups[k], g)
  {
    var last := groups[k][|groups[k]| - 1];
    assert last in pairs[..done];
    var j :| 0 <= j < |pairs[..done]| && pairs[..done][j] == last;
    assert pairs[j].toPath != pairs[done].toPath;
    ChainsAreDisjoint(pairs, groups[k], g);
  }

  lemma AddChain<P>(pairs: seq<RenamePair<P>>, done: nat, collapsed: seq<Collapsed<P>>, groups: seq<seq<RenamePair<P>>>, g: seq<RenamePair<P>>)
    requires DistinctEnds(pairs) && done < |pairs| && ChainsSoFar(pairs, done, collapsed, groups)
    requires IsMaximalChain(pairs, g) && g[|g| - 1] == pairs[done]
    ensures ChainsSoFar(pairs, done + 1, collapsed + [ChainSummary(g)], groups + [g])
  {
    hide DistinctEnds, EndsOneOf, Disjoint, IsSource;
    forall k | 0 <= k < |groups|
      ensures Disjoint(groups[k], g)
    {
      NewChainIsDisjoint(pairs, done, collapsed, groups, g, k);
    }
    forall j | 0 <= j < done + 1 && !IsSource(pairs, pairs[j].toPath)
      ensures EndsOneOf(groups + [g], pairs[j])
    {
      EndsStay(groups, g, pairs[j]);
    }
  }

  lemma NoChainsYet<P>(pairs: seq<RenamePair<P>>)
    ensures ChainsSoFar(pairs, 0, [], [])
  {}

  lemma SkipFollowed<P>(pairs: seq<RenamePair<P>>, byFrom: map<P, RenamePair<P>>, done: nat,
                     collapsed: seq<Collapsed<P>>, groups: seq<seq<RenamePair<P>>>)
    requires IndexesSources(pairs, byFrom) && done < |pairs| && pairs[done].toPath in byFrom
    ensures ChainsSoFar(pairs, done, collapsed, groups) ==> ChainsSoFar(pairs, done + 1, collapsed, groups)
  {
    assert byFrom[pairs[done].toPath] in pairs;
    assert IsSource(pairs, pairs[done].toPath);
    if ChainsSoFar(pairs, done, collapsed, groups) {
      forall k | 0 <= k < |groups|
        ensures groups[k][|groups[k]| - 1] in pairs[..done + 1]
      {
        assert groups[k][|groups[k]| - 1] in pairs[..done];
      }
    }
  }

  ghost predicate CyclesSoFar<P>(pairs: seq<RenamePair<P>>, done: nat, collapsed: seq<Collapsed<P>>, groups: seq<seq<RenamePair<P>>>,
                              chains: nat, handled: set<P>)
    requires done <= |pairs|
  {
    && IsCollapse(pairs, collapsed, groups, chains)
    && (forall j {:trigger EndsOneOf(groups[..chains], pairs[j])} | 0 <= j < |pairs| :: !IsSource(pairs, pairs[j].toPath) ==> EndsOneOf(groups[..chains], pairs[j]))
    && (forall k | chains <= k < |groups| :: forall p | p in groups[k] :: p.fromPath in handled)
    && (forall path | path in handled :: LeftInOneOf(groups[chains..], path))
    && (forall j {:trigger InOneOf(groups, pairs[j])} | 0 <= j < done :: InOneOf(groups, pairs[j]))
  }

  ghost predicate LeftInOneOf<P>(groups: seq<seq<RenamePair<P>>>, path: P) {
    exists k | 0 <= k < |groups| :: path in Froms(groups[k])
  }

  lemma CyclesStart<P>(pairs: seq<RenamePair<P>>, collapsed: seq<Collapsed<P>>, groups: seq<seq<RenamePair<P>>>)
    requires ChainsSoFar(pairs, |pairs|, collapsed, groups)
    ensures CyclesSoFar(pairs, 0, collapsed, groups, |groups|, {})
  {
    assert groups[..|groups|] == groups;
  }

  lemma LeftByIsIn<P>(pairs: seq<RenamePair<P>>, g: seq<RenamePair<P>>, p: RenamePair<P>)
    requires DistinctEnds(pairs) && p in pairs && IsPath(pairs, g) && p.fromPath in Froms(g)
    ensures p in g
  {
    var i :| 0 <= i < |g| && Froms(g)[i] == p.fromPath;
    SameEnds(pairs, g[i], p);
  }

  /** A pair left in a cycle that is already done lies in that cycle. */
  lemma HandledIsCovered<P>(pairs: seq<RenamePair<P>>, done: nat, collapsed: seq<Collapsed<P>>, groups: seq<seq<RenamePair<P>>>,
                         chains: nat, handled: set<P>)
    requires DistinctEnds(pairs) && done < |pairs| && CyclesSoFar(pairs, done, collapsed, groups, chains, handled)
    requires pairs[done].fromPath in handled
    ensures CyclesSoFar(pairs, done + 1, collapsed, groups, chains, handled)
  {
    assert LeftInOneOf(groups[chains..], pairs[done].fromPath);
    var k :| 0 <= k < |groups| - chains && pairs[done].fromPath in Froms(groups[chains..][k]);
    LeftByIsIn(pairs, groups[chains + k], pairs[done]);
    assert InOneOf(groups, pairs[done]);
  }

  /** A pair from which the walk ends lies in the chain that ends there. */
  lemma ChainIsCovered<P>(pairs: seq<RenamePair<P>>, done: nat, collapsed: seq<Collapsed<P>>, groups: seq<seq<RenamePair<P>>>,
                       chains: nat, handled: set<P>, g: seq<RenamePair<P>>)
    requires DistinctEnds(pairs) && done < |pairs| && CyclesSoFar(pairs, done, collapsed, groups, chains, handled)
    requires IsPath(pairs, g) && g[0] == pairs[done] && !IsSource(pairs, g[|g| - 1].toPath)
    ensures CyclesSoFar(pairs, done + 1, collapsed, groups, chains, handled)
  {
    assert g[|g| - 1] in pairs;
    assert EndsOneOf(groups[..chains], g[|g| - 1]);
    var k :| 0 <= k < chains && groups[..chains][k] != [] && groups[..chains][k][|groups[..chains][k]| - 1] == g[|g| - 1];
    assert groups[..chains][k] == groups[k];
    PathInChain(pairs, g, groups[k], 0);
    assert InOneOf(groups, pairs[done]);
  }

  /** A cycle that starts at a path no earlier cycle contains meets no group. */
  lemma NewCycleIsDisjoint<P>(pairs: seq<RenamePair<P>>, done: nat, collapsed: seq<Collapsed<P>>, groups: seq<seq<RenamePair<P>>>,
                           chains: nat, handled: set<P>, g: seq<RenamePair<P>>, k: nat)
    requires DistinctEnds(pairs) && done < |pairs| && CyclesSoFar(pairs, done, collapsed, groups, chains, handled)
    requires IsCycle(pairs, g) && g[0].fromPath !in handled && k < |groups|
    ensures Disjoint(groups[k], g)
  {
    if k < chains {
      ChainMissesCycle(pairs, groups[k], g);
    } else {
      forall i | 0 <= i < |g|
        ensures g[i] !in groups[k]
      {
        if g[i] in groups[k] {
          CyclesMeet(pairs, g, groups[k], i);
        }
      }
    }
  }

  lemma LeftStays<P>(groups: seq<seq<RenamePair<P>>>, chains: nat, g: seq<RenamePair<P>>, path: P)
    requires chains <= |groups| && (LeftInOneOf(groups[chains..], path) || path in Froms(g))
    ensures LeftInOneOf((groups + [g])[chains..], path)
  {
    assert (groups + [g])[chains..] == groups[chains..] + [g];
    if LeftInOneOf(groups[chains..], path) {
      var k :| 0 <= k < |groups[chains..]| && path in Froms(groups[chains..][k]);
      assert (groups[chains..] + [g])[k] == groups[chains..][k];
    } else {
      assert (groups[chains..] + [g])[|groups| - chains] == g;
    }
  }

  lemma CoverStays<P>(groups: seq<seq<RenamePair<P>>>, g: seq<RenamePair<P>>, p: RenamePair<P>)
    requires InOneOf(groups, p) || p in g
    ensures InOneOf(groups + [g], p)
  {
    if InOneOf(groups, p) {
      var k :| 0 <= k < |groups| && p in groups[k];
      assert (groups + [g])[k] == groups[k];
    } else {
      assert (groups + [g])[|groups|] == g;
    }
  }

  lemma AddToCollapse<P>(pairs: seq<RenamePair<P>>, done: nat, collapsed: seq<Collapsed<P>>, groups: seq<seq<RenamePair<P>>>,
                      chains: nat, handled: set<P>, g: seq<RenamePair<P>>)
    requires DistinctEnds(pairs) && done < |pairs| && CyclesSoFar(pairs, done, collapsed, groups, chains, handled)
    requires IsCycle(pairs, g) && g[0].fromPath !in handled
    ensures IsCollapse(pairs, collapsed + [CycleSummary(g)], groups + [g], chains)
  {
    hide IsMaximalChain, IsCycle, ChainSummary, CycleSummary, Disjoint, DistinctEnds;
    forall k | 0 <= k < |groups|
      ensures Disjoint(groups[k], g)
    {
      NewCycleIsDisjoint(pairs, done, collapsed, groups, chains, handled, g, k);
    }
  }

  lemma LeavesItsFroms<P>(g: seq<RenamePair<P>>, p: RenamePair<P>)
    requires p in g
    ensures p.fromPath in Froms(g)
  {
    var i :| 0 <= i < |g| && g[i] == p;
    assert Froms(g)[i] == p.fromPath;
  }

  lemma AddCycle<P>(pairs: seq<RenamePair<P>>, done: nat, collapsed: seq<Collapsed<P>>, groups: seq<seq<RenamePair<P>>>,
                 chains: nat, handled: set<P>, g: seq<RenamePair<P>>)
    requires DistinctEnds(pairs) && done < |pairs| && CyclesSoFar(pairs, done, collapsed, groups, chains, handled)
    requires IsCycle(pairs, g) && g[0] == pairs[done] && g[0].fromPath !in handled
    ensures CyclesSoFar(pairs, done + 1, collapsed + [CycleSummary(g)], groups + [g], chains,
                        handled + (set path | path in Froms(g)))
  {
    AddToCollapse(pairs, done, collapsed, groups, chains, handled, g);
    assert (groups + [g])[..chains] == groups[..chains];
    AddCycleCovers(pairs, done, collapsed, groups, chains, handled, g);
    forall p | p in g
      ensures p.fromPath in Froms(g)
    {
      LeavesItsFroms(g, p);
    }
  }

  lemma AddCycleCovers<P>(pairs: seq<RenamePair<P>>, done: nat, collapsed: seq<Collapsed<P>>, groups: seq<seq<RenamePair<P>>>,
                       chains: nat, handled: set<P>, g: seq<RenamePair<P>>)
    requires done < |pairs| && CyclesSoFar(pairs, done, collapsed, groups, chains, handled)
    requires g != [] && g[0] == pairs[done]
    ensures forall path | path in handled + (set path | path in Froms(g)) :: LeftInOneOf((groups + [g])[chains..], path)
    ensures forall j | 0 <= j < done + 1 :: InOneOf(groups + [g], pairs[j])
  {
    forall path | path in handled + (set path | path in Froms(g))
      ensures LeftInOneOf((groups + [g])[chains..], path)
    {
      LeftStays(groups, chains, g, path);
    }
    forall j | 0 <= j < done + 1
      ensures InOneOf(groups + [g], pairs[j])
    {
      CoverStays(groups, g, pairs[j]);
    }
  }

  lemma AllCovered<P>(pairs: seq<RenamePair<P>>, collapsed: seq<Collapsed<P>>, groups: seq<seq<RenamePair<P>>>, chains: nat, handled: set<P>)
    requires CyclesSoFar(pairs, |pairs|, collapsed, groups, chains, handled)
    ensures IsCollapse(pairs, collapsed, groups, chains) && IsPartition(pairs, groups)
  {
    forall i | 0 <= i < |groups|
      ensures forall p | p in groups[i] :: p in pairs
    {
      assert IsPath(pairs, groups[i]);
    }
  }

  /** Looking up the paths left by a path of renames gives the renames back. */
  lemma LookedUp<P>(pairs: seq<RenamePair<P>>, byFrom: map<P, RenamePair<P>>, g: seq<RenamePair<P>>)
    requires DistinctEnds(pairs) && IndexesSources(pairs, byFrom) && IsPath(pairs, g)
    requires forall path | path in Froms(g) :: path in byFrom
    ensures PairsFrom(byFrom, Froms(g)) == g
  {
    forall i | 0 <= i < |g|
      ensures byFrom[Froms(g)[i]] == g[i]
    {
      assert Froms(g)[i] in Froms(g) && g[i] in pairs;
      SameEnds(pairs, byFrom[g[i].fromPath], g[i]);
    }
  }

  /** The first loop: one result for every pair after which nothing follows. */
  method CollapseChains<P(==)>(pairs: seq<RenamePair<P>>, byFrom: map<P, RenamePair<P>>, byTo: map<P, RenamePair<P>>)
    returns (collapsed: seq<Collapsed<P>>, ghost groups: seq<seq<RenamePair<P>>>)
    requires IndexesSources(pairs, byFrom) && IndexesTargets(pairs, byTo)
    ensures DistinctEnds(pairs) ==> ChainsSoFar(pairs, |pairs|, collapsed, groups)
  {
    collapsed, groups := [], [];
    hide ChainsSoFar, DistinctEnds, IsMaximalChain, ChainSummary;
    NoChainsYet(pairs);
    var i := 0;
    while i < |pairs|
      invariant 0 <= i <= |pairs|
      invariant DistinctEnds(pairs) ==> ChainsSoFar(pairs, i, collapsed, groups)
    {
      var terminal := pairs[i];
      if terminal.toPath !in byFrom {
        var summary, g := WalkBack(pairs, byTo, terminal);
        if DistinctEnds(pairs) {
          AddChain(pairs, i, collapsed, groups, g);
          groups := groups + [g];
        }
        collapsed := collapsed + [summary];
      } else {
        SkipFollowed(pairs, byFrom, i, collapsed, groups);
      }
      i := i + 1;
    }
  }

  /** One turn of the second loop: the cycle through a seed, if there is one that is not done yet. */
  method CollapseCycleOf<P(==)>(pairs: seq<RenamePair<P>>, byFrom: map<P, RenamePair<P>>, i: nat,
                         collapsed: seq<Collapsed<P>>, handled: set<P>,
                         ghost groups: seq<seq<RenamePair<P>>>, ghost chains: nat)
    returns (collapsed': seq<Collapsed<P>>, handled': set<P>, ghost groups': seq<seq<RenamePair<P>>>)
    requires IndexesSources(pairs, byFrom) && i < |pairs|
    requires DistinctEnds(pairs) ==> CyclesSoFar(pairs, i, collapsed, groups, chains, handled)
    ensures DistinctEnds(pairs) ==> CyclesSoFar(pairs, i + 1, collapsed', groups', chains, handled')
  {
    hide CyclesSoFar, DistinctEnds, PairsFrom, Froms, CycleSummary;
    var seed := pairs[i];
    collapsed', handled', groups' := collapsed, handled, groups;
    if seed.fromPath in handled {
      if DistinctEnds(pairs) { HandledIsCovered(pairs, i, collapsed, groups, chains, handled); }
      return;
    }
    var cyclePaths, g := WalkForward(pairs, byFrom, seed);
    if cyclePaths.None? {
      if DistinctEnds(pairs) { ChainIsCovered(pairs, i, collapsed, groups, chains, handled, g); }
      return;
    }
    var summary := SummarizeCycle(byFrom, cyclePaths.value);
    if DistinctEnds(pairs) {
      LookedUp(pairs, byFrom, g);
      AddCycle(pairs, i, collapsed, groups, chains, handled, g);
      groups' := groups + [g];
    }
    handled' := handled + (set path | path in cyclePaths.value);
    collapsed' := collapsed + [summary];
  }

  /** The pairs fall into maximal chains and cycles, and `collapsed` has one entry for each. */
  ghost predicate IsCollapsed<P(!new)>(pairs: seq<RenamePair<P>>, collapsed: seq<Collapsed<P>>) {
    exists groups: seq<seq<RenamePair<P>>>, chains: nat ::
      IsCollapse(pairs, collapsed, groups, chains) && IsPartition(pairs, groups)
  }

  method CollapseRenameChains<P(==,!new)>(pairs: seq<RenamePair<P>>) returns (collapsed: seq<Collapsed<P>>)
    ensures DistinctEnds(pairs) ==> IsCollapsed(pairs, collapsed)
  {
    hide ChainsSoFar, CyclesSoFar, DistinctEnds, IsCollapse, IsPartition;
    var byFrom, byTo := IndexPairs(pairs);
    ghost var groups;
    collapsed, groups := CollapseChains(pairs, byFrom, byTo);
    ghost var chains := |groups|;
    var handled: set<P> := {};
    if DistinctEnds(pairs) { CyclesStart(pairs, collapsed, groups); }
    var i := 0;
    while i < |pairs|
      invariant 0 <= i <= |pairs|
      invariant DistinctEnds(pairs) ==> CyclesSoFar(pairs, i, collapsed, groups, chains, handled)
    {
      collapsed, handled, groups := CollapseCycleOf(pairs, byFrom, i, collapsed, handled, groups, chains);
      i := i + 1;
    }
    if DistinctEnds(pairs) { AllCovered(pairs, collapsed, groups, chains, handled); }
  }
}
