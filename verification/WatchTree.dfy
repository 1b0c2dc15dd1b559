/**
 The watcher's picture of the workspace, a map from path to entry, and the events that tell clients how it changes. Events
 are computed path by path in sorted order.
 */
module WatchTree {
  import opened Sequences
  import opened Ordering

  datatype Kind = File | Directory

  datatype Entry = Entry(path: string, kind: Kind, size: nat, mtime: int)

  type Tree = map<string, Entry>

  datatype WatchEvent = Add(path: string, kind: Kind) | Change(path: string) | Unlink(path: string, kind: Kind)

  // ---------------------------------------------------------------- sorted paths

  ghost function SortedPaths(paths: set<string>): (r: seq<string>)
    ensures IsSortedList(r, paths)
  {
    if paths == {} then []
    else
      var x :| x in paths;
      var rest := SortedPaths(paths - {x});
      SortOneMore(x, rest, paths);
      Insert(x, rest, StringLess)
  }

  ghost predicate IsSortedList(s: seq<string>, paths: set<string>) {
    Sorted(s, StringLess) && forall p :: p in s <==> p in paths
  }

  lemma SortOneMore(x: string, rest: seq<string>, paths: set<string>)
    requires x in paths && IsSortedList(rest, paths - {x})
    ensures IsSortedList(Insert(x, rest, StringLess), paths)
  {
    StringOrder();
    InsertSorts(x, rest, StringLess);
    InsertMembers(x, rest, StringLess);
    var r := Insert(x, rest, StringLess);
    forall p
      ensures p in r <==> p in paths
    {
      assert p in rest + [x] <==> p in rest || p == x;
    }
  }

  lemma SortedListIsUnique(s: seq<string>, paths: set<string>)
    requires IsSortedList(s, paths)
    ensures s == SortedPaths(paths)
  {
    StringOrder();
    SortedIsUnique(s, SortedPaths(paths), StringLess);
  }

  lemma SortedIsDistinct(s: seq<string>)
    requires Sorted(s, StringLess)
    ensures Distinct(s)
  {
    forall i, j | 0 <= i < j < |s|
      ensures s[i] != s[j]
    {
      StringLessIrreflexive(s[i]);
    }
  }

  lemma {:induction false} FilterIsSorted<T>(s: seq<T>, p: T -> bool, less: (T, T) -> bool)
    requires Sorted(s, less)
    ensures Sorted(Filter(s, p), less)
  {
    if s != [] {
      FilterIsSorted(s[1..], p, less);
      FilterMembers(s[1..], p);
      forall i | 0 <= i < |Filter(s[1..], p)|
        ensures less(s[0], Filter(s[1..], p)[i])
      {
        var x := Filter(s[1..], p)[i];
        assert x in s[1..];
        var k :| 0 <= k < |s[1..]| && s[1..][k] == x;
        assert s[k + 1] == x;
      }
    }
  }

  /** The sorted paths of a part are those of the whole that are in the part. */
  lemma SortedPart(paths: set<string>, part: set<string>, p: string -> bool)
    requires forall x :: x in part <==> x in paths && p(x)
    ensures SortedPaths(part) == Filter(SortedPaths(paths), p)
  {
    var s := Filter(SortedPaths(paths), p);
    FilterIsSorted(SortedPaths(paths), p, StringLess);
    FilterMembers(SortedPaths(paths), p);
    SortedListIsUnique(s, part);
  }

  // ---------------------------------------------------------------- the events of a difference

  predicate IsChanged(known: Entry, entry: Entry) {
    entry.kind == File && (entry.size != known.size || entry.mtime != known.mtime)
  }

  /** What is told about a path that is there now. */
  function EventsOfPresent(previous: Tree, current: Tree): string -> seq<WatchEvent> {
    (p: string) =>
      if p !in current then []
      else if p !in previous then [Add(p, current[p].kind)]
      else if IsChanged(previous[p], current[p]) then [Change(p)]
      else []
  }

  /** What is told about a path that was there before. */
  function EventsOfFormer(previous: Tree, current: Tree): string -> seq<WatchEvent> {
    (p: string) => if p in previous && p !in current then [Unlink(p, previous[p].kind)] else []
  }

  ghost function Diff(previous: Tree, current: Tree): seq<WatchEvent> {
    FlatMap(SortedPaths(current.Keys), EventsOfPresent(previous, current))
    + FlatMap(SortedPaths(previous.Keys), EventsOfFormer(previous, current))
  }

  // ---------------------------------------------------------------- the operations

  predicate InSubtree(path: string, root: string) {
    path == root || (root != "" && StartsWith(path, root + "/"))
  }

  /** A subtree is its root and whatever path leads on from there; that of the root directory is the root alone. */
  lemma SubtreeMeans(path: string, root: string, below: string)
    ensures InSubtree(root, root) && (root != "" ==> InSubtree(root + "/" + below, root))
    ensures InSubtree(path, root) && path != root ==> root != "" && |path| > |root| && path == root + "/" + path[|root| + 1..]
  {
    assert (root + "/" + below)[..|root| + 1] == root + "/";
    if InSubtree(path, root) && path != root {
      assert path == path[..|root| + 1] + path[|root| + 1..];
    }
  }

  function FilterSubtree(tree: Tree, root: string): Tree {
    map p | p in tree && InSubtree(p, root) :: tree[p]
  }

  function WithoutSubtree(tree: Tree, root: string): Tree {
    map p | p in tree && !InSubtree(p, root) :: tree[p]
  }

  function MergeSubtree(previous: Tree, current: Tree, root: string): Tree {
    WithoutSubtree(previous, root) + current
  }

  datatype Told = Told(tree: Tree, events: seq<WatchEvent>)

  function Upsert(previous: Tree, entry: Entry): Told {
    if entry.path !in previous then Told(previous[entry.path := entry], [Add(entry.path, entry.kind)])
    else if IsChanged(previous[entry.path], entry) then Told(previous[entry.path := entry], [Change(entry.path)])
    else Told(previous, [])
  }

  function UnlinkIn(tree: Tree, root: string): string -> seq<WatchEvent> {
    (p: string) => if p in tree && InSubtree(p, root) then [Unlink(p, tree[p].kind)] else []
  }

  ghost function RemovePath(previous: Tree, relative: string): Told {
    if relative !in previous then Told(previous, [])
    else Told(WithoutSubtree(previous, relative), FlatMap(SortedPaths(previous.Keys), UnlinkIn(previous, relative)))
  }

  /** A scan below a directory replaces what was known below it; a failed scan changes nothing. */
  ghost function ReconcileSubtree(previous: Tree, scan: Option<Tree>, root: string): Told {
    match scan
    case None => Told(previous, [])
    case Some(current) => Told(MergeSubtree(previous, current, root), Diff(FilterSubtree(previous, root), current))
  }

  /** A full scan; nothing is told before there was a first picture. */
  ghost function ReconcileWorkspace(previous: Option<Tree>, scan: Option<Tree>): Told {
    match scan
    case None => Told(if previous.Some? then previous.value else map[], [])
    case Some(current) => Told(current, if previous.Some? then Diff(previous.value, current) else [])
  }

  datatype Stat = Failed | Missing | Found(entry: Entry)

  /** What the platform reports: the path within the workspace, what happened, and what is found there then. */
  datatype Report = Report(relative: Option<string>, chmodOnly: bool, removed: bool, written: bool, stat: Stat, scan: Option<Tree>)

  /** What is found is found at the path, a scan of a directory is below it. */
  predicate IsReport(r: Report) {
    r.relative.Some? ==>
      && (r.stat.Found? ==> r.stat.entry.path == r.relative.value)
      && (r.scan.Some? ==> forall p | p in r.scan.value :: InSubtree(p, r.relative.value))
  }

  ghost function HandleWrite(previous: Tree, r: Report): Told
    requires r.relative.Some?
  {
    if !r.written || !r.stat.Found? then Told(previous, [])
    else if r.stat.entry.kind == Directory then ReconcileSubtree(previous, r.scan, r.relative.value)
    else Upsert(previous, r.stat.entry)
  }

  ghost function HandleReport(previous: Tree, r: Report): Told {
    if r.chmodOnly || r.relative.None? || r.relative.value == "" then Told(previous, [])
    else
      var removed := if r.removed then RemovePath(previous, r.relative.value) else Told(previous, []);
      var written := HandleWrite(removed.tree, r);
      Told(written.tree, removed.events + written.events)
  }

  // ---------------------------------------------------------------- a client that follows the events

  /** An event fits what the client has: paths are added when absent, changed and unlinked when present. */
  predicate Fits(paths: set<string>, e: WatchEvent) {
    if e.Add? then e.path !in paths else e.path in paths
  }

  function Follow(paths: set<string>, e: WatchEvent): set<string> {
    match e
    case Add(p, _) => paths + {p}
    case Change(_) => paths
    case Unlink(p, _) => paths - {p}
  }

  /** The paths of a client that follows the events. */
  function FollowAll(paths: set<string>, events: seq<WatchEvent>): set<string>
    decreases events
  {
    if events == [] then paths else FollowAll(Follow(paths, events[0]), events[1..])
  }

  predicate AllFit(paths: set<string>, events: seq<WatchEvent>)
    decreases events
  {
    events == [] || (Fits(paths, events[0]) && AllFit(Follow(paths, events[0]), events[1..]))
  }

  /** The events lead from one picture to the other, every one of them fitting. */
  predicate Leads(from: set<string>, events: seq<WatchEvent>, to: set<string>) {
    AllFit(from, events) && FollowAll(from, events) == to
  }

  lemma {:induction false} LeadsOn(a: set<string>, d: seq<WatchEvent>, b: set<string>, e: seq<WatchEvent>, c: set<string>)
    requires Leads(a, d, b) && Leads(b, e, c)
    ensures Leads(a, d + e, c)
    decreases d
  {
    if d == [] {
      assert d + e == e;
    } else {
      assert (d + e)[1..] == d[1..] + e;
      LeadsOn(Follow(a, d[0]), d[1..], b, e, c);
    }
  }

  lemma LeadsByOne(paths: set<string>, e: WatchEvent)
    requires Fits(paths, e)
    ensures Leads(paths, [e], Follow(paths, e))
  {
    assert [e][1..] == [];
  }

  /** What is told about a present path: that it was added, if it was absent, or at most that it changed. */
  predicate TellsPresent(from: set<string>, p: string, events: seq<WatchEvent>) {
    if p in from then events == [] || events == [Change(p)]
    else |events| == 1 && events[0].Add? && events[0].path == p
  }

  lemma PresentLeadsByOne(from: set<string>, p: string, events: seq<WatchEvent>)
    requires TellsPresent(from, p, events)
    ensures Leads(from, events, from + {p})
  {
    if events != [] {
      LeadsByOne(from, events[0]);
      assert events == [events[0]];
    }
    if p in from {
      assert from + {p} == from;
    }
  }

  /** Telling about present paths adds them. */
  lemma {:induction false} PresentLeads(from: set<string>, paths: seq<string>, f: string -> seq<WatchEvent>)
    requires Distinct(paths) && forall p | p in paths :: TellsPresent(from, p, f(p))
    ensures Leads(from, FlatMap(paths, f), from + set p | p in paths)
    decreases paths
  {
    if paths != [] {
      var p := paths[0];
      var after := from + {p};
      PresentLeadsByOne(from, p, f(p));
      assert paths == [p] + paths[1..] && p !in paths[1..];
      hide Leads;
      PresentLeads(after, paths[1..], f);
      LeadsOn(from, f(p), after, FlatMap(paths[1..], f), after + set q | q in paths[1..]);
      assert after + (set q | q in paths[1..]) == from + set q | q in paths;
    }
  }

  /** Unlinking paths removes them. */
  lemma {:induction false} UnlinksLead(from: set<string>, paths: seq<string>, f: string -> seq<WatchEvent>, gone: set<string>)
    requires Distinct(paths) && forall p | p in paths :: p in from
    requires forall p | p in paths :: if p in gone then f(p) != [] && |f(p)| == 1 && f(p)[0].Unlink? && f(p)[0].path == p else f(p) == []
    ensures Leads(from, FlatMap(paths, f), from - set p | p in paths && p in gone)
    decreases paths
  {
    if paths != [] {
      var p := paths[0];
      var after := if p in gone then from - {p} else from;
      if p in gone { LeadsByOne(from, f(p)[0]); assert f(p) == [f(p)[0]]; }
      assert Leads(from, f(p), after);
      assert p !in paths[1..];
      UnlinksLead(after, paths[1..], f, gone);
      var last := after - set q | q in paths[1..] && q in gone;
      LeadsOn(from, f(p), after, FlatMap(paths[1..], f), last);
      assert paths == [p] + paths[1..];
      assert last == from - set q | q in paths && q in gone;
    }
  }

  /** A list of the paths of a tree, each of them once. */
  ghost predicate IsListing(s: seq<string>, paths: set<string>) {
    Distinct(s) && forall p :: p in s <==> p in paths
  }

  lemma SortedPathsAreListing(paths: set<string>)
    ensures IsListing(SortedPaths(paths), paths)
  {
    SortedIsDistinct(SortedPaths(paths));
  }

  lemma PresentsLead(from: set<string>, previous: Tree, current: Tree, s: seq<string>)
    requires previous.Keys <= from && (from - previous.Keys) !! current.Keys && IsListing(s, current.Keys)
    ensures Leads(from, FlatMap(s, EventsOfPresent(previous, current)), from + current.Keys)
  {
    var present := EventsOfPresent(previous, current);
    forall p | p in s
      ensures TellsPresent(from, p, present(p))
    {
      assert p in current.Keys;
    }
    PresentLeads(from, s, present);
    assert (set p | p in s) == current.Keys;
  }

  lemma FormersLead(from: set<string>, previous: Tree, current: Tree, s: seq<string>)
    requires previous.Keys <= from && IsListing(s, previous.Keys)
    ensures Leads(from + current.Keys, FlatMap(s, EventsOfFormer(previous, current)), from + current.Keys - (previous.Keys - current.Keys))
  {
    var gone := previous.Keys - current.Keys;
    UnlinksLead(from + current.Keys, s, EventsOfFormer(previous, current), gone);
    assert (set p | p in s && p in gone) == gone;
  }

  /** The events of a difference lead a client from the former to the present paths; others stay as they are. */
  lemma DiffLeads(from: set<string>, previous: Tree, current: Tree)
    requires previous.Keys <= from && (from - previous.Keys) !! current.Keys
    ensures Leads(from, Diff(previous, current), from - previous.Keys + current.Keys)
  {
    SortedPathsAreListing(previous.Keys);
    SortedPathsAreListing(current.Keys);
    hide Leads, IsListing, IsSortedList, SortedPaths;
    var present, former := SortedPaths(current.Keys), SortedPaths(previous.Keys);
    PresentsLead(from, previous, current, present);
    FormersLead(from, previous, current, former);
    var to := from + current.Keys - (previous.Keys - current.Keys);
    assert to == from - previous.Keys + current.Keys;
    LeadsOn(from, FlatMap(present, EventsOfPresent(previous, current)), from + current.Keys,
            FlatMap(former, EventsOfFormer(previous, current)), to);
  }

  lemma UpsertLeads(previous: Tree, entry: Entry)
    ensures Leads(previous.Keys, Upsert(previous, entry).events, Upsert(previous, entry).tree.Keys)
  {
    var told := Upsert(previous, entry);
    if told.events != [] {
      LeadsByOne(previous.Keys, told.events[0]);
    }
  }

  lemma RemovesLead(previous: Tree, relative: string, s: seq<string>)
    requires IsListing(s, previous.Keys)
    ensures Leads(previous.Keys, FlatMap(s, UnlinkIn(previous, relative)), WithoutSubtree(previous, relative).Keys)
  {
    var gone := FilterSubtree(previous, relative).Keys;
    UnlinksLead(previous.Keys, s, UnlinkIn(previous, relative), gone);
    assert (set p | p in s && p in gone) == gone;
    assert previous.Keys - gone == WithoutSubtree(previous, relative).Keys;
  }

  lemma RemoveLeads(previous: Tree, relative: string)
    ensures Leads(previous.Keys, RemovePath(previous, relative).events, RemovePath(previous, relative).tree.Keys)
  {
    if relative in previous {
      SortedPathsAreListing(previous.Keys);
      hide Leads, IsListing, IsSortedList, SortedPaths;
      RemovesLead(previous, relative, SortedPaths(previous.Keys));
    }
  }

  lemma SubtreeLeads(previous: Tree, scan: Option<Tree>, root: string)
    requires scan.Some? ==> forall p | p in scan.value :: InSubtree(p, root)
    ensures Leads(previous.Keys, ReconcileSubtree(previous, scan, root).events, ReconcileSubtree(previous, scan, root).tree.Keys)
  {
    if scan.Some? {
      var part := FilterSubtree(previous, root);
      DiffLeads(previous.Keys, part, scan.value);
      assert previous.Keys - part.Keys + scan.value.Keys == MergeSubtree(previous, scan.value, root).Keys;
    }
  }

  /** Every report keeps clients in step. */
  lemma ReportLeads(previous: Tree, r: Report)
    requires IsReport(r)
    ensures Leads(previous.Keys, HandleReport(previous, r).events, HandleReport(previous, r).tree.Keys)
  {
    if !r.chmodOnly && r.relative.Some? && r.relative.value != "" {
      var removed := if r.removed then RemovePath(previous, r.relative.value) else Told(previous, []);
      RemoveLeads(previous, r.relative.value);
      var written := HandleWrite(removed.tree, r);
      if r.stat.Found? {
        UpsertLeads(removed.tree, r.stat.entry);
      }
      SubtreeLeads(removed.tree, r.scan, r.relative.value);
      hide Leads, RemovePath, ReconcileSubtree, Upsert;
      NothingLeads(previous.Keys);
      NothingLeads(removed.tree.Keys);
      LeadsOn(previous.Keys, removed.events, removed.tree.Keys, written.events, written.tree.Keys);
    }
  }

  lemma NothingLeads(paths: set<string>)
    ensures Leads(paths, [], paths)
  {}

  datatype WatchStep = Reported(report: Report) | Rescanned(scan: Option<Tree>)

  ghost function StepOf(previous: Tree, step: WatchStep): Told {
    match step
    case Reported(r) => HandleReport(previous, r)
    case Rescanned(scan) => ReconcileWorkspace(Some(previous), scan)
  }

  ghost function Watch(start: Tree, steps: seq<WatchStep>): Told {
    if steps == [] then Told(start, [])
    else
      var before := Watch(start, steps[..|steps| - 1]);
      var told := StepOf(before.tree, steps[|steps| - 1]);
      Told(told.tree, before.events + told.events)
  }

  lemma StepLeads(previous: Tree, step: WatchStep)
    requires step.Reported? ==> IsReport(step.report)
    ensures Leads(previous.Keys, StepOf(previous, step).events, StepOf(previous, step).tree.Keys)
  {
    if step.Reported? {
      ReportLeads(previous, step.report);
    } else if step.scan.Some? {
      DiffLeads(previous.Keys, previous, step.scan.value);
      assert previous.Keys - previous.Keys + step.scan.value.Keys == step.scan.value.Keys;
    }
  }

  /**
   The mirror: after any reports and rescans, a client that started with the watched paths and followed the events has
   exactly the paths of the watcher; no path was added while present or unlinked while absent.
   */
  lemma {:induction false} ClientsMirrorTheWatcher(start: Tree, steps: seq<WatchStep>)
    requires forall i | 0 <= i < |steps| :: steps[i].Reported? ==> IsReport(steps[i].report)
    ensures Leads(start.Keys, Watch(start, steps).events, Watch(start, steps).tree.Keys)
  {
    if steps != [] {
      var n := |steps| - 1;
      ClientsMirrorTheWatcher(start, steps[..n]);
      hide Leads, StepOf;
      var before := Watch(start, steps[..n]);
      StepLeads(before.tree, steps[n]);
      var told := StepOf(before.tree, steps[n]);
      LeadsOn(start.Keys, before.events, before.tree.Keys, told.events, told.tree.Keys);
    }
  }

  // ---------------------------------------------------------------- what a difference tells

  lemma {:induction false} FlatMapMembers<T, U>(s: seq<T>, f: T -> seq<U>, y: U)
    ensures y in FlatMap(s, f) <==> exists x | x in s :: y in f(x)
  {
    if s != [] {
      FlatMapMembers(s[1..], f, y);
      assert s == [s[0]] + s[1..];
    }
  }

  /** The event is true of the difference. */
  predicate IsTrueOf(previous: Tree, current: Tree, e: WatchEvent) {
    match e
    case Add(p, kind) => p in current && p !in previous && kind == current[p].kind
    case Change(p) =>
      && p in current && p in previous && current[p].kind == File
      && (current[p].size != previous[p].size || current[p].mtime != previous[p].mtime)
    case Unlink(p, kind) => p in previous && p !in current && kind == previous[p].kind
  }

  lemma PresentTells(previous: Tree, current: Tree, s: seq<string>, e: WatchEvent)
    requires IsListing(s, current.Keys)
    ensures e in FlatMap(s, EventsOfPresent(previous, current)) <==> !e.Unlink? && IsTrueOf(previous, current, e)
  {
    FlatMapMembers(s, EventsOfPresent(previous, current), e);
    if !e.Unlink? && IsTrueOf(previous, current, e) {
      assert e.path in s && e in EventsOfPresent(previous, current)(e.path);
    }
  }

  lemma FormerTells(previous: Tree, current: Tree, s: seq<string>, e: WatchEvent)
    requires IsListing(s, previous.Keys)
    ensures e in FlatMap(s, EventsOfFormer(previous, current)) <==> e.Unlink? && IsTrueOf(previous, current, e)
  {
    FlatMapMembers(s, EventsOfFormer(previous, current), e);
    if e.Unlink? && IsTrueOf(previous, current, e) {
      assert e.path in s && e in EventsOfFormer(previous, current)(e.path);
    }
  }

  /** A difference tells exactly what is new, what is gone, and which files have another size or time. */
  lemma DiffTells(previous: Tree, current: Tree, e: WatchEvent)
    ensures e in Diff(previous, current) <==> IsTrueOf(previous, current, e)
  {
    SortedPathsAreListing(previous.Keys);
    SortedPathsAreListing(current.Keys);
    hide IsTrueOf, IsListing, IsSortedList, SortedPaths;
    PresentTells(previous, current, SortedPaths(current.Keys), e);
    FormerTells(previous, current, SortedPaths(previous.Keys), e);
  }

  /** Events in the order of their paths, no path twice. */
  predicate InPathOrder(events: seq<WatchEvent>) {
    forall i, j | 0 <= i < j < |events| :: StringLess(events[i].path, events[j].path)
  }

  /** At most one event for a path, about that path. */
  predicate TellsOnce(p: string, events: seq<WatchEvent>) {
    |events| <= 1 && (events != [] ==> events[0].path == p)
  }

  lemma {:induction false} ToldInOrder(s: seq<string>, f: string -> seq<WatchEvent>)
    requires Sorted(s, StringLess) && forall p | p in s :: TellsOnce(p, f(p))
    ensures InPathOrder(FlatMap(s, f)) && forall e | e in FlatMap(s, f) :: e.path in s
  {
    if s != [] {
      var p, rest := s[0], FlatMap(s[1..], f);
      assert s == [p] + s[1..] && p in s;
      ToldInOrder(s[1..], f);
      assert TellsOnce(p, f(p));
      forall j | 0 <= j < |rest|
        ensures StringLess(p, rest[j].path)
      {
        assert rest[j] in rest;
        var k :| 0 <= k < |s[1..]| && s[1..][k] == rest[j].path;
        assert s[k + 1] == rest[j].path;
      }
      OrderPrepend(f(p), rest, p);
    }
  }

  lemma OrderPrepend(events: seq<WatchEvent>, rest: seq<WatchEvent>, p: string)
    requires TellsOnce(p, events) && InPathOrder(rest) && forall j | 0 <= j < |rest| :: StringLess(p, rest[j].path)
    ensures InPathOrder(events + rest)
  {}

  /** What is there is told first, then what is gone, each in the order of the paths. */
  lemma DiffIsOrdered(previous: Tree, current: Tree) returns (n: nat)
    ensures n <= |Diff(previous, current)|
    ensures InPathOrder(Diff(previous, current)[..n]) && forall e | e in Diff(previous, current)[..n] :: !e.Unlink?
    ensures InPathOrder(Diff(previous, current)[n..]) && forall e | e in Diff(previous, current)[n..] :: e.Unlink?
  {
    hide IsTrueOf, SortedPaths;
    var present, former := SortedPaths(current.Keys), SortedPaths(previous.Keys);
    SortedPathsAreListing(current.Keys);
    SortedPathsAreListing(previous.Keys);
    var told, gone := FlatMap(present, EventsOfPresent(previous, current)), FlatMap(former, EventsOfFormer(previous, current));
    ToldInOrder(present, EventsOfPresent(previous, current));
    ToldInOrder(former, EventsOfFormer(previous, current));
    hide FlatMap, InPathOrder, Sorted;
    n := |told|;
    assert Diff(previous, current)[..n] == told && Diff(previous, current)[n..] == gone;
    forall e | e in told
      ensures !e.Unlink?
    {
      PresentTells(previous, current, present, e);
    }
    forall e | e in gone
      ensures e.Unlink?
    {
      FormerTells(previous, current, former, e);
    }
  }

  // ---------------------------------------------------------------- what a report leaves

  /** A report that is looked at: about a path below the root, and not about permissions only. */
  predicate IsRead(r: Report) {
    !r.chmodOnly && r.relative.Some? && r.relative.value != ""
  }

  /** The report removes the path: it is the known root of the subtree, or below it. */
  predicate Removes(previous: Tree, r: Report, p: string)
    requires r.relative.Some?
  {
    r.removed && r.relative.value in previous && InSubtree(p, r.relative.value)
  }

  lemma RemovalTells(previous: Tree, relative: string, e: WatchEvent)
    ensures e in RemovePath(previous, relative).events <==>
      relative in previous && e.Unlink? && e.path in previous && InSubtree(e.path, relative) && e.kind == previous[e.path].kind
  {
    if relative in previous {
      var s := SortedPaths(previous.Keys);
      SortedPathsAreListing(previous.Keys);
      FlatMapMembers(s, UnlinkIn(previous, relative), e);
      hide SortedPaths;
      if e.Unlink? && e.path in previous && InSubtree(e.path, relative) && e.kind == previous[e.path].kind {
        assert e.path in s && e in UnlinkIn(previous, relative)(e.path);
      }
    }
  }

  lemma RemovalIsOrdered(previous: Tree, relative: string)
    ensures InPathOrder(RemovePath(previous, relative).events)
  {
    if relative in previous {
      ToldInOrder(SortedPaths(previous.Keys), UnlinkIn(previous, relative));
      hide FlatMap, SortedPaths;
    }
  }

  lemma RemovalLeaves(previous: Tree, relative: string, p: string)
    ensures p in RemovePath(previous, relative).tree <==> p in previous && !(relative in previous && InSubtree(p, relative))
    ensures p in RemovePath(previous, relative).tree ==> RemovePath(previous, relative).tree[p] == previous[p]
  {
    hide FlatMap, SortedPaths;
  }

  /** A path that is not the one of the report keeps its entry, unless it lies below a removed path or a directory that is scanned. */
  lemma OthersKeepTheirEntries(previous: Tree, r: Report, p: string)
    requires IsReport(r) && (IsRead(r) ==> !InSubtree(p, r.relative.value))
    ensures var tree := HandleReport(previous, r).tree;
      (p in tree <==> p in previous) && (p in tree ==> tree[p] == previous[p])
  {
    hide FlatMap, SortedPaths;
    if IsRead(r) {
      RemovalLeaves(previous, r.relative.value, p);
    }
  }

  /** A report that is not looked at tells nothing and changes nothing. */
  lemma UnreadReportsChangeNothing(previous: Tree, r: Report)
    requires !IsRead(r)
    ensures HandleReport(previous, r).tree == previous && HandleReport(previous, r).events == []
  {}

  /**
   A written file is in the picture with the size and the time that were found. It is told as added exactly if the picture did
   not have it, and as changed exactly if it did with another size or another time.
   */
  lemma WrittenFileIsTaken(previous: Tree, r: Report)
    requires IsReport(r) && IsRead(r) && r.written && r.stat.Found? && r.stat.entry.kind == File
    ensures var told, p, entry := HandleReport(previous, r), r.relative.value, r.stat.entry;
      var known := p in previous && !r.removed;
      && p in told.tree && told.tree[p].size == entry.size && told.tree[p].mtime == entry.mtime
      && (Change(p) in told.events ==> told.tree[p] == entry)
      && (!known ==> told.tree[p] == entry && told.events != [] && told.events[|told.events| - 1] == Add(p, File))
      && (Change(p) in told.events <==> known && (previous[p].size != entry.size || previous[p].mtime != entry.mtime))
      && (forall kind :: Add(p, kind) in told.events <==> !known && kind == File)
  {
    var p, entry := r.relative.value, r.stat.entry;
    var removed := if r.removed then RemovePath(previous, p) else Told(previous, []);
    RemovalLeaves(previous, p, p);
    RemovalTells(previous, p, Change(p));
    forall kind
      ensures Add(p, kind) !in removed.events
    {
      RemovalTells(previous, p, Add(p, kind));
    }
    hide RemovePath;
    var told := HandleReport(previous, r);
    assert told.events == removed.events + HandleWrite(removed.tree, r).events;
  }

  /** Where a file was written, the paths below keep their entries, apart from what the same report removes. */
  lemma BelowWrittenFile(previous: Tree, r: Report, q: string)
    requires IsReport(r) && IsRead(r) && r.written && r.stat.Found? && r.stat.entry.kind == File && q != r.relative.value
    ensures var tree := HandleReport(previous, r).tree;
      (q in tree <==> q in previous && !Removes(previous, r, q)) && (q in tree ==> tree[q] == previous[q])
  {
    RemovalLeaves(previous, r.relative.value, q);
    hide RemovePath, InSubtree;
  }

  /** Where a report finds nothing, or is about a removal only, exactly what it removes is gone. */
  lemma RemovedPathIsGone(previous: Tree, r: Report, q: string)
    requires IsRead(r) && !(r.written && r.stat.Found?)
    ensures var tree := HandleReport(previous, r).tree;
      (q in tree <==> q in previous && !Removes(previous, r, q)) && (q in tree ==> tree[q] == previous[q])
  {
    RemovalLeaves(previous, r.relative.value, q);
    hide RemovePath, InSubtree;
  }

  /** Where a report finds a directory and its scan succeeds, what is below it is what the scan found. */
  lemma ScannedDirectoryIsTaken(previous: Tree, r: Report, q: string)
    requires IsReport(r) && IsRead(r) && r.written && r.stat.Found? && r.stat.entry.kind == Directory && r.scan.Some?
    requires InSubtree(q, r.relative.value)
    ensures var tree := HandleReport(previous, r).tree;
      (q in tree <==> q in r.scan.value) && (q in tree ==> tree[q] == r.scan.value[q])
  {
    hide RemovePath, InSubtree, Diff;
  }

  /** An event of a removal is told exactly for what the report removes. */
  lemma RemovalIsTold(previous: Tree, r: Report, q: string, kind: Kind)
    requires IsReport(r) && IsRead(r) && !(r.written && r.stat.Found? && r.stat.entry.kind == Directory)
    ensures Unlink(q, kind) in HandleReport(previous, r).events <==>
            q in previous && Removes(previous, r, q) && kind == previous[q].kind
  {
    var p := r.relative.value;
    var removed := if r.removed then RemovePath(previous, p) else Told(previous, []);
    RemovalTells(previous, p, Unlink(q, kind));
    hide RemovePath, InSubtree;
    assert HandleReport(previous, r).events == removed.events + HandleWrite(removed.tree, r).events;
    assert forall e | e in HandleWrite(removed.tree, r).events :: !e.Unlink?;
  }

  // ---------------------------------------------------------------- a subtree instead of everything

  lemma {:induction false} FlatMapFiltered<T, U>(s: seq<T>, p: T -> bool, f: T -> seq<U>, g: T -> seq<U>)
    requires forall x | x in s :: if p(x) then f(x) == g(x) else f(x) == []
    ensures FlatMap(s, f) == FlatMap(Filter(s, p), g)
  {
    if s != [] {
      FlatMapFiltered(s[1..], p, f, g);
      if p(s[0]) {
        FlatMapCons(s[0], Filter(s[1..], p), g);
      }
    }
  }

  function Under(root: string): string -> bool {
    (p: string) => InSubtree(p, root)
  }

  /** Rescanning a subtree is as good as rescanning everything when nothing outside the subtree differs. */
  lemma SubtreeScanSuffices(previous: Tree, disk: Tree, root: string)
    requires WithoutSubtree(previous, root) == WithoutSubtree(disk, root)
    ensures ReconcileSubtree(previous, Some(FilterSubtree(disk, root)), root) == ReconcileWorkspace(Some(previous), Some(disk))
  {
    var part, current := FilterSubtree(previous, root), FilterSubtree(disk, root);
    MergedIsDisk(previous, disk, root);
    SortedPart(disk.Keys, current.Keys, Under(root));
    SortedPart(previous.Keys, part.Keys, Under(root));
    hide IsSortedList, SortedPaths, InSubtree;
    SamePresent(previous, disk, root, SortedPaths(disk.Keys));
    SameFormer(previous, disk, root, SortedPaths(previous.Keys));
  }

  lemma SamePresent(previous: Tree, disk: Tree, root: string, s: seq<string>)
    requires WithoutSubtree(previous, root) == WithoutSubtree(disk, root)
    ensures FlatMap(s, EventsOfPresent(previous, disk))
         == FlatMap(Filter(s, Under(root)), EventsOfPresent(FilterSubtree(previous, root), FilterSubtree(disk, root)))
  {
    SameOutside(previous, disk, root);
    FlatMapFiltered(s, Under(root), EventsOfPresent(previous, disk),
                    EventsOfPresent(FilterSubtree(previous, root), FilterSubtree(disk, root)));
  }

  lemma SameFormer(previous: Tree, disk: Tree, root: string, s: seq<string>)
    requires WithoutSubtree(previous, root) == WithoutSubtree(disk, root)
    ensures FlatMap(s, EventsOfFormer(previous, disk))
         == FlatMap(Filter(s, Under(root)), EventsOfFormer(FilterSubtree(previous, root), FilterSubtree(disk, root)))
  {
    SameOutside(previous, disk, root);
    FlatMapFiltered(s, Under(root), EventsOfFormer(previous, disk),
                    EventsOfFormer(FilterSubtree(previous, root), FilterSubtree(disk, root)));
  }

  lemma SameOutside(previous: Tree, disk: Tree, root: string)
    requires WithoutSubtree(previous, root) == WithoutSubtree(disk, root)
    ensures forall p | !InSubtree(p, root) :: p in previous <==> p in disk
    ensures forall p | !InSubtree(p, root) && p in disk :: previous[p] == disk[p]
  {
    forall p | !InSubtree(p, root)
      ensures p in previous <==> p in disk
      ensures p in disk ==> previous[p] == disk[p]
    {
      assert p in WithoutSubtree(previous, root) <==> p in WithoutSubtree(disk, root);
    }
  }

  lemma MergedIsDisk(previous: Tree, disk: Tree, root: string)
    requires WithoutSubtree(previous, root) == WithoutSubtree(disk, root)
    ensures MergeSubtree(previous, FilterSubtree(disk, root), root) == disk
  {
    SameOutside(previous, disk, root);
  }
}
