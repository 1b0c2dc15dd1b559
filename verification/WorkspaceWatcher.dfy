/** The workspace watcher: it keeps the picture of the workspace up to date and publishes what changed. */
module WorkspaceWatcher {
  import opened Sequences
  import opened Ordering
  import opened WatchTree
  import opened EventServices

  /** The paths of a tree, sorted. */
  method SortedWatchPaths(tree: Tree) returns (paths: seq<string>)
    ensures paths == SortedPaths(tree.Keys) && Distinct(paths) && forall p :: p in paths <==> p in tree
  {
    var rest, found := tree.Keys, [];
    while rest != {}
      invariant rest <= tree.Keys && Distinct(found)
      invariant forall p :: p in found <==> p in tree.Keys - rest
      decreases rest
    {
      var p :| p in rest;
      assert p !in found;
      found := found + [p];
      rest := rest - {p};
    }
    StringOrder();
    paths := Sort(found, StringLess);
    SortedListIsUnique(paths, tree.Keys);
    SortedIsDistinct(paths);
  }

  /** The events told path by path, one more path. */
  lemma ToldOneMore<U>(log: seq<U>, paths: seq<string>, i: nat, f: string -> seq<U>)
    requires i < |paths|
    ensures log + FlatMap(paths[..i], f) + f(paths[i]) == log + FlatMap(paths[..i + 1], f)
    ensures |FlatMap(paths[..i], f)| + |f(paths[i])| == |FlatMap(paths[..i + 1], f)|
  {
    FlatMapOneMore(paths, i, f);
    ConcatAssociative(log, FlatMap(paths[..i], f), f(paths[i]));
  }

  lemma NothingTold<U>(paths: seq<string>, f: string -> seq<U>)
    ensures FlatMap(paths[..0], f) == []
  {}

  lemma FlatMapOneMore<T, U>(s: seq<T>, i: nat, f: T -> seq<U>)
    requires i < |s|
    ensures FlatMap(s[..i + 1], f) == FlatMap(s[..i], f) + f(s[i])
  {
    assert s[..i + 1] == s[..i] + [s[i]];
    FlatMapConcat(s[..i], [s[i]], f);
    FlatMapSingle(s[i], f);
  }

  /** What is left of a tree when some of the paths of a subtree are gone. */
  ghost predicate IsLeft(before: Tree, entries: Tree, paths: seq<string>, root: string) {
    && (forall p :: p in entries <==> p in before && !(p in paths && InSubtree(p, root)))
    && (forall p | p in entries :: entries[p] == before[p])
  }

  lemma SameUnlink(before: Tree, entries: Tree, p: string, root: string)
    requires p in entries && p in before && entries[p] == before[p]
    ensures UnlinkIn(entries, root)(p) == UnlinkIn(before, root)(p)
  {}

  lemma EverythingIsLeft(before: Tree, paths: seq<string>, root: string)
    ensures IsLeft(before, before, paths[..0], root)
  {}

  lemma TheOthersAreLeft(before: Tree, entries: Tree, paths: seq<string>, root: string)
    requires IsLeft(before, entries, paths, root) && forall p :: p in paths <==> p in before
    ensures entries == WithoutSubtree(before, root)
  {}

  lemma LeftOneLess(before: Tree, entries: Tree, paths: seq<string>, i: nat, root: string)
    requires i < |paths| && Distinct(paths) && paths[i] in before && IsLeft(before, entries, paths[..i], root)
    ensures paths[i] in entries && entries[paths[i]] == before[paths[i]]
    ensures IsLeft(before, if InSubtree(paths[i], root) then entries - {paths[i]} else entries, paths[..i + 1], root)
  {
    assert paths[..i + 1] == paths[..i] + [paths[i]];
    assert paths[i] !in paths[..i];
    hide InSubtree;
  }

  /** The removal of a subtree behind its first `i` paths: what is left, and what was told. */
  ghost predicate IsRemoving(before: Tree, log: seq<WatchEvent>, paths: seq<string>, i: nat, root: string, entries: Tree,
                             told: seq<WatchEvent>, emitted: nat)
    requires i <= |paths|
  {
    && IsLeft(before, entries, paths[..i], root)
    && told == log + FlatMap(paths[..i], UnlinkIn(before, root)) && emitted == |FlatMap(paths[..i], UnlinkIn(before, root))|
  }

  lemma RemovingStarts(before: Tree, log: seq<WatchEvent>, paths: seq<string>, root: string)
    ensures IsRemoving(before, log, paths, 0, root, before, log, 0)
  {
    NothingTold(paths, UnlinkIn(before, root));
    EverythingIsLeft(before, paths, root);
    hide FlatMap, IsLeft;
  }

  lemma RemovingTurn(before: Tree, log: seq<WatchEvent>, paths: seq<string>, i: nat, root: string, entries: Tree,
                     told: seq<WatchEvent>, emitted: nat)
    requires i < |paths| && Distinct(paths) && paths[i] in before
    requires IsRemoving(before, log, paths, i, root, entries, told, emitted)
    ensures paths[i] in entries
    ensures var now := UnlinkIn(entries, root)(paths[i]);
      IsRemoving(before, log, paths, i + 1, root, if InSubtree(paths[i], root) then entries - {paths[i]} else entries,
                 told + now, emitted + |now|)
  {
    hide FlatMap, IsLeft, InSubtree, Distinct, UnlinkIn;
    ToldOneMore(log, paths, i, UnlinkIn(before, root));
    LeftOneLess(before, entries, paths, i, root);
    SameUnlink(before, entries, paths[i], root);
  }

  lemma RemovingEnds(before: Tree, log: seq<WatchEvent>, paths: seq<string>, root: string, entries: Tree, told: seq<WatchEvent>,
                     emitted: nat)
    requires IsRemoving(before, log, paths, |paths|, root, entries, told, emitted)
    requires root in before && paths == SortedPaths(before.Keys) && forall p :: p in paths <==> p in before
    ensures var removed := RemovePath(before, root);
      entries == removed.tree && told == log + removed.events && emitted == |removed.events|
  {
    hide FlatMap, IsLeft, InSubtree, SortedPaths;
    assert paths[..|paths|] == paths;
    TheOthersAreLeft(before, entries, paths, root);
  }

  class Watcher {
    var entries: Tree
    const service: EventService<WatchEvent>

    constructor (service: EventService<WatchEvent>, scan: Tree)
      ensures this.service == service && entries == scan
    {
      this.service := service;
      entries := scan;
    }

    ghost predicate Valid()
      reads this, service, service.subscribers
    {
      service.Valid()
    }

    method Publish(event: WatchEvent)
      requires Valid()
      modifies service`version, service`log, service.subscribers
      ensures Valid() && EventsIn(service.log) == old(EventsIn(service.log)) + [event]
    {
      service.Publish(event);
    }

    method UpsertWatchEntry(entry: Entry) returns (emitted: nat)
      requires Valid()
      modifies this`entries, service`version, service`log, service.subscribers
      ensures Valid()
      ensures var told := Upsert(old(entries), entry);
        entries == told.tree && EventsIn(service.log) == old(EventsIn(service.log)) + told.events && emitted == |told.events|
    {
      emitted := 0;
      if entry.path !in entries {
        entries := entries[entry.path := entry];
        Publish(Add(entry.path, entry.kind));
        return 1;
      }
      var known := entries[entry.path];
      if entry.kind == File && (entry.size != known.size || entry.mtime != known.mtime) {
        entries := entries[entry.path := entry];
        Publish(Change(entry.path));
        return 1;
      }
    }

    method RemoveIfBelow(pathname: string, relative: string) returns (emitted: nat)
      requires Valid() && pathname in entries
      modifies this`entries, service`version, service`log, service.subscribers
      ensures Valid()
      ensures entries == if InSubtree(pathname, relative) then old(entries) - {pathname} else old(entries)
      ensures EventsIn(service.log) == old(EventsIn(service.log)) + UnlinkIn(old(entries), relative)(pathname)
      ensures emitted == |UnlinkIn(old(entries), relative)(pathname)|
    {
      hide EventsIn, IsJournal, IsFed, InSubtree;
      if InSubtree(pathname, relative) {
        var entry := entries[pathname];
        entries := entries - {pathname};
        Publish(Unlink(pathname, entry.kind));
        return 1;
      }
      return 0;
    }

    /** Forgets a path and what is below it. */
    method RemoveWatchPath(relative: string) returns (emitted: nat)
      requires Valid()
      modifies this`entries, service`version, service`log, service.subscribers
      ensures Valid()
      ensures var told := RemovePath(old(entries), relative);
        entries == told.tree && EventsIn(service.log) == old(EventsIn(service.log)) + told.events && emitted == |told.events|
    {
      hide Valid, FlatMap;
      emitted := 0;
      if relative !in entries { return; }
      hide SortedPaths, EventsIn, IsJournal, IsFed, InSubtree, Distinct, UnlinkIn, RemovePath, IsRemoving;
      ghost var before, log := entries, EventsIn(service.log);
      var paths := SortedWatchPaths(entries);
      RemovingStarts(before, log, paths, relative);
      for i := 0 to |paths|
        invariant Valid()
        invariant IsRemoving(before, log, paths, i, relative, entries, EventsIn(service.log), emitted)
      {
        RemovingTurn(before, log, paths, i, relative, entries, EventsIn(service.log), emitted);
        var n := RemoveIfBelow(paths[i], relative);
        emitted := emitted + n;
      }
      RemovingEnds(before, log, paths, relative, entries, EventsIn(service.log), emitted);
    }

    /** Publishes how one picture differs from another. */
    method PublishWatchDiff(previous: Tree, current: Tree) returns (emitted: nat)
      requires Valid()
      modifies service`version, service`log, service.subscribers
      ensures Valid()
      ensures EventsIn(service.log) == old(EventsIn(service.log)) + Diff(previous, current) && emitted == |Diff(previous, current)|
    {
      ghost var log := EventsIn(service.log);
      var present := PublishPresent(previous, current);
      var former := PublishFormer(previous, current);
      emitted := present + former;
      ConcatAssociative(log, FlatMap(SortedPaths(current.Keys), EventsOfPresent(previous, current)),
                        FlatMap(SortedPaths(previous.Keys), EventsOfFormer(previous, current)));
    }

    /** Publishes that a path is new or a file changed. */
    method PublishPresentPath(previous: Tree, current: Tree, pathname: string) returns (emitted: nat)
      requires Valid() && pathname in current
      modifies service`version, service`log, service.subscribers
      ensures Valid()
      ensures EventsIn(service.log) == old(EventsIn(service.log)) + EventsOfPresent(previous, current)(pathname)
      ensures emitted == |EventsOfPresent(previous, current)(pathname)|
    {
      var entry := current[pathname];
      if pathname !in previous {
        Publish(Add(pathname, entry.kind));
        return 1;
      }
      var known := previous[pathname];
      if entry.kind == File && (entry.size != known.size || entry.mtime != known.mtime) {
        Publish(Change(pathname));
        return 1;
      }
      return 0;
    }

    method PublishPresent(previous: Tree, current: Tree) returns (emitted: nat)
      requires Valid()
      modifies service`version, service`log, service.subscribers
      ensures Valid()
      ensures var told := FlatMap(SortedPaths(current.Keys), EventsOfPresent(previous, current));
        EventsIn(service.log) == old(EventsIn(service.log)) + told && emitted == |told|
    {
      hide FlatMap, EventsOfPresent, SortedPaths, IsSortedList, Distinct, EventsIn, IsJournal, IsFed;
      emitted := 0;
      ghost var log, f := EventsIn(service.log), EventsOfPresent(previous, current);
      var paths := SortedWatchPaths(current);
      NothingTold(paths, f);
      for i := 0 to |paths|
        invariant Valid()
        invariant EventsIn(service.log) == log + FlatMap(paths[..i], f) && emitted == |FlatMap(paths[..i], f)|
      {
        ToldOneMore(log, paths, i, f);
        var n := PublishPresentPath(previous, current, paths[i]);
        emitted := emitted + n;
      }
      assert paths[..|paths|] == paths;
    }

    method PublishFormer(previous: Tree, current: Tree) returns (emitted: nat)
      requires Valid()
      modifies service`version, service`log, service.subscribers
      ensures Valid()
      ensures var told := FlatMap(SortedPaths(previous.Keys), EventsOfFormer(previous, current));
        EventsIn(service.log) == old(EventsIn(service.log)) + told && emitted == |told|
    {
      hide FlatMap, SortedPaths, IsSortedList, Distinct, EventsIn, IsJournal, IsFed;
      emitted := 0;
      ghost var log, f := EventsIn(service.log), EventsOfFormer(previous, current);
      var paths := SortedWatchPaths(previous);
      NothingTold(paths, f);
      for i := 0 to |paths|
        invariant Valid()
        invariant EventsIn(service.log) == log + FlatMap(paths[..i], f) && emitted == |FlatMap(paths[..i], f)|
      {
        var pathname := paths[i];
        ToldOneMore(log, paths, i, f);
        if pathname !in current {
          Publish(Unlink(pathname, previous[pathname].kind));
          emitted := emitted + 1;
        }
      }
      assert paths[..|paths|] == paths;
    }

    method ReconcileWatchSubtree(scan: Option<Tree>, root: string) returns (emitted: nat)
      requires Valid()
      modifies this`entries, service`version, service`log, service.subscribers
      ensures Valid()
      ensures var told := ReconcileSubtree(old(entries), scan, root);
        entries == told.tree && EventsIn(service.log) == old(EventsIn(service.log)) + told.events && emitted == |told.events|
    {
      if scan.None? { return 0; }
      var part := FilterSubtree(entries, root);
      emitted := PublishWatchDiff(part, scan.value);
      entries := MergeSubtree(entries, scan.value, root);
    }

    method ReconcileAll(scan: Option<Tree>) returns (emitted: nat)
      requires Valid()
      modifies this`entries, service`version, service`log, service.subscribers
      ensures Valid()
      ensures var told := ReconcileWorkspace(Some(old(entries)), scan);
        entries == told.tree && EventsIn(service.log) == old(EventsIn(service.log)) + told.events && emitted == |told.events|
    {
      if scan.None? { return 0; }
      emitted := PublishWatchDiff(entries, scan.value);
      entries := scan.value;
    }

    /** One report of the platform: a removal first, then what is written. */
    method HandlePlatformWatchEvent(r: Report) returns (emitted: nat)
      requires Valid()
      modifies this`entries, service`version, service`log, service.subscribers
      ensures Valid()
      ensures var told := HandleReport(old(entries), r);
        entries == told.tree && EventsIn(service.log) == old(EventsIn(service.log)) + told.events && emitted == |told.events|
    {
      hide RemovePath, ReconcileSubtree, Upsert, EventsIn, IsJournal, IsFed;
      emitted := 0;
      if r.chmodOnly { return; }
      if r.relative.None? || r.relative.value == "" { return; }
      if r.removed {
        emitted := RemoveWatchPath(r.relative.value);
      }
      var more := 0;
      if r.written && r.stat.Found? {
        if r.stat.entry.kind == Directory {
          more := ReconcileWatchSubtree(r.scan, r.relative.value);
        } else {
          more := UpsertWatchEntry(r.stat.entry);
        }
      }
      emitted := emitted + more;
      ghost var removed := if r.removed then RemovePath(old(entries), r.relative.value) else Told(old(entries), []);
      ConcatAssociative(old(EventsIn(service.log)), removed.events, HandleWrite(removed.tree, r).events);
    }
  }
}
