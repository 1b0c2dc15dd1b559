/** The comment store: three files that the operations read and rewrite under a lock. */
module CommentStore {
  import opened Sequences
  import opened CommentModel
  import opened PublishDrafts
  import opened StoreRuns
  import opened ReadReceipts
  import Paths

  class Store {
    var comments: seq<Comment>
    var drafts: seq<Draft>
    var events: seq<Event>

    constructor ()
      ensures AllFiles() == EMPTY
    {
      comments, drafts, events := [], [], [];
    }

    ghost function AllFiles(): Files
      reads this
    {
      Files(comments, drafts, events)
    }

    /** Reads the comment file without the comments the journal says are deleted. */
    method ReadAll() returns (shown: seq<Comment>)
      ensures shown == Listed(AllFiles())
    {
      var deleted: set<string> := {};
      for i := 0 to |events|
        invariant forall id :: id in deleted <==> IsDeleted(events[..i], id)
      {
        DeletedOneMore(events, i);
        if events[i].CommentDeleted? {
          deleted := deleted + {events[i].commentId};
        }
      }
      assert events[..|events|] == events;
      shown := [];
      for i := 0 to |comments|
        invariant shown == Visible(comments[..i], events)
      {
        assert comments[..i + 1] == comments[..i] + [comments[i]];
        VisibleAppended(comments[..i], comments[i], events);
        if comments[i].id !in deleted {
          shown := shown + [comments[i]];
        }
      }
      assert comments[..|comments|] == comments;
    }

    /** The threads with a status, if one is given, that an actor, if one is given, has not seen. */
    method ListThreads(status: string, unseenBy: string) returns (threads: seq<Thread>)
      ensures threads == Filter(Threads(Listed(AllFiles()), events), ShownTo(events, status, unseenBy))
    {
      hide Filter, Normalized, Visible, Threads, ThreadSeenBy, StatusName;
      var shown := ReadAll();
      var all, normalized := ProjectThreads(shown, events);
      threads := [];
      ghost var keep := ShownTo(events, status, unseenBy);
      FilterNothing(keep);
      for i := 0 to |all|
        invariant threads == Filter(all[..i], keep)
      {
        FilterOneMore(all, i, keep);
        if status != "" && StatusName(all[i].status) != status {
          continue;
        }
        var seen := false;
        if unseenBy != "" {
          seen := IsThreadSeenBy(all[i].comments, events, all[i].id, unseenBy);
        }
        if !seen {
          threads := threads + [all[i]];
        }
      }
      assert all[..|all|] == all;
    }

    /** Adds a comment, to a thread or as the start of one; a request seen before returns the comment it added. */
    method Create(input: NewComment, now: nat, newId: string) returns (r: Result<Comment>)
      modifies this
      ensures Outcome(AllFiles(), r) == CommentModel.Create(old(AllFiles()), input, now, newId)
    {
      hide Invalid, FindReused, Visible;
      var invalid := Invalid(input.path, input.body, input.status);
      if invalid.Some? { return Err(invalid.value); }
      var comment := PublicComment(newId, input.threadId, input.path, input.anchor, input.body, input.source, input.actor, now, None);
      var shown := ReadAll();
      var clientEventId := Paths.TrimSpace(input.clientEventId);
      if input.threadId != "" && clientEventId != "" {
        var existing := CommentAddedByClientEvent(shown, events, input.threadId, input.actor.id, clientEventId);
        if existing.Some? { return Ok(existing.value); }
      }
      comments := shown + [comment];
      if input.threadId == "" {
        events := events + [ThreadCreated(comment.threadId, Open, input.actor, now)];
      } else {
        events := events + [CommentAdded(comment.threadId, newId, clientEventId, input.actor, now)];
      }
      return Ok(comment);
    }

    /** Appends one draft with the new id and the trimmed path and body; thread, status and actor are taken as they are. */
    method CreateDraft(input: NewDraft, now: nat, newId: string) returns (r: Result<Draft>)
      modifies this`drafts
      ensures IsBlank(input.path) ==> r == Err(PathRequired) && drafts == old(drafts)
      ensures !IsBlank(input.path) && IsBlank(input.body) ==> r == Err(BodyRequired) && drafts == old(drafts)
      ensures !IsBlank(input.path) && !IsBlank(input.body) ==>
        && r.Ok? && drafts == old(drafts) + [r.value] && r.value.id == newId && r.value.createdAt == r.value.updatedAt == now
        && r.value.path == Paths.TrimSpace(input.path) && r.value.body == Paths.TrimSpace(input.body)
        && r.value.threadId == input.threadId && r.value.anchor == input.anchor && r.value.source == input.source
        && r.value.actor == input.actor && r.value.status == input.status
      ensures Outcome(AllFiles(), r) == CommentModel.CreateDraft(old(AllFiles()), input, now, newId)
    {
      if IsBlank(input.path) { return Err(PathRequired); }
      if IsBlank(input.body) { return Err(BodyRequired); }
      var draft := Draft(newId, input.threadId, Paths.TrimSpace(input.path), input.anchor, Paths.TrimSpace(input.body), input.source,
                         input.actor, input.status, now, now);
      drafts := drafts + [draft];
      return Ok(draft);
    }

    method UpdateDraft(id: string, body: Option<string>, now: nat) returns (r: Result<Draft>)
      modifies this`drafts
      ensures Outcome(AllFiles(), r) == CommentModel.UpdateDraft(old(AllFiles()), id, body, now)
    {
      if IsBlank(id) { return Err(IdRequired); }
      var i := 0;
      while i < |drafts| && drafts[i].id != id
        invariant i <= |drafts| && drafts == old(drafts)
        invariant DraftIndex(drafts, id) == i + DraftIndex(drafts[i..], id)
      {
        i := i + 1;
      }
      if i == |drafts| { return Err(DraftNotFound); }
      var draft := drafts[i];
      if body.Some? {
        if IsBlank(body.value) { return Err(BodyRequired); }
        draft := draft.(body := Paths.TrimSpace(body.value));
      }
      draft := draft.(updatedAt := now);
      drafts := drafts[i := draft];
      return Ok(draft);
    }

    method DeleteDraft(id: string) returns (r: Result<Draft>)
      modifies this`drafts
      ensures Outcome(AllFiles(), r) == CommentModel.DeleteDraft(old(AllFiles()), id)
    {
      if IsBlank(id) { return Err(IdRequired); }
      var next, deleted := [], None;
      for i := 0 to |drafts|
        invariant drafts == old(drafts)
        invariant next == WithoutDraft(drafts[..i], id) && deleted == LastDraft(drafts[..i], id)
      {
        assert drafts[..i + 1][..i] == drafts[..i];
        if drafts[i].id == id {
          deleted := Some(drafts[i]);
        } else {
          next := next + [drafts[i]];
        }
      }
      assert drafts[..|drafts|] == drafts;
      if deleted.None? { return Err(DraftNotFound); }
      drafts := next;
      return Ok(deleted.value);
    }

    /** Appends a tombstone, once; only the comment of a person can be deleted. */
    method DeletePublished(id: string, now: nat) returns (r: Result<Deleted>)
      modifies this`events
      ensures Outcome(AllFiles(), r) == CommentModel.DeletePublished(old(AllFiles()), id, now)
    {
      hide Visible;
      if IsBlank(id) { return Err(IdRequired); }
      for i := 0 to |events|
        invariant events == old(events) && FirstTombstone(events, id) == FirstTombstone(events[i..], id)
      {
        if IsTombstone(events[i], id) { return Ok(Deleted(id, events[i].threadId, events[i].path)); }
      }
      var items := ReadAll();
      var found := FindById(items, id);
      if found.None? { return Err(CommentNotFound); }
      var comment := found.value;
      if comment.actor.kind != Human { return Err(OnlyHumanComments); }
      events := events + [CommentDeleted(ThreadIdOf(comment), id, comment.path, now)];
      return Ok(Deleted(id, ThreadIdOf(comment), comment.path));
    }

    method Update(id: string, body: Option<string>, hasStatus: bool, actor: Actor, now: nat) returns (r: Result<Comment>)
      modifies this
      ensures Outcome(AllFiles(), r) == CommentModel.Update(old(AllFiles()), id, body, hasStatus, actor, now)
    {
      hide Visible, IsBlank, Paths.TrimSpace;
      if hasStatus { return Err(LifecycleNotSupported); }
      if IsBlank(id) { return Err(IdRequired); }
      var shown := ReadAll();
      var i := 0;
      while i < |shown| && shown[i].id != id
        invariant i <= |shown| && CommentIndex(shown, id) == i + CommentIndex(shown[i..], id)
        invariant AllFiles() == old(AllFiles())
      {
        i := i + 1;
      }
      if i == |shown| { return Err(CommentNotFound); }
      var comment := shown[i];
      if body.Some? {
        comment := comment.(body := Paths.TrimSpace(body.value));
        events := events + [CommentUpdated(ThreadIdOf(comment), id, actor, now)];
      }
      comment := comment.(updatedAt := now);
      comments := shown[i := comment];
      return Ok(comment);
    }

    /** Records that an actor read a thread, unless the same read is on record. */
    method AppendThreadReadActivity(threadId: string, actor: Actor, clientEventId: string, now: nat) returns (r: Result<Event>)
      modifies this`events
      ensures Outcome(AllFiles(), r) == AppendThreadRead(old(AllFiles()), threadId, actor, clientEventId, now)
    {
      hide Visible, Threads, ThreadIds, Revision, FindReceipt, Normalized;
      if IsBlank(threadId) { return Err(ThreadIdRequired); }
      var shown := ReadAll();
      var threads, normalized := ProjectThreads(shown, events);
      var found := HasThreadId(threads, threadId, shown, events);
      if !found { return Err(ThreadNotFound); }
      var key := Explicit(clientEventId);
      if IsBlank(clientEventId) {
        var revision := CollectRevision(shown, threadId);
        key := Passive(revision);
      }
      if actor.id == "unknown" { return Err(ActorRequired); }
      var receipt := LookUpReceipt(events, threadId, actor.id, key);
      if receipt.Some? { return Ok(receipt.value); }
      var event := ThreadRead(threadId, RecordedKey(key), actor, now);
      events := events + [event];
      return Ok(event);
    }

    /** The published comments with the status of their threads, for a path, a status and a review batch if these are given. */
    method List(filters: Filters) returns (shown: seq<Comment>)
      ensures shown == Filter(Normalized(Listed(AllFiles()), events), Passing(filters))
    {
      hide Filter, Normalized, Visible, Threads, StatusName;
      var all := ReadAll();
      var threads, normalized := ProjectThreads(all, events);
      shown := [];
      FilterNothing(Passing(filters));
      for i := 0 to |normalized|
        invariant shown == Filter(normalized[..i], Passing(filters))
      {
        FilterOneMore(normalized, i, Passing(filters));
        var comment := normalized[i];
        if filters.path != "" && comment.path != filters.path {
          continue;
        }
        if filters.status != "" && StatusName(comment.status) != filters.status {
          continue;
        }
        if filters.reviewBatchId != "" && comment.reviewBatchId != Some(filters.reviewBatchId) {
          continue;
        }
        shown := shown + [comment];
      }
      assert normalized[..|normalized|] == normalized;
    }

    /**
     Publishes the selected drafts as one batch. The ids are drawn from the two supplies; nothing is written before all
     drafts are placed.
     */
    method PublishDrafts(ids: seq<string>, actor: Actor, now: nat, reviewBatchId: string, threadIds: nat -> string,
                         commentIds: nat -> string) returns (r: Result<Publication>)
      modifies this
      ensures var f := old(AllFiles());
        Outcome(AllFiles(), r) ==
          Publish(f, ids, PublishBatch(f, PublishOp(ids, actor, reviewBatchId, threadIds, commentIds), now))
    {
      hide Visible, Threads, Normalized, PlanDrafts, BatchEvents, ThreadStatuses, Filter;
      var selected, remaining := SelectDrafts(drafts, ids);
      ghost var f := AllFiles();
      ghost var op := PublishOp(ids, actor, reviewBatchId, threadIds, commentIds);
      if |selected| == 0 { return Err(NothingToPublish); }
      var shown := ReadAll();
      var existingThreads, normalized := ProjectThreads(shown, events);
      var existing := StatusById(existingThreads, shown, events);
      var b := Batch(existing, selected, actor, now, reviewBatchId, seq(|selected|, threadIds), seq(|selected|, commentIds));
      assert b == PublishBatch(f, op, now);
      var plan := PlaceDrafts(b);
      if plan.Err? { return Err(plan.error); }
      comments := normalized + plan.value.published;
      var newEvents := CollectEvents(plan.value.published, plan.value.created);
      events := events + newEvents;
      drafts := remaining;
      var threads, _ := ProjectThreads(comments, events);
      var impacted := ImpactedThreads(threads, plan.value.published);
      return Ok(Publication(reviewBatchId, now, impacted));
    }
  }

  /** What a listing is restricted to; "" restricts nothing. */
  datatype Filters = Filters(path: string, status: string, reviewBatchId: string)

  function StatusName(status: Status): string {
    match status
    case Open => "open"
    case Resolved => "resolved"
    case Archived => "archived"
  }

  function Passing(filters: Filters): Comment -> bool {
    (c: Comment) =>
      && (filters.path == "" || c.path == filters.path)
      && (filters.status == "" || StatusName(c.status) == filters.status)
      && (filters.reviewBatchId == "" || c.reviewBatchId == Some(filters.reviewBatchId))
  }

  // ---------------------------------------------------------------- publishing

  method SelectDrafts(drafts: seq<Draft>, ids: seq<string>) returns (selected: seq<Draft>, remaining: seq<Draft>)
    ensures selected == Filter(drafts, Wanted(ids)) && remaining == Filter(drafts, Unwanted(ids))
  {
    selected, remaining := [], [];
    for i := 0 to |drafts|
      invariant selected == Filter(drafts[..i], Wanted(ids)) && remaining == Filter(drafts[..i], Unwanted(ids))
    {
      FilterOneMore(drafts, i, Wanted(ids));
      FilterOneMore(drafts, i, Unwanted(ids));
      if ids == [] || drafts[i].id in ids {
        selected := selected + [drafts[i]];
      } else {
        remaining := remaining + [drafts[i]];
      }
    }
    assert drafts[..|drafts|] == drafts;
  }

  lemma {:induction false} ThreadsForAre(comments: seq<Comment>, events: seq<Event>, ids: seq<string>, i: nat)
    requires (forall id | id in ids :: id in ThreadIds(comments)) && i < |ids|
    ensures CommentsOf(comments, ids[i]) != [] && ThreadsFor(comments, events, ids)[i] == ThreadOf(comments, events, ids[i])
  {
    ThreadsHaveComments(comments, ids[i]);
    if i < |ids| - 1 {
      ThreadsForAre(comments, events, ids[..|ids| - 1], i);
    }
  }

  method StatusById(threads: seq<Thread>, ghost comments: seq<Comment>, ghost events: seq<Event>) returns (existing: map<string, Status>)
    requires threads == Threads(comments, events)
    ensures existing == ThreadStatuses(comments, events)
  {
    hide CommentsOf, StatusOf, WithStatus;
    ghost var ids := ThreadIds(comments);
    existing := map[];
    for i := 0 to |threads|
      invariant forall id :: id in existing <==> id in ids[..i]
      invariant forall id | id in existing :: CommentsOf(comments, id) != [] && existing[id] == StatusOf(comments, events, id)
    {
      ThreadsForAre(comments, events, ids, i);
      assert ids[..i + 1] == ids[..i] + [ids[i]];
      existing := existing[threads[i].id := threads[i].status];
    }
    assert ids[..|threads|] == ids;
  }

  /** The loop over the selected drafts. */
  method PlaceDrafts(b: Batch) returns (r: Result<Plan>)
    requires HasIds(b)
    ensures r == PlanDrafts(b, |b.selected|)
  {
    hide PlaceDraft, CommentOf, Invalid;
    var plan := NO_PLAN;
    for i := 0 to |b.selected|
      invariant PlanDrafts(b, i) == Ok(plan)
    {
      var d := b.selected[i];
      var placed := Place(b, plan, d, b.threadIds[i]);
      if placed.Err? {
        ErrorsStay(b, i + 1, |b.selected|);
        return Err(placed.error);
      }
      var invalid := Invalid(d.path, d.body, d.status);
      if invalid.Some? {
        ErrorsStay(b, i + 1, |b.selected|);
        return Err(invalid.value);
      }
      plan := placed.value.plan.(published := plan.published + [CommentOf(b, i, placed.value.threadId)]);
      PlaceExtends(b, PlanDrafts(b, i).value, d, b.threadIds[i]);
    }
    r := Ok(plan);
  }

  lemma {:induction false} ErrorsStay(b: Batch, m: nat, n: nat)
    requires HasIds(b) && m <= n <= |b.selected| && PlanDrafts(b, m).Err?
    ensures PlanDrafts(b, n) == PlanDrafts(b, m)
  {
    hide PlanOne;
    if m < n {
      ErrorsStay(b, m, n - 1);
    }
  }

  /** The thread of one draft; groups and created threads are updated on the way. */
  method Place(b: Batch, plan: Plan, d: Draft, newId: string) returns (r: Result<Placed>)
    ensures r == PlaceDraft(b, plan, d, newId)
  {
    var threadId := Paths.TrimSpace(d.threadId);
    var byGroup, created := plan.byGroup, plan.created;
    if threadId != "" {
      if threadId in b.existing {
        if b.existing[threadId] != Open { return Err(TargetNotOpen); }
        return Ok(Placed(d.threadId, plan));
      }
      var target := DraftOnlyTarget(threadId);
      if target == "" || !IsSelected(b, target) { return Err(TargetNotFound); }
      if DraftThread(target) !in byGroup {
        byGroup, created := byGroup[DraftThread(target) := newId], created + {newId};
      }
      threadId := byGroup[DraftThread(target)];
    } else {
      var key, place := DraftThread(d.id), GroupKey.Place(d.path, d.anchor);
      if key in byGroup {
        threadId := byGroup[key];
      } else {
        if place !in byGroup {
          byGroup, created := byGroup[place := newId], created + {newId};
        }
        threadId := byGroup[place];
      }
      byGroup := byGroup[key := threadId];
    }
    return Ok(Placed(threadId, plan.(byGroup := byGroup, created := created)));
  }

  /** The loop that appends the events; a thread is created with its first comment. */
  method CollectEvents(published: seq<Comment>, created: set<string>) returns (events: seq<Event>)
    ensures events == BatchEvents(published, created)
  {
    events := [];
    var toCreate := created;
    for i := 0 to |published|
      invariant events + BatchEvents(published[i..], toCreate) == BatchEvents(published, created)
    {
      var c := published[i];
      assert published[i..][1..] == published[i + 1..];
      ghost var rest := BatchEvents(published[i + 1..], toCreate - {c.threadId});
      ghost var before := events;
      var e;
      if c.threadId in toCreate {
        e := ThreadCreated(c.threadId, c.status, c.actor, c.createdAt);
      } else {
        e := CommentAdded(c.threadId, c.id, "", c.actor, c.createdAt);
      }
      events := events + [e];
      toCreate := toCreate - {c.threadId};
      ConcatAssociative(before, [e], rest);
    }
  }

  method ImpactedThreads(threads: seq<Thread>, published: seq<Comment>) returns (impacted: seq<Thread>)
    ensures impacted == Filter(threads, Impacted(published))
  {
    impacted := [];
    for i := 0 to |threads|
      invariant impacted == Filter(threads[..i], Impacted(published))
    {
      FilterOneMore(threads, i, Impacted(published));
      if exists c | c in published :: c.threadId == threads[i].id {
        impacted := impacted + [threads[i]];
      }
    }
    assert threads[..|threads|] == threads;
  }

  // ---------------------------------------------------------------- lookups

  method FindById(comments: seq<Comment>, id: string) returns (r: Option<Comment>)
    ensures r == FindComment(comments, id)
  {
    for i := 0 to |comments|
      invariant FindComment(comments, id) == FindComment(comments[i..], id)
    {
      if comments[i].id == id { return Some(comments[i]); }
    }
    return None;
  }

  method CommentAddedByClientEvent(comments: seq<Comment>, events: seq<Event>, threadId: string, actorId: string, clientEventId: string)
    returns (r: Option<Comment>)
    ensures r == FindReused(comments, events, threadId, actorId, clientEventId)
  {
    for i := 0 to |events|
      invariant FindReused(comments, events, threadId, actorId, clientEventId)
             == FindReused(comments, events[i..], threadId, actorId, clientEventId)
    {
      if IsSameRequest(events[i], threadId, actorId, clientEventId) {
        var found := FindById(comments, events[i].commentId);
        if found.Some? { return found; }
      }
    }
    return None;
  }

  method CollectRevision(comments: seq<Comment>, threadId: string) returns (revision: seq<Feedback>)
    ensures revision == Revision(comments, threadId)
  {
    revision := [];
    for i := 0 to |comments|
      invariant revision == Revision(comments[..i], threadId)
    {
      var c := comments[i];
      assert comments[..i + 1][..i] == comments[..i];
      if (ThreadIdOf(c) == threadId || c.id == threadId) && c.source == "human" {
        revision := revision + [Feedback(c.id, c.updatedAt, c.body)];
      }
    }
    assert comments[..|comments|] == comments;
  }

  method LookUpReceipt(events: seq<Event>, threadId: string, actorId: string, key: ReadKey) returns (r: Option<Event>)
    ensures r == FindReceipt(events, threadId, actorId, key)
  {
    for i := 0 to |events|
      invariant FindReceipt(events, threadId, actorId, key) == FindReceipt(events[i..], threadId, actorId, key)
    {
      if IsReceipt(events[i], threadId, actorId, key) { return Some(events[i]); }
    }
    return None;
  }

  method HasThreadId(threads: seq<Thread>, threadId: string, ghost comments: seq<Comment>, ghost events: seq<Event>)
    returns (found: bool)
    requires threads == Threads(comments, events)
    ensures found <==> threadId in ThreadIds(comments)
  {
    ghost var ids := ThreadIds(comments);
    ThreadsHaveIds(comments, events);
    hide Threads, ThreadIds;
    for i := 0 to |threads|
      invariant forall j | 0 <= j < i :: ids[j] != threadId
    {
      if threads[i].id == threadId { return true; }
    }
    return false;
  }

  lemma ThreadsHaveIds(comments: seq<Comment>, events: seq<Event>)
    ensures |Threads(comments, events)| == |ThreadIds(comments)|
    ensures forall i | 0 <= i < |ThreadIds(comments)| :: Threads(comments, events)[i].id == ThreadIds(comments)[i]
  {
    var ids := ThreadIds(comments);
    forall i | 0 <= i < |ids|
      ensures Threads(comments, events)[i].id == ids[i]
    {
      ThreadsForAre(comments, events, ids, i);
      hide CommentsOf, StatusOf, ThreadIds, ThreadsFor;
    }
  }

  /** The filter of a thread listing: all threads, those of a status, those that an actor has not seen. */
  function ShownTo(events: seq<Event>, status: string, unseenBy: string): Thread -> bool {
    (t: Thread) =>
      && (status == "" || StatusName(t.status) == status)
      && (unseenBy == "" || !ThreadSeenBy(t.comments, events, t.id, unseenBy))
  }

  lemma {:induction false} LatestIgnoresStatus(comments: seq<Comment>, status: Status)
    ensures LatestHuman(WithStatus(comments, status)) == LatestHuman(comments)
  {
    if comments != [] {
      var n := |comments| - 1;
      assert WithStatus(comments, status)[..n] == WithStatus(comments[..n], status);
      LatestIgnoresStatus(comments[..n], status);
    }
  }

  /** A listing has the threads of the status asked for, if any, and leaves out exactly those that the actor asked for, if any, has seen. */
  lemma ListingLeavesOutTheSeen(f: Files, id: string, status: string, unseenBy: string)
    requires CommentsOf(Listed(f), id) != []
    ensures ShownTo(f.events, status, unseenBy)(ThreadOf(Listed(f), f.events, id)) <==>
            (status != "" ==> IsNamed(StatusOf(Listed(f), f.events, id), status)) && (unseenBy != "" ==> !SeenBy(f, id, unseenBy))
  {
    LatestIgnoresStatus(CommentsOf(Listed(f), id), StatusOf(Listed(f), f.events, id));
  }

  predicate IsNamed(status: Status, name: string) {
    (status.Open? && name == "open") || (status.Resolved? && name == "resolved") || (status.Archived? && name == "archived")
  }

  /** A listing has exactly the comments of the path, the status and the review batch asked for, each if any. */
  lemma ListingMeans(comments: seq<Comment>, filters: Filters, c: Comment)
    ensures c in Filter(comments, Passing(filters)) <==>
            && c in comments && (filters.path != "" ==> c.path == filters.path)
            && (filters.status != "" ==> IsNamed(c.status, filters.status))
            && (filters.reviewBatchId != "" ==> c.reviewBatchId == Some(filters.reviewBatchId))
  {
    FilterMembers(comments, Passing(filters));
    hide Filter;
    assert Passing(filters)(c) <==>
             && (filters.path != "" ==> c.path == filters.path)
             && (filters.status != "" ==> IsNamed(c.status, filters.status))
             && (filters.reviewBatchId != "" ==> c.reviewBatchId == Some(filters.reviewBatchId));
  }

  lemma DeletedOneMore(events: seq<Event>, i: nat)
    requires i < |events|
    ensures forall id :: IsDeleted(events[..i + 1], id) <==> IsDeleted(events[..i], id) || IsTombstone(events[i], id)
  {
    assert events[..i + 1] == events[..i] + [events[i]];
  }

  // ---------------------------------------------------------------- projecting threads

  /** What is known of the threads after some comments: ids, positions of ids, comments and statuses. */
  ghost predicate Projected(comments: seq<Comment>, ids: seq<string>, byId: map<string, nat>, lists: seq<seq<Comment>>,
                            statuses: seq<Status>)
  {
    && ids == ThreadIds(comments)
    && |lists| == |statuses| == |ids|
    && (forall id | id in byId :: byId[id] < |ids| && ids[byId[id]] == id)
    && (forall k | 0 <= k < |ids| :: ids[k] in byId)
    && (forall k | 0 <= k < |ids| :: IsThread(comments, ids[k], lists[k], statuses[k]))
  }

  ghost predicate IsThread(comments: seq<Comment>, id: string, list: seq<Comment>, status: Status) {
    list != [] && list == CommentsOf(comments, id) && status == CommentStatus(list)
  }

  method GroupByThread(comments: seq<Comment>)
    returns (ids: seq<string>, byId: map<string, nat>, lists: seq<seq<Comment>>, statuses: seq<Status>)
    ensures Projected(comments, ids, byId, lists, statuses)
  {
    ids, byId, lists, statuses := [], map[], [], [];
    for i := 0 to |comments|
      invariant Projected(comments[..i], ids, byId, lists, statuses)
    {
      var c := WithThreadId(comments[i]);
      assert comments[..i + 1][..i] == comments[..i];
      if c.threadId !in byId {
        AddThread(comments, i, ids, byId, lists, statuses);
        byId := byId[c.threadId := |ids|];
        ids, lists, statuses := ids + [c.threadId], lists + [[c]], statuses + [c.status];
      } else {
        var k := byId[c.threadId];
        GrowThread(comments, i, ids, byId, lists, statuses);
        lists := lists[k := lists[k] + [c]];
        if Rank(c.status) > Rank(statuses[k]) {
          statuses := statuses[k := c.status];
        }
      }
    }
    assert comments[..|comments|] == comments;
  }

  lemma ThreadStays(comments: seq<Comment>, i: nat, id: string, list: seq<Comment>, status: Status)
    requires i < |comments| && IsThread(comments[..i], id, list, status) && ThreadIdOf(comments[i]) != id
    ensures IsThread(comments[..i + 1], id, list, status)
  {
    assert comments[..i + 1][..i] == comments[..i];
  }

  lemma ThreadGrows(comments: seq<Comment>, i: nat, id: string, list: seq<Comment>, status: Status)
    requires i < |comments| && IsThread(comments[..i], id, list, status) && ThreadIdOf(comments[i]) == id
    ensures var c := WithThreadId(comments[i]);
      IsThread(comments[..i + 1], id, list + [c], if Rank(c.status) > Rank(status) then c.status else status)
  {
    assert comments[..i + 1][..i] == comments[..i];
    assert (list + [WithThreadId(comments[i])])[..|list|] == list;
  }

  lemma ThreadStarts(comments: seq<Comment>, i: nat)
    requires i < |comments| && ThreadIdOf(comments[i]) !in ThreadIds(comments[..i])
    ensures var c := WithThreadId(comments[i]); IsThread(comments[..i + 1], c.threadId, [c], c.status)
  {
    assert comments[..i + 1][..i] == comments[..i];
    ThreadsHaveComments(comments[..i], ThreadIdOf(comments[i]));
  }

  lemma ThreadIdsOneMore(comments: seq<Comment>, i: nat)
    requires i < |comments|
    ensures ThreadIds(comments[..i + 1])
         == ThreadIds(comments[..i]) + if ThreadIdOf(comments[i]) in ThreadIds(comments[..i]) then [] else [ThreadIdOf(comments[i])]
  {
    assert comments[..i + 1][..i] == comments[..i];
  }

  lemma AddThread(comments: seq<Comment>, i: nat, ids: seq<string>, byId: map<string, nat>, lists: seq<seq<Comment>>,
                  statuses: seq<Status>)
    requires i < |comments| && Projected(comments[..i], ids, byId, lists, statuses)
    requires ThreadIdOf(comments[i]) !in byId
    ensures var c := WithThreadId(comments[i]);
      Projected(comments[..i + 1], ids + [c.threadId], byId[c.threadId := |ids|], lists + [[c]], statuses + [c.status])
  {
    hide IsThread, ThreadIds;
    assert ThreadIdOf(comments[i]) !in ids;
    ThreadIdsOneMore(comments, i);
    ThreadStarts(comments, i);
    forall k | 0 <= k < |ids|
      ensures IsThread(comments[..i + 1], ids[k], lists[k], statuses[k])
    {
      ThreadStays(comments, i, ids[k], lists[k], statuses[k]);
    }
  }

  lemma GrowThread(comments: seq<Comment>, i: nat, ids: seq<string>, byId: map<string, nat>, lists: seq<seq<Comment>>,
                   statuses: seq<Status>)
    requires i < |comments| && Projected(comments[..i], ids, byId, lists, statuses)
    requires ThreadIdOf(comments[i]) in byId
    ensures var c, k := WithThreadId(comments[i]), byId[ThreadIdOf(comments[i])];
      k < |ids| &&
      Projected(comments[..i + 1], ids, byId, lists[k := lists[k] + [c]],
                statuses[k := if Rank(c.status) > Rank(statuses[k]) then c.status else statuses[k]])
  {
    hide IsThread, ThreadIds;
    var k := byId[ThreadIdOf(comments[i])];
    ThreadIdsOneMore(comments, i);
    ThreadIdsAreDistinct(comments[..i]);
    ThreadGrows(comments, i, ids[k], lists[k], statuses[k]);
    forall j | 0 <= j < |ids| && j != k
      ensures IsThread(comments[..i + 1], ids[j], lists[j], statuses[j])
    {
      ThreadStays(comments, i, ids[j], lists[j], statuses[j]);
    }
  }

  /** Lets the events of the journal set the statuses. */
  method ApplyEvents(ids: seq<string>, byId: map<string, nat>, first: seq<Status>, events: seq<Event>) returns (statuses: seq<Status>)
    requires |first| == |ids| && (forall id | id in byId :: byId[id] < |ids| && ids[byId[id]] == id)
    requires (forall k | 0 <= k < |ids| :: ids[k] in byId) && (forall j, k | 0 <= j < k < |ids| :: ids[j] != ids[k])
    ensures |statuses| == |ids| && forall k | 0 <= k < |ids| :: statuses[k] == StatusAfter(first[k], events, ids[k])
  {
    statuses := first;
    for i := 0 to |events|
      invariant |statuses| == |ids|
      invariant forall k | 0 <= k < |ids| :: statuses[k] == StatusAfter(first[k], events[..i], ids[k])
    {
      var e := events[i];
      assert events[..i + 1][..i] == events[..i];
      if (e.ThreadCreated? || e.StatusChanged?) && e.threadId in byId {
        statuses := statuses[byId[e.threadId] := e.status];
      }
    }
    assert events[..|events|] == events;
  }

  method BuildThreads(comments: seq<Comment>, events: seq<Event>, ids: seq<string>, lists: seq<seq<Comment>>, statuses: seq<Status>)
    returns (threads: seq<Thread>)
    requires |lists| == |statuses| == |ids| && forall id | id in ids :: id in ThreadIds(comments)
    requires forall k | 0 <= k < |ids| :: lists[k] != [] && lists[k] == CommentsOf(comments, ids[k])
    requires forall k | 0 <= k < |ids| :: statuses[k] == StatusAfter(CommentStatus(lists[k]), events, ids[k])
    ensures threads == ThreadsFor(comments, events, ids)
  {
    hide CommentsOf, StatusAfter, CommentStatus, ThreadIds;
    threads := [];
    for k := 0 to |ids|
      invariant threads == ThreadsFor(comments, events, ids[..k])
    {
      assert ids[..k + 1][..k] == ids[..k];
      assert Thread(ids[k], statuses[k], WithStatus(lists[k], statuses[k])) == ThreadOf(comments, events, ids[k]);
      threads := threads + [Thread(ids[k], statuses[k], WithStatus(lists[k], statuses[k]))];
    }
    assert ids[..|ids|] == ids;
  }

  method NormalizeComments(comments: seq<Comment>, ghost events: seq<Event>, ids: seq<string>, byId: map<string, nat>,
                           statuses: seq<Status>) returns (normalized: seq<Comment>)
    requires ids == ThreadIds(comments) && |statuses| == |ids|
    requires (forall k | 0 <= k < |ids| :: ids[k] in byId) && forall id | id in byId :: byId[id] < |ids| && ids[byId[id]] == id
    requires forall k | 0 <= k < |ids| :: CommentsOf(comments, ids[k]) != [] && statuses[k] == StatusOf(comments, events, ids[k])
    ensures normalized == Normalized(comments, events)
  {
    hide CommentsOf, StatusOf, ThreadIds;
    normalized := [];
    for i := 0 to |comments|
      invariant |normalized| == i && forall j | 0 <= j < i :: normalized[j] == Normalized(comments, events)[j]
    {
      ThreadsHaveComments(comments, ThreadIdOf(comments[i]));
      assert comments[i] in comments;
      var c := WithThreadId(comments[i]);
      normalized := normalized + [c.(status := statuses[byId[c.threadId]])];
    }
  }

  /** Projects comments on threads; the comments take over their thread id and the status of their thread. */
  method ProjectThreads(comments: seq<Comment>, events: seq<Event>) returns (threads: seq<Thread>, normalized: seq<Comment>)
    ensures threads == Threads(comments, events) && normalized == Normalized(comments, events)
  {
    var ids, byId, lists, statuses := GroupByThread(comments);
    ThreadIdsAreDistinct(comments);
    ghost var first := statuses;
    statuses := ApplyEvents(ids, byId, statuses, events);
    hide CommentsOf, StatusAfter, CommentStatus, ThreadIds;
    threads := BuildThreads(comments, events, ids, lists, statuses);
    normalized := NormalizeComments(comments, events, ids, byId, statuses);
  }
}
