/**
 Runs of the comment store: the operations of all clients in the order in which the lock admits them, and steps in which
 another process overwrites the comment file.
 */
module StoreRuns {
  import opened Sequences
  import opened CommentModel
  import opened PublishDrafts
  import Paths

  datatype Op =
    | CreateOp(comment: NewComment, newId: string)
    | CreateDraftOp(draft: NewDraft, newId: string)
    | UpdateDraftOp(id: string, body: Option<string>)
    | DeleteDraftOp(id: string)
    | DeletePublishedOp(id: string)
    | PublishOp(ids: seq<string>, actor: Actor, reviewBatchId: string, threadIds: nat -> string, commentIds: nat -> string)
    | UpdateOp(id: string, body: Option<string>, hasStatus: bool, actor: Actor)
    | ReadOp(threadId: string, actor: Actor, clientEventId: string)
    | OverwriteOp(comments: seq<Comment>)

  const EMPTY := Files([], [], [])

  /** The batch of a publish step; it draws as many ids as there are drafts. */
  function PublishBatch(f: Files, op: Op, now: nat): (b: Batch)
    requires op.PublishOp?
    ensures HasIds(b) && b.selected == Filter(f.drafts, Wanted(op.ids))
  {
    var n := |Filter(f.drafts, Wanted(op.ids))|;
    BatchOf(f, op.ids, op.actor, now, op.reviewBatchId, seq(n, op.threadIds), seq(n, op.commentIds))
  }

  function Step(f: Files, op: Op, now: nat): Files {
    match op
    case CreateOp(comment, newId) => Create(f, comment, now, newId).files
    case CreateDraftOp(draft, newId) => CreateDraft(f, draft, now, newId).files
    case UpdateDraftOp(id, body) => UpdateDraft(f, id, body, now).files
    case DeleteDraftOp(id) => DeleteDraft(f, id).files
    case DeletePublishedOp(id) => DeletePublished(f, id, now).files
    case PublishOp(ids, _, _, _, _) => Publish(f, ids, PublishBatch(f, op, now)).files
    case UpdateOp(id, body, hasStatus, actor) => Update(f, id, body, hasStatus, actor, now).files
    case ReadOp(threadId, actor, clientEventId) => AppendThreadRead(f, threadId, actor, clientEventId, now).files
    case OverwriteOp(comments) => f.(comments := comments)
  }

  /** The files after some steps, each with its time. */
  function Run(f: Files, steps: seq<(Op, nat)>): Files {
    if steps == [] then f
    else Step(Run(f, steps[..|steps| - 1]), steps[|steps| - 1].0, steps[|steps| - 1].1)
  }

  /** The comments that a listing shows. */
  function Listed(f: Files): seq<Comment> {
    Visible(f.comments, f.events)
  }

  // ---------------------------------------------------------------- the journal

  lemma StepAppends(f: Files, op: Op, now: nat)
    ensures f.events <= Step(f, op, now).events
  {
    hide Publish, PublishBatch, Invalid, FindReused, FindComment, FirstTombstone, FindReceipt, ThreadIds, Revision, CommentIndex, Visible,
         IsBlank, PublicComment, DraftIndex, LastDraft, WithoutDraft;
    if op.PublishOp? {
      PublishAppends(f, op.ids, PublishBatch(f, op, now));
    }
  }

  /** Whatever happens, the journal is only appended to. */
  lemma {:induction false} JournalOnlyGrows(f: Files, steps: seq<(Op, nat)>)
    ensures f.events <= Run(f, steps).events
  {
    if steps != [] {
      JournalOnlyGrows(f, steps[..|steps| - 1]);
      StepAppends(Run(f, steps[..|steps| - 1]), steps[|steps| - 1].0, steps[|steps| - 1].1);
    }
  }

  // ---------------------------------------------------------------- deletion

  lemma {:induction false} FirstTombstoneStays(events: seq<Event>, more: seq<Event>, id: string)
    requires events <= more && IsDeleted(events, id)
    ensures FirstTombstone(more, id) == FirstTombstone(events, id) && IsDeleted(more, id)
  {
    if !IsTombstone(events[0], id) {
      assert IsDeleted(events[1..], id) by {
        var e :| e in events && IsTombstone(e, id);
        assert e in events[1..];
      }
      FirstTombstoneStays(events[1..], more[1..], id);
    }
    assert FirstTombstone(more, id).Some?;
  }

  /**
   A deleted comment never comes back: whatever operations follow, and whatever another process writes into the comment
   file, no listing shows it and no thread contains it.
   */
  lemma DeletedNeverReturns(f: Files, steps: seq<(Op, nat)>, id: string)
    requires IsDeleted(f.events, id)
    ensures forall c | c in Listed(Run(f, steps)) :: c.id != id
    ensures forall t | t in Threads(Listed(Run(f, steps)), Run(f, steps).events) :: forall c | c in t.comments :: c.id != id
  {
    var g := Run(f, steps);
    JournalOnlyGrows(f, steps);
    FirstTombstoneStays(f.events, g.events, id);
    forall c | c in Listed(g)
      ensures c.id != id
    {
      assert !IsDeleted(g.events, c.id);
    }
    ThreadsShowTheListed(Listed(g), g.events, ThreadIds(Listed(g)), id);
  }

  /** What threads contain is listed. */
  lemma {:induction false} ThreadsShowTheListed(comments: seq<Comment>, events: seq<Event>, ids: seq<string>, id: string)
    requires forall t | t in ids :: t in ThreadIds(comments)
    requires forall c | c in comments :: c.id != id
    ensures forall t | t in ThreadsFor(comments, events, ids) :: forall c | c in t.comments :: c.id != id
  {
    if ids != [] {
      var last := ids[|ids| - 1];
      ThreadsShowTheListed(comments, events, ids[..|ids| - 1], id);
      ThreadsHaveComments(comments, last);
      ThreadShowsTheListed(comments, last, id);
      var thread := ThreadOf(comments, events, last);
      forall c | c in thread.comments
        ensures c.id != id
      {
        var i :| 0 <= i < |thread.comments| && thread.comments[i] == c;
        assert CommentsOf(comments, last)[i].id == c.id;
      }
    }
  }

  lemma {:induction false} ThreadShowsTheListed(comments: seq<Comment>, threadId: string, id: string)
    requires forall c | c in comments :: c.id != id
    ensures forall i | 0 <= i < |CommentsOf(comments, threadId)| :: CommentsOf(comments, threadId)[i].id != id
  {
    if comments != [] {
      ThreadShowsTheListed(comments[..|comments| - 1], threadId, id);
      assert comments[|comments| - 1] in comments;
    }
  }

  /** Deleting again, after any steps, returns what the first deletion returned and changes nothing. */
  lemma DeletingAgainIsTheSame(f: Files, id: string, now: nat, steps: seq<(Op, nat)>, later: nat)
    requires DeletePublished(f, id, now).result.Ok?
    ensures var first := DeletePublished(f, id, now);
      var g := Run(first.files, steps);
      IsDeleted(first.files.events, id) && DeletePublished(g, id, later) == Outcome(g, first.result)
  {
    var first := DeletePublished(f, id, now);
    var g := Run(first.files, steps);
    if FirstTombstone(f.events, id).None? {
      var tombstone := first.files.events[|f.events|];
      assert tombstone in first.files.events && IsTombstone(tombstone, id);
      FirstTombstoneAppended(f.events, tombstone, id);
    }
    JournalOnlyGrows(first.files, steps);
    FirstTombstoneStays(first.files.events, g.events, id);
  }

  lemma {:induction false} FirstTombstoneAppended(events: seq<Event>, tombstone: Event, id: string)
    requires !IsDeleted(events, id) && IsTombstone(tombstone, id)
    ensures FirstTombstone(events + [tombstone], id) == Some(tombstone)
  {
    if events == [] {
      assert events + [tombstone] == [tombstone];
    } else {
      assert events[0] in events;
      assert (events + [tombstone])[1..] == events[1..] + [tombstone];
      assert forall e | e in events[1..] :: e in events;
      FirstTombstoneAppended(events[1..], tombstone, id);
    }
  }

  // ---------------------------------------------------------------- drafts

  /** The drafts that a step publishes. */
  function Selected(f: Files, op: Op): seq<Draft> {
    if op.PublishOp? then Filter(f.drafts, Wanted(op.ids)) else []
  }

  lemma PublishIgnoresOthers(f: Files, g: Files, op: Op, now: nat)
    requires op.PublishOp? && f.comments == g.comments && f.events == g.events && Selected(f, op) == Selected(g, op)
    ensures Step(f, op, now).comments == Step(g, op, now).comments
    ensures Step(f, op, now).events == Step(g, op, now).events
  {
    assert PublishBatch(f, op, now) == PublishBatch(g, op, now);
    hide PublishBatch, PlanDrafts, BatchEvents, Normalized, Visible;
  }

  /** What is published depends on no draft but the selected ones. */
  lemma DraftsStayPrivate(f: Files, g: Files, op: Op, now: nat)
    requires f.comments == g.comments && f.events == g.events && Selected(f, op) == Selected(g, op)
    ensures Step(f, op, now).comments == Step(g, op, now).comments
    ensures Step(f, op, now).events == Step(g, op, now).events
  {
    hide Publish, Selected, Visible, Invalid, FindReused, FindComment, FirstTombstone, FindReceipt, ThreadIds, Revision, CommentIndex,
         IsBlank, PublicComment, DraftIndex, LastDraft, WithoutDraft;
    if op.PublishOp? {
      PublishIgnoresOthers(f, g, op, now);
    }
  }

  /** Creating a draft succeeds exactly for a path and a body that are not blank, and adds it behind the others. */
  lemma CreatedDraftIs(f: Files, input: NewDraft, now: nat, id: string)
    ensures var out := CreateDraft(f, input, now, id);
      && out.files.comments == f.comments && out.files.events == f.events
      && (out.result.Ok? <==> Paths.TrimSpace(input.path) != "" && Paths.TrimSpace(input.body) != "")
      && (out.result.Err? ==> out.files == f)
      && (out.result.Ok? ==>
            var d := out.result.value;
            && out.files.drafts == f.drafts + [d] && d.id == id && d.threadId == input.threadId
            && d.path == Paths.TrimSpace(input.path) && d.body == Paths.TrimSpace(input.body) && d.anchor == input.anchor
            && d.source == input.source && d.actor == input.actor && d.createdAt == now && d.updatedAt == now)
  {}

  /** Draft `i`, the first of that id, got the body, if one is given, and the time; all else is as it was. */
  predicate IsDraftEdited(f: Files, out: Outcome<Draft>, i: nat, id: string, body: Option<string>, now: nat) {
    && i < |f.drafts| && f.drafts[i].id == id && (forall k | 0 <= k < i :: f.drafts[k].id != id)
    && |out.files.drafts| == |f.drafts| && (forall k | 0 <= k < |f.drafts| && k != i :: out.files.drafts[k] == f.drafts[k])
    && out.result == Ok(out.files.drafts[i])
    && out.files.drafts[i] == f.drafts[i].(updatedAt := now, body := if body.Some? then Paths.TrimSpace(body.value) else f.drafts[i].body)
  }

  /** Editing a draft succeeds exactly for the id of a draft and a body that is not blank, and changes that draft and nothing else. */
  lemma UpdatedDraftIs(f: Files, id: string, body: Option<string>, now: nat)
    ensures var out := UpdateDraft(f, id, body, now);
      && out.files.comments == f.comments && out.files.events == f.events
      && (out.result.Ok? <==> !IsBlank(id) && (exists d | d in f.drafts :: d.id == id) && (body.Some? ==> !IsBlank(body.value)))
      && (out.result.Err? ==> out.files == f)
      && (out.result.Ok? ==> exists i | 0 <= i < |f.drafts| :: IsDraftEdited(f, out, i, id, body, now))
  {
    hide IsBlank, Paths.TrimSpace, IsDraftEdited;
    var i := DraftIndex(f.drafts, id);
    if exists d | d in f.drafts :: d.id == id {
      var d :| d in f.drafts && d.id == id;
      var k :| 0 <= k < |f.drafts| && f.drafts[k] == d;
      assert i <= k;
    }
    if i < |f.drafts| {
      assert f.drafts[i] in f.drafts;
    }
    hide DraftIndex;
    if UpdateDraft(f, id, body, now).result.Ok? {
      FirstDraftIsEdited(f, id, body, now);
    }
  }

  lemma FirstDraftIsEdited(f: Files, id: string, body: Option<string>, now: nat)
    requires UpdateDraft(f, id, body, now).result.Ok?
    ensures IsDraftEdited(f, UpdateDraft(f, id, body, now), DraftIndex(f.drafts, id), id, body, now)
  {
    hide IsBlank, Paths.TrimSpace, DraftIndex;
  }

  /** Deleting a draft leaves exactly the drafts of other ids, in order. */
  lemma DeletedDraftIs(f: Files, id: string)
    ensures var out := DeleteDraft(f, id);
      && out.files.comments == f.comments && out.files.events == f.events
      && (out.result.Ok? <==> !IsBlank(id) && exists d | d in f.drafts :: d.id == id)
      && out.files.drafts == (if out.result.Ok? then Filter(f.drafts, (d: Draft) => d.id != id) else f.drafts)
      && (out.result.Ok? ==> out.result.value in f.drafts && out.result.value.id == id)
  {
    hide IsBlank;
    WithoutDraftFilters(f.drafts, id);
    LastDraftMeans(f.drafts, id);
    hide LastDraft, WithoutDraft;
    SameFilter(f.drafts, Other(id), (d: Draft) => d.id != id);
  }

  lemma {:induction false} SameFilter<T(!new)>(s: seq<T>, p: T -> bool, q: T -> bool)
    requires forall x :: p(x) == q(x)
    ensures Filter(s, p) == Filter(s, q)
  {
    if s != [] {
      SameFilter(s[1..], p, q);
    }
  }

  lemma {:induction false} LastDraftMeans(drafts: seq<Draft>, id: string)
    ensures LastDraft(drafts, id).Some? <==> exists d | d in drafts :: d.id == id
    ensures LastDraft(drafts, id).Some? ==> LastDraft(drafts, id).value in drafts && LastDraft(drafts, id).value.id == id
  {
    if drafts != [] {
      var n := |drafts| - 1;
      LastDraftMeans(drafts[..n], id);
      assert drafts == drafts[..n] + [drafts[n]];
    }
  }

  /** The drafts whose id is not one of `hidden`. */
  function Outside(hidden: set<string>): Draft -> bool {
    (d: Draft) => d.id !in hidden
  }

  /** The files as they are without the hidden drafts. */
  function Without(f: Files, hidden: set<string>): Files {
    f.(drafts := Filter(f.drafts, Outside(hidden)))
  }

  lemma {:induction false} FindOutside(drafts: seq<Draft>, id: string, hidden: set<string>)
    ensures var i, kept := DraftIndex(drafts, id), Filter(drafts, Outside(hidden));
      var j := DraftIndex(kept, id);
      && (id in hidden ==> j == |kept|)
      && (id !in hidden ==> (i == |drafts| <==> j == |kept|) && (i < |drafts| ==> drafts[i] == kept[j]))
  {
    if drafts != [] {
      var x, rest := drafts[0], drafts[1..];
      FindOutside(rest, id, hidden);
      assert drafts == [x] + rest;
      FilterCons(x, rest, Outside(hidden));
      hide Filter;
      assert ([x] + Filter(rest, Outside(hidden)))[1..] == Filter(rest, Outside(hidden));
    }
  }

  /** A draft put in the place of the first one of its id, seen through the filter. */
  lemma {:induction false} ReplaceOutside(drafts: seq<Draft>, d: Draft, hidden: set<string>)
    requires DraftIndex(drafts, d.id) < |drafts|
    ensures var kept := Filter(drafts, Outside(hidden));
      && (d.id !in hidden ==> DraftIndex(kept, d.id) < |kept|)
      && Filter(drafts[DraftIndex(drafts, d.id) := d], Outside(hidden))
         == if d.id in hidden then kept else kept[DraftIndex(kept, d.id) := d]
  {
    hide Filter, DraftIndex;
    var x, rest := drafts[0], drafts[1..];
    var i, kept := DraftIndex(drafts, d.id), Filter(rest, Outside(hidden));
    assert drafts == [x] + rest;
    FindOutside(drafts, d.id, hidden);
    FilterCons(x, rest, Outside(hidden));
    assert Filter(drafts, Outside(hidden)) == (if x.id in hidden then kept else [x] + kept);
    if x.id == d.id {
      FilterCons(d, rest, Outside(hidden));
      assert drafts[0 := d] == [d] + rest;
    } else {
      IndexCons(x, rest, d.id);
      IndexCons(x, kept, d.id);
      ReplaceOutside(rest, d, hidden);
      FilterCons(x, rest[i - 1 := d], Outside(hidden));
      UpdateCons(x, rest, i - 1, d);
      hide Outside;
      if d.id !in hidden {
        UpdateCons(x, kept, DraftIndex(kept, d.id), d);
      }
    }
  }

  lemma UpdateCons<T>(x: T, rest: seq<T>, i: nat, y: T)
    requires i < |rest|
    ensures ([x] + rest)[i + 1 := y] == [x] + rest[i := y]
  {}

  lemma IndexCons(x: Draft, rest: seq<Draft>, id: string)
    requires x.id != id
    ensures DraftIndex([x] + rest, id) == 1 + DraftIndex(rest, id)
  {
    assert ([x] + rest)[1..] == rest;
  }

  lemma UpdateDraftOutside(f: Files, id: string, body: Option<string>, now: nat, hidden: set<string>)
    ensures Without(UpdateDraft(f, id, body, now).files, hidden) == Without(UpdateDraft(Without(f, hidden), id, body, now).files, hidden)
  {
    var g := Without(f, hidden);
    WithoutTwice(f, hidden);
    FindOutside(f.drafts, id, hidden);
    if UpdateDraft(f, id, body, now).result.Ok? {
      var d := UpdateDraft(f, id, body, now).result.value;
      assert d.id == id;
      ReplaceOutside(f.drafts, d, hidden);
      if id !in hidden {
        ReplaceOutside(g.drafts, d, hidden);
      }
    }
    hide Filter, IsBlank;
  }

  lemma WithoutTwice(f: Files, hidden: set<string>)
    ensures Without(Without(f, hidden), hidden) == Without(f, hidden)
  {
    FilterWithin(f.drafts, Outside(hidden), Outside(hidden));
  }

  function Other(id: string): Draft -> bool {
    (d: Draft) => d.id != id
  }

  lemma {:induction false} WithoutDraftFilters(drafts: seq<Draft>, id: string)
    ensures WithoutDraft(drafts, id) == Filter(drafts, Other(id))
    ensures LastDraft(drafts, id).None? ==> WithoutDraft(drafts, id) == drafts
  {
    if drafts != [] {
      var n := |drafts| - 1;
      WithoutDraftFilters(drafts[..n], id);
      FilterOneMore(drafts, n, Other(id));
      assert drafts[..n + 1] == drafts;
      hide Filter;
    }
  }

  lemma DeleteDraftOutside(f: Files, id: string, hidden: set<string>)
    ensures Without(DeleteDraft(f, id).files, hidden) == Without(DeleteDraft(Without(f, hidden), id).files, hidden)
  {
    var g := Without(f, hidden);
    WithoutTwice(f, hidden);
    WithoutDraftFilters(f.drafts, id);
    WithoutDraftFilters(g.drafts, id);
    FilterSwaps(f.drafts, Other(id), Outside(hidden));
    FilterSwaps(g.drafts, Other(id), Outside(hidden));
  }

  lemma CreateDraftOutside(f: Files, draft: NewDraft, now: nat, newId: string, hidden: set<string>)
    ensures Without(CreateDraft(f, draft, now, newId).files, hidden)
         == Without(CreateDraft(Without(f, hidden), draft, now, newId).files, hidden)
  {
    WithoutTwice(f, hidden);
    if CreateDraft(f, draft, now, newId).result.Ok? {
      var d := CreateDraft(f, draft, now, newId).result.value;
      FilterConcat(f.drafts, [d], Outside(hidden));
      FilterConcat(Without(f, hidden).drafts, [d], Outside(hidden));
    }
  }

  /** A step publishes some drafts by their ids, and none of the hidden ones. */
  predicate PublishesOutside(op: Op, hidden: set<string>) {
    op.PublishOp? ==> op.ids != [] && forall id | id in op.ids :: id !in hidden
  }

  lemma SelectedOutside(f: Files, op: Op, hidden: set<string>)
    requires PublishesOutside(op, hidden)
    ensures Selected(Without(f, hidden), op) == Selected(f, op)
  {
    if op.PublishOp? {
      FilterWithin(f.drafts, Outside(hidden), Wanted(op.ids));
    }
  }

  lemma PublishedDrafts(f: Files, op: Op, now: nat)
    requires op.PublishOp?
    ensures Step(f, op, now).drafts
         == if Publish(f, op.ids, PublishBatch(f, op, now)).result.Ok? then Filter(f.drafts, Unwanted(op.ids)) else f.drafts
  {
    hide PublishBatch, PlanDrafts, BatchEvents, Normalized, Visible;
  }

  lemma PublishOutside(f: Files, op: Op, now: nat, hidden: set<string>)
    requires op.PublishOp? && PublishesOutside(op, hidden)
    ensures Filter(Step(f, op, now).drafts, Outside(hidden)) == Filter(Step(Without(f, hidden), op, now).drafts, Outside(hidden))
  {
    var g := Without(f, hidden);
    SelectedOutside(f, op, hidden);
    assert PublishBatch(f, op, now) == PublishBatch(g, op, now);
    PublishedDrafts(f, op, now);
    PublishedDrafts(g, op, now);
    WithoutTwice(f, hidden);
    FilterSwaps(f.drafts, Unwanted(op.ids), Outside(hidden));
    FilterSwaps(g.drafts, Unwanted(op.ids), Outside(hidden));
    hide Step, PublishBatch, PlanDrafts, Visible, Filter;
    assert Publish(f, op.ids, PublishBatch(f, op, now)).result.Ok? <==> Publish(g, op.ids, PublishBatch(g, op, now)).result.Ok?;
  }

  /** What a step leaves in the files outside the hidden drafts depends on nothing but what is outside them. */
  lemma StepIgnoresHidden(f: Files, op: Op, now: nat, hidden: set<string>)
    requires PublishesOutside(op, hidden)
    ensures Without(Step(f, op, now), hidden) == Without(Step(Without(f, hidden), op, now), hidden)
  {
    var g := Without(f, hidden);
    SelectedOutside(f, op, hidden);
    DraftsStayPrivate(f, g, op, now);
    StepDraftsOutside(f, op, now, hidden);
    hide Step, Filter, Selected;
  }

  lemma StepDraftsOutside(f: Files, op: Op, now: nat, hidden: set<string>)
    requires PublishesOutside(op, hidden)
    ensures Filter(Step(f, op, now).drafts, Outside(hidden)) == Filter(Step(Without(f, hidden), op, now).drafts, Outside(hidden))
  {
    hide Publish, PublishBatch, UpdateDraft, DeleteDraft, CreateDraft, Invalid, FindReused, FindComment, FirstTombstone, FindReceipt,
         ThreadIds, Revision, CommentIndex, Visible, Filter;
    match op
    case PublishOp(_, _, _, _, _) => PublishOutside(f, op, now, hidden);
    case CreateDraftOp(draft, newId) => CreateDraftOutside(f, draft, now, newId, hidden);
    case UpdateDraftOp(id, body) => UpdateDraftOutside(f, id, body, now, hidden);
    case DeleteDraftOp(id) => DeleteDraftOutside(f, id, hidden);
    case _ => WithoutTwice(f, hidden);
  }

  /**
   A draft shows in no listing and in no event before it is published. Two stores that differ only in hidden drafts cannot be
   told apart by any run that publishes none of these, whatever else the run creates, edits, deletes, reads and publishes.
   */
  lemma {:induction false} UnpublishedDraftsDoNotShow(f: Files, g: Files, steps: seq<(Op, nat)>, hidden: set<string>)
    requires Without(f, hidden) == Without(g, hidden)
    requires forall i | 0 <= i < |steps| :: PublishesOutside(steps[i].0, hidden)
    ensures Without(Run(f, steps), hidden) == Without(Run(g, steps), hidden)
    ensures Run(f, steps).comments == Run(g, steps).comments && Run(f, steps).events == Run(g, steps).events
  {
    hide Step, PublishesOutside, Filter;
    if steps != [] {
      var n := |steps| - 1;
      UnpublishedDraftsDoNotShow(f, g, steps[..n], hidden);
      StepIgnoresHidden(Run(f, steps[..n]), steps[n].0, steps[n].1, hidden);
      StepIgnoresHidden(Run(g, steps[..n]), steps[n].0, steps[n].1, hidden);
    }
  }

  // ---------------------------------------------------------------- repeated requests

  lemma {:induction false} FindsReused(comments: seq<Comment>, events: seq<Event>, e: Event, threadId: string, actorId: string,
                                       clientEventId: string)
    requires FindReused(comments, events, threadId, actorId, clientEventId).None?
    ensures FindReused(comments, events + [e], threadId, actorId, clientEventId)
         == if IsSameRequest(e, threadId, actorId, clientEventId) then FindComment(comments, e.commentId) else None
  {
    if events == [] {
      assert (events + [e])[0] == e && (events + [e])[1..] == [];
    } else {
      assert (events + [e])[0] == events[0] && (events + [e])[1..] == events[1..] + [e];
      FindsReused(comments, events[1..], e, threadId, actorId, clientEventId);
    }
  }

  /** An id that no comment and no event uses. */
  predicate IsFresh(f: Files, id: string) {
    && !IsBlank(id)
    && (forall c | c in f.comments :: c.id != id)
    && (forall e | e in f.events :: (e.CommentAdded? || e.CommentDeleted?) ==> e.commentId != id)
  }

  lemma {:induction false} FindCommentAppended(comments: seq<Comment>, c: Comment, id: string)
    ensures FindComment(comments + [c], id) ==
      if FindComment(comments, id).Some? then FindComment(comments, id) else if c.id == id then Some(c) else None
  {
    if comments == [] {
      assert (comments + [c])[1..] == [];
    } else {
      assert (comments + [c])[1..] == comments[1..] + [c];
      FindCommentAppended(comments[1..], c, id);
    }
  }

  lemma {:induction false} ReusesNoNewComment(comments: seq<Comment>, c: Comment, events: seq<Event>, threadId: string,
                                              actorId: string, clientEventId: string)
    requires forall e | e in events :: e.CommentAdded? ==> e.commentId != c.id
    ensures FindReused(comments + [c], events, threadId, actorId, clientEventId)
         == FindReused(comments, events, threadId, actorId, clientEventId)
  {
    if events != [] {
      ReusesNoNewComment(comments, c, events[1..], threadId, actorId, clientEventId);
      assert events[0] in events;
      if events[0].CommentAdded? {
        FindCommentAppended(comments, c, events[0].commentId);
      }
    }
  }

  lemma {:induction false} VisibleOfVisible(comments: seq<Comment>, events: seq<Event>, more: seq<Event>)
    requires forall id :: IsDeleted(events, id) <==> IsDeleted(more, id)
    ensures Visible(Visible(comments, events), more) == Visible(comments, events)
  {
    hide IsDeleted;
    if comments != [] {
      var rest := Visible(comments[1..], events);
      VisibleOfVisible(comments[1..], events, more);
      if IsDeleted(events, comments[0].id) {
        assert Visible(comments, events) == rest;
      } else {
        assert Visible(comments, events) == [comments[0]] + rest && ([comments[0]] + rest)[1..] == rest;
        assert !IsDeleted(more, comments[0].id);
      }
    }
  }

  lemma {:induction false} VisibleAppended(comments: seq<Comment>, c: Comment, events: seq<Event>)
    ensures Visible(comments + [c], events) == Visible(comments, events) + if IsDeleted(events, c.id) then [] else [c]
  {
    hide IsDeleted;
    if comments == [] {
      assert (comments + [c])[1..] == [];
    } else {
      assert (comments + [c])[1..] == comments[1..] + [c];
      VisibleAppended(comments[1..], c, events);
    }
  }

  lemma NoNewTombstone(events: seq<Event>, e: Event)
    requires !e.CommentDeleted?
    ensures forall id :: IsDeleted(events, id) <==> IsDeleted(events + [e], id)
  {
    forall id
      ensures IsDeleted(events, id) <==> IsDeleted(events + [e], id)
    {
      if IsDeleted(events, id) {
        var t :| t in events && IsTombstone(t, id);
        assert t in events + [e];
      }
    }
  }

  /** The listing behind a comment that was just created. */
  lemma ListedAfterCreate(f: Files, input: NewComment, now: nat, id: string)
    requires !IsDeleted(f.events, id)
    requires Create(f, input, now, id).result.Ok? && Create(f, input, now, id).files != f
    ensures var g := Create(f, input, now, id).files;
      Listed(g) == Listed(f) + [g.comments[|g.comments| - 1]] && g.comments == Listed(g)
  {
    var g := Create(f, input, now, id).files;
    var comment, e := g.comments[|g.comments| - 1], g.events[|f.events|];
    assert g.comments == Listed(f) + [comment] && g.events == f.events + [e];
    NoNewTombstone(f.events, e);
    VisibleOfVisible(f.comments, f.events, g.events);
    VisibleAppended(Listed(f), comment, g.events);
  }

  /** The event is about an added comment: it starts the thread, or names the comment and the request. */
  predicate TellsOfComment(e: Event, c: Comment, input: NewComment) {
    if input.threadId == "" then e == ThreadCreated(c.id, Open, input.actor, c.createdAt)
    else e == CommentAdded(c.threadId, c.id, Paths.TrimSpace(input.clientEventId), input.actor, c.createdAt)
  }

  /**
   Creating succeeds exactly for a path and a body that are not blank and no status but "open". What it adds is one comment with
   the trimmed path and body of the request, open, in its thread or in one of its own, and one event that tells of it.
   */
  lemma CreatedCommentIs(f: Files, input: NewComment, now: nat, id: string)
    ensures var out := Create(f, input, now, id);
      && (out.result.Ok? <==> !IsBlank(input.path) && !IsBlank(input.body) && (input.status.Some? ==> input.status.value == "open"))
      && (out.result.Err? ==> out.files == f)
      && (out.result == Err(PathRequired) <==> IsBlank(input.path))
      && (out.result == Err(BodyRequired) <==> !IsBlank(input.path) && IsBlank(input.body))
      && (out.result.Ok? && out.files != f ==>
          var c := out.result.value;
          && out.files.drafts == f.drafts && |out.files.comments| == |Listed(f)| + 1 && |out.files.events| == |f.events| + 1
          && out.files.comments[..|Listed(f)|] == Listed(f) && out.files.comments[|Listed(f)|] == c
          && out.files.events[..|f.events|] == f.events && TellsOfComment(out.files.events[|f.events|], c, input)
          && c.id == id && c.threadId == (if IsBlank(input.threadId) then id else input.threadId)
          && c.path == Paths.TrimSpace(input.path) && c.body == Paths.TrimSpace(input.body)
          && c.anchor == input.anchor && c.source == input.source && c.actor == input.actor
          && c.status == Open && c.createdAt == c.updatedAt == now && c.reviewBatchId == None)
  {
    NothingIsBlank();
    hide Visible, FindReused, Paths.TrimSpace;
  }

  lemma NothingIsBlank()
    ensures IsBlank("")
  {}

  /**
   Editing succeeds exactly if no status is asked for and the id is that of a listed comment. The first one gets the trimmed body,
   if a body is given, and the time; it keeps all else, the others keep everything, and an event tells of a new body.
   */
  lemma EditedCommentIs(f: Files, id: string, body: Option<string>, hasStatus: bool, actor: Actor, now: nat)
    ensures var out := Update(f, id, body, hasStatus, actor, now);
      && (out.result.Ok? <==> !hasStatus && !IsBlank(id) && exists c | c in Listed(f) :: c.id == id)
      && (out.result.Err? ==> out.files == f)
      && (out.result.Ok? ==> exists i | 0 <= i < |Listed(f)| :: IsEdited(f, out, i, id, body, actor, now))
  {
    hide Visible, IsBlank, Update, IsEdited;
    EditAccepts(f, id, body, hasStatus, actor, now);
    var i := CommentIndex(Listed(f), id);
    if exists c | c in Listed(f) :: c.id == id {
      var c :| c in Listed(f) && c.id == id;
      var k :| 0 <= k < |Listed(f)| && Listed(f)[k] == c;
      assert i <= k;
    }
    if i < |Listed(f)| {
      assert Listed(f)[i] in Listed(f);
    }
    if Update(f, id, body, hasStatus, actor, now).result.Ok? {
      EditsTheFirst(f, id, body, hasStatus, actor, now);
    }
  }

  lemma EditAccepts(f: Files, id: string, body: Option<string>, hasStatus: bool, actor: Actor, now: nat)
    ensures var out := Update(f, id, body, hasStatus, actor, now);
      && (out.result.Ok? <==> !hasStatus && !IsBlank(id) && CommentIndex(Listed(f), id) < |Listed(f)|)
      && (out.result.Err? ==> out.files == f)
  {
    hide Visible, IsBlank, Paths.TrimSpace, CommentIndex;
  }

  lemma EditsTheFirst(f: Files, id: string, body: Option<string>, hasStatus: bool, actor: Actor, now: nat)
    requires Update(f, id, body, hasStatus, actor, now).result.Ok?
    ensures IsEdited(f, Update(f, id, body, hasStatus, actor, now), CommentIndex(Listed(f), id), id, body, actor, now)
  {
    hide Visible, IsBlank, Paths.TrimSpace, CommentIndex;
  }

  predicate IsEdited(f: Files, out: Outcome<Comment>, i: nat, id: string, body: Option<string>, actor: Actor, now: nat) {
    && IsFirst(Listed(f), id, i)
    && out.files.drafts == f.drafts && |out.files.comments| == |Listed(f)|
    && (forall k | 0 <= k < |Listed(f)| && k != i :: out.files.comments[k] == Listed(f)[k])
    && out.result == Ok(out.files.comments[i])
    && var was, c := Listed(f)[i], out.files.comments[i];
       && c.body == (if body.Some? then Paths.TrimSpace(body.value) else was.body) && c.updatedAt == now
       && c.id == was.id && c.threadId == was.threadId && c.path == was.path && c.anchor == was.anchor && c.source == was.source
       && c.actor == was.actor && c.status == was.status && c.createdAt == was.createdAt && c.reviewBatchId == was.reviewBatchId
       && out.files.events == f.events + if body.Some? then [CommentUpdated(ThreadIdOf(was), id, actor, now)] else []
  }

  /** The event added a comment for this request, and the comment is still there. */
  predicate HasAnswered(e: Event, comments: seq<Comment>, threadId: string, actorId: string, clientEventId: string) {
    && e.CommentAdded? && e.threadId == threadId && e.actor.id == actorId && e.clientEventId == clientEventId
    && exists c | c in comments :: c.id == e.commentId
  }

  /** A request is recognized exactly if a comment that the same actor added to the thread with the same client id is still listed. */
  lemma {:induction false} RecognizedMeans(comments: seq<Comment>, events: seq<Event>, threadId: string, actorId: string, clientEventId: string)
    ensures var r := FindReused(comments, events, threadId, actorId, clientEventId);
      && (r.Some? <==> exists e | e in events :: HasAnswered(e, comments, threadId, actorId, clientEventId))
      && (r.Some? ==> r.value in comments)
      && (r.Some? ==> exists e | e in events ::
            HasAnswered(e, comments, threadId, actorId, clientEventId) && e.commentId == r.value.id)
  {
    if events != [] {
      RecognizedMeans(comments, events[1..], threadId, actorId, clientEventId);
      assert events[0] in events && forall e | e in events[1..] :: e in events;
      assert HasAnswered(events[0], comments, threadId, actorId, clientEventId) <==>
        IsSameRequest(events[0], threadId, actorId, clientEventId) && FindComment(comments, events[0].commentId).Some?;
      hide HasAnswered, FindComment;
    }
  }

  /** Deleting succeeds exactly for a comment with a tombstone and for a listed one of a person; that one gets its tombstone. */
  lemma DeletedCommentIs(f: Files, id: string, now: nat)
    ensures var out := DeletePublished(f, id, now);
      && (out.result.Ok? <==> !IsBlank(id) && (IsDeleted(f.events, id) || FirstListedIsHuman(f, id)))
      && (out.result.Err? || IsDeleted(f.events, id) ==> out.files == f)
      && (out.result.Ok? && !IsDeleted(f.events, id) ==>
          var r := out.result.value;
          && out.files == f.(events := f.events + [CommentDeleted(r.threadId, id, r.path, now)]) && r.id == id
          && exists c | c in Listed(f) :: c.id == id && c.actor.kind == Human && r.threadId == ThreadIdOf(c) && r.path == c.path)
  {
    FindsTheFirst(Listed(f), id);
    hide Visible, IsBlank, IsDeleted, FindComment, CommentIndex;
    var i := CommentIndex(Listed(f), id);
    if i < |Listed(f)| {
      assert Listed(f)[i] in Listed(f);
    }
    if FirstListedIsHuman(f, id) {
      var k :| 0 <= k < |Listed(f)| && IsFirst(Listed(f), id, k) && Listed(f)[k].actor.kind == Human;
      assert k == i;
    }
    assert i < |Listed(f)| ==> IsFirst(Listed(f), id, i);
  }

  predicate IsFirst(comments: seq<Comment>, id: string, i: nat) {
    i < |comments| && comments[i].id == id && forall k | 0 <= k < i :: comments[k].id != id
  }

  predicate FirstListedIsHuman(f: Files, id: string) {
    exists i | 0 <= i < |Listed(f)| :: IsFirst(Listed(f), id, i) && Listed(f)[i].actor.kind == Human
  }

  lemma {:induction false} FindsTheFirst(comments: seq<Comment>, id: string)
    ensures FindComment(comments, id).Some? <==> CommentIndex(comments, id) < |comments|
    ensures FindComment(comments, id).Some? ==> FindComment(comments, id).value == comments[CommentIndex(comments, id)]
  {
    if comments != [] {
      FindsTheFirst(comments[1..], id);
    }
  }

  /**
   A request that is repeated with its client event id returns the comment it created and changes nothing, exactly if its
   thread id is not blank; a blank thread id that is not empty is replaced and then not recognized.
   */
  lemma CreatingAgainIsTheSame(f: Files, input: NewComment, now: nat, id: string, later: nat, other: string)
    requires IsFresh(f, id) && input.threadId != "" && !IsBlank(input.clientEventId)
    requires Create(f, input, now, id).result.Ok? && Create(f, input, now, id).files != f
    ensures var first := Create(f, input, now, id);
      !IsBlank(input.threadId) <==> Create(first.files, input, later, other) == first
  {
    var g := Create(f, input, now, id).files;
    var comment, e := g.comments[|g.comments| - 1], g.events[|f.events|];
    var key := Paths.TrimSpace(input.clientEventId);
    assert !IsDeleted(f.events, id);
    ListedAfterCreate(f, input, now, id);
    ReusesNoNewComment(Listed(f), comment, f.events, input.threadId, input.actor.id, key);
    FindsReused(Listed(g), f.events, e, input.threadId, input.actor.id, key);
    FindCommentAppended(Listed(f), comment, id);
    assert g.events == f.events + [e];
    hide FindReused, FindComment, Visible;
  }

  /** A request with a blank thread id and a client event id: sent twice it makes two comments. */
  lemma BlankThreadIdCreatesTwice()
    ensures var request := NewComment("p", "x", " ", "", "human", Actor("human", Human), None, "k");
      var first := Create(EMPTY, request, 1, "a");
      var second := Create(first.files, request, 2, "b");
      first.result.Ok? && second.result.Ok? && |Listed(second.files)| == 2
  {
    var request := NewComment("p", "x", " ", "", "human", Actor("human", Human), None, "k");
    Paths.TrimmedMeans("p");
    Paths.TrimmedMeans("x");
    Paths.TrimmedMeans("k");
    assert Paths.TrimSpace(" ") == "" by { assert Paths.TrimLeft(" ") == Paths.TrimLeft("") == ""; }
    hide Paths.TrimSpace;
    var first := Create(EMPTY, request, 1, "a");
    var f, c := first.files, first.result.value;
    assert f.comments == [c] && f.events == [CommentAdded("a", "a", "k", request.actor, 1)];
    assert f.events[1..] == [] && " "[0] != "a"[0] && "b"[0] != "a"[0];
    assert FindReused(Listed(f), f.events, " ", "human", "k") == None;
    assert !IsDeleted(f.events, "a") && !IsDeleted(f.events, "b");
    assert Listed(f) == [c] by { VisibleAppended([], c, f.events); }
    var second := Create(f, request, 2, "b");
    hide FindReused, Visible;
    assert second.result.Ok? && |second.files.comments| == 2;
    ListedAfterCreate(f, request, 2, "b");
  }
}
