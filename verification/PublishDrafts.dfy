/**
 Publishing drafts: every selected draft becomes a comment, in an open thread that exists or in a thread created by the
 batch; nothing is written unless all selected drafts are valid.
 */
module PublishDrafts {
  import opened Sequences
  import opened CommentModel
  import Paths

  // ---------------------------------------------------------------- selection

  function Wanted(ids: seq<string>): Draft -> bool {
    (d: Draft) => ids == [] || d.id in ids
  }

  function Unwanted(ids: seq<string>): Draft -> bool {
    (d: Draft) => !Wanted(ids)(d)
  }

  // ---------------------------------------------------------------- thread groups

  /** What drafts share a new thread by: a draft of the batch, or a place in a file. */
  datatype GroupKey = DraftThread(draftId: string) | Place(path: string, anchor: string)

  const DRAFT_THREAD_PREFIX := "draft-thread:"

  /** The draft that a thread id of the form `draft-thread:id:...` names, or "". */
  function DraftOnlyTarget(threadId: string): string {
    if !StartsWith(threadId, DRAFT_THREAD_PREFIX) then ""
    else
      var rest := threadId[|DRAFT_THREAD_PREFIX|..];
      match FindFrom(rest, ":", 0)
      case None => ""
      case Some(separator) => rest[..separator]
  }

  /** The batch as it is known before the first draft is placed; one fresh thread id and comment id for every draft. */
  datatype Batch = Batch(
    existing: map<string, Status>, selected: seq<Draft>, actor: Actor, now: nat, reviewBatchId: string,
    threadIds: seq<string>, commentIds: seq<string>)

  predicate HasIds(b: Batch) {
    |b.threadIds| == |b.selected| && |b.commentIds| == |b.selected|
  }

  /** The threads of the groups, the threads created by the batch, and the comments so far. */
  datatype Plan = Plan(byGroup: map<GroupKey, string>, created: set<string>, published: seq<Comment>)

  const NO_PLAN := Plan(map[], {}, [])

  predicate IsSelected(b: Batch, id: string) {
    exists d | d in b.selected :: d.id == id
  }

  /** The thread of a group, created with `newId` if there is none. */
  function WithGroup(plan: Plan, key: GroupKey, newId: string): (p: Plan)
    ensures key in p.byGroup
  {
    if key in plan.byGroup then plan
    else plan.(byGroup := plan.byGroup[key := newId], created := plan.created + {newId})
  }

  datatype Placed = Placed(threadId: string, plan: Plan)

  predicate IsUnthreaded(d: Draft) {
    Paths.TrimSpace(d.threadId) == ""
  }

  /** A draft without a thread: the thread that other drafts asked for it, or the one of its place. */
  function PlaceUnthreaded(plan: Plan, d: Draft, newId: string): Placed {
    var key := DraftThread(d.id);
    var grouped := if key in plan.byGroup then plan else WithGroup(plan, Place(d.path, d.anchor), newId);
    var threadId := if key in plan.byGroup then plan.byGroup[key] else grouped.byGroup[Place(d.path, d.anchor)];
    Placed(threadId, grouped.(byGroup := grouped.byGroup[key := threadId]))
  }

  function PlaceDraft(b: Batch, plan: Plan, d: Draft, newId: string): Result<Placed> {
    var threadId := Paths.TrimSpace(d.threadId);
    if IsUnthreaded(d) then Ok(PlaceUnthreaded(plan, d, newId))
    else if threadId in b.existing then
      if b.existing[threadId] != Open then Err(TargetNotOpen) else Ok(Placed(d.threadId, plan))
    else
      var target := DraftOnlyTarget(threadId);
      if target == "" || !IsSelected(b, target) then Err(TargetNotFound)
      else
        var grouped := WithGroup(plan, DraftThread(target), newId);
        Ok(Placed(grouped.byGroup[DraftThread(target)], grouped))
  }

  function ActorOfSource(source: string): Actor {
    if source == "human" then Actor("human", Human)
    else if source == "claude_code" || source == "claude-code" then Actor("claude_code", ClaudeCode)
    else if source == "codex" then Actor("codex", Codex)
    else Actor("unknown", Unknown)
  }

  function ActorForDraft(d: Draft, fallback: Actor): Actor {
    if d.actor.Some? then d.actor.value
    else if fallback.id != "unknown" then fallback
    else ActorOfSource(d.source)
  }

  function CommentOf(b: Batch, i: nat, threadId: string): Comment
    requires HasIds(b) && i < |b.selected|
  {
    var d := b.selected[i];
    PublicComment(b.commentIds[i], threadId, d.path, d.anchor, d.body, d.source, ActorForDraft(d, b.actor), b.now, Some(b.reviewBatchId))
  }

  /** The plan behind the first `n` drafts. */
  function PlanDrafts(b: Batch, n: nat): Result<Plan>
    requires HasIds(b) && n <= |b.selected|
  {
    if n == 0 then Ok(NO_PLAN)
    else
      match PlanDrafts(b, n - 1)
      case Err(e) => Err(e)
      case Ok(plan) => PlanOne(b, plan, n - 1)
  }

  function PlanOne(b: Batch, plan: Plan, i: nat): Result<Plan>
    requires HasIds(b) && i < |b.selected|
  {
    var d := b.selected[i];
    match PlaceDraft(b, plan, d, b.threadIds[i])
    case Err(e) => Err(e)
    case Ok(placed) =>
      var invalid := Invalid(d.path, d.body, d.status);
      if invalid.Some? then Err(invalid.value)
      else Ok(placed.plan.(published := plan.published + [CommentOf(b, i, placed.threadId)]))
  }

  // ---------------------------------------------------------------- events

  function BatchEvent(c: Comment, isNew: bool): Event {
    if isNew then ThreadCreated(c.threadId, c.status, c.actor, c.createdAt)
    else CommentAdded(c.threadId, c.id, "", c.actor, c.createdAt)
  }

  /** The first comment of a created thread creates it, every other one is added. */
  function BatchEvents(published: seq<Comment>, created: set<string>): (r: seq<Event>)
    ensures |r| == |published|
  {
    if published == [] then []
    else [BatchEvent(published[0], published[0].threadId in created)] + BatchEvents(published[1..], created - {published[0].threadId})
  }

  // ---------------------------------------------------------------- the operation

  datatype Publication = Publication(reviewBatchId: string, publishedAt: nat, threads: seq<Thread>)

  function ThreadStatuses(comments: seq<Comment>, events: seq<Event>): map<string, Status> {
    map id | id in ThreadIds(comments) :: ThreadsHaveComments(comments, id); StatusOf(comments, events, id)
  }

  function BatchOf(f: Files, ids: seq<string>, actor: Actor, now: nat, reviewBatchId: string, threadIds: seq<string>,
                   commentIds: seq<string>): Batch
  {
    var comments := Visible(f.comments, f.events);
    Batch(ThreadStatuses(comments, f.events), Filter(f.drafts, Wanted(ids)), actor, now, reviewBatchId, threadIds, commentIds)
  }

  function Impacted(published: seq<Comment>): Thread -> bool {
    (t: Thread) => exists c | c in published :: c.threadId == t.id
  }

  function Publish(f: Files, ids: seq<string>, b: Batch): Outcome<Publication>
    requires HasIds(b)
  {
    if b.selected == [] then Outcome(f, Err(NothingToPublish))
    else
      match PlanDrafts(b, |b.selected|)
      case Err(e) => Outcome(f, Err(e))
      case Ok(plan) =>
        var comments := Normalized(Visible(f.comments, f.events), f.events) + plan.published;
        var events := f.events + BatchEvents(plan.published, plan.created);
        Outcome(Files(comments, Filter(f.drafts, Unwanted(ids)), events),
                Ok(Publication(b.reviewBatchId, b.now, Filter(Threads(comments, events), Impacted(plan.published)))))
  }

  lemma PublishAppends(f: Files, ids: seq<string>, b: Batch)
    requires HasIds(b)
    ensures f.events <= Publish(f, ids, b).files.events
  {
    hide PlanDrafts, BatchEvents, Normalized, Visible, Threads, Filter;
  }

  /** Publishing returns the threads, as they are then, that have a comment of the batch, and no others. */
  lemma PublicationShows(f: Files, ids: seq<string>, b: Batch, t: Thread)
    requires HasIds(b) && Publish(f, ids, b).result.Ok?
    ensures var out := Publish(f, ids, b);
      && PlanDrafts(b, |b.selected|).Ok? && out.result.value.reviewBatchId == b.reviewBatchId && out.result.value.publishedAt == b.now
      && (t in out.result.value.threads <==>
          t in Threads(out.files.comments, out.files.events) &&
          exists c | c in PlanDrafts(b, |b.selected|).value.published :: c.threadId == t.id)
  {
    hide PlanDrafts, BatchEvents, Normalized, Visible, Threads;
    var plan, out := PlanDrafts(b, |b.selected|).value, Publish(f, ids, b);
    FilterMembers(Threads(out.files.comments, out.files.events), Impacted(plan.published));
    hide Filter;
  }

  // ---------------------------------------------------------------- plans only grow

  /** Groups keep their threads, created threads stay created, comments are appended. */
  ghost predicate Extends(p: Plan, q: Plan) {
    && p.published <= q.published
    && p.created <= q.created
    && (forall k | k in p.byGroup :: k in q.byGroup && q.byGroup[k] == p.byGroup[k])
  }

  lemma PlaceExtends(b: Batch, plan: Plan, d: Draft, newId: string)
    requires PlaceDraft(b, plan, d, newId).Ok?
    ensures Extends(plan, PlaceDraft(b, plan, d, newId).value.plan)
    ensures PlaceDraft(b, plan, d, newId).value.plan.published == plan.published
  {}

  lemma OneExtends(b: Batch, plan: Plan, i: nat)
    requires HasIds(b) && i < |b.selected| && PlanOne(b, plan, i).Ok?
    ensures Extends(plan, PlanOne(b, plan, i).value) && |PlanOne(b, plan, i).value.published| == |plan.published| + 1
  {
    PlaceExtends(b, plan, b.selected[i], b.threadIds[i]);
    hide PlaceDraft, CommentOf, Invalid;
  }

  lemma ExtendsTransitive(p: Plan, q: Plan, r: Plan)
    requires Extends(p, q) && Extends(q, r)
    ensures Extends(p, r)
  {}

  lemma {:induction false} PlanExtends(b: Batch, m: nat, n: nat)
    requires HasIds(b) && m <= n <= |b.selected| && PlanDrafts(b, n).Ok?
    ensures PlanDrafts(b, m).Ok? && Extends(PlanDrafts(b, m).value, PlanDrafts(b, n).value)
    ensures |PlanDrafts(b, n).value.published| == n && |PlanDrafts(b, m).value.published| == m
    decreases n, m
  {
    hide Extends, PlanOne, HasIds;
    if m == n {
      ExtendsReflexive(PlanDrafts(b, n).value);
    }
    if n > 0 {
      PlanExtends(b, if m < n then m else n - 1, n - 1);
      OneExtends(b, PlanDrafts(b, n - 1).value, n - 1);
      if m < n {
        ExtendsTransitive(PlanDrafts(b, m).value, PlanDrafts(b, n - 1).value, PlanDrafts(b, n).value);
      }
    }
  }

  lemma ExtendsReflexive(p: Plan)
    ensures Extends(p, p)
  {}

  /** The place of draft `i` in a batch that is published. */
  function PlaceOf(b: Batch, i: nat): Placed
    requires HasIds(b) && i < |b.selected| && PlanDrafts(b, i).Ok?
    requires PlaceDraft(b, PlanDrafts(b, i).value, b.selected[i], b.threadIds[i]).Ok?
  {
    PlaceDraft(b, PlanDrafts(b, i).value, b.selected[i], b.threadIds[i]).value
  }

  /** Comment `i` of the batch is draft `i`, in the thread where the draft was placed. */
  lemma PublishedIs(b: Batch, i: nat)
    requires HasIds(b) && i < |b.selected| && PlanDrafts(b, |b.selected|).Ok?
    ensures PlanDrafts(b, i).Ok? && PlaceDraft(b, PlanDrafts(b, i).value, b.selected[i], b.threadIds[i]).Ok?
    ensures var plan := PlanDrafts(b, |b.selected|).value;
      && |plan.published| == |b.selected|
      && plan.published[i] == CommentOf(b, i, PlaceOf(b, i).threadId)
      && Extends(PlaceOf(b, i).plan.(published := []), plan)
    ensures Invalid(b.selected[i].path, b.selected[i].body, b.selected[i].status).None?
  {
    hide PlanDrafts, PlanOne, PlaceDraft, CommentOf, Invalid;
    PlanExtends(b, i, |b.selected|);
    PlanExtends(b, i + 1, |b.selected|);
    PlanTurn(b, i);
    PublishedOne(b, PlanDrafts(b, i).value, i);
    var after, plan := PlanDrafts(b, i + 1).value, PlanDrafts(b, |b.selected|).value;
    assert after.published[i] == CommentOf(b, i, PlaceOf(b, i).threadId);
    assert plan.published[i] == after.published[i];
  }

  lemma PlanTurn(b: Batch, i: nat)
    requires HasIds(b) && i < |b.selected| && PlanDrafts(b, i).Ok?
    ensures PlanDrafts(b, i + 1) == PlanOne(b, PlanDrafts(b, i).value, i)
  {
    hide PlanOne;
  }

  lemma PublishedOne(b: Batch, plan: Plan, i: nat)
    requires HasIds(b) && i < |b.selected| && PlanOne(b, plan, i).Ok?
    ensures PlaceDraft(b, plan, b.selected[i], b.threadIds[i]).Ok?
    ensures var placed, after := PlaceDraft(b, plan, b.selected[i], b.threadIds[i]).value, PlanOne(b, plan, i).value;
      && after.published == plan.published + [CommentOf(b, i, placed.threadId)]
      && after.byGroup == placed.plan.byGroup && after.created == placed.plan.created
    ensures Invalid(b.selected[i].path, b.selected[i].body, b.selected[i].status).None?
  {
    PlaceExtends(b, plan, b.selected[i], b.threadIds[i]);
  }

  // ---------------------------------------------------------------- what publishing conserves

  predicate IsThreadId(id: string) {
    id != "" && Paths.TrimSpace(id) == id
  }

  /** The new thread ids are proper, and no thread or draft uses them yet. */
  ghost predicate FreshThreadIds(b: Batch) {
    && HasIds(b)
    && (forall i | 0 <= i < |b.threadIds| :: IsThreadId(b.threadIds[i]) && b.threadIds[i] !in b.existing)
    && (forall i, j | 0 <= i < |b.threadIds| && 0 <= j < |b.selected| :: b.selected[j].threadId != b.threadIds[i])
  }

  /** The groups lead to created threads, and these have new ids. */
  ghost predicate GroupsAreCreated(b: Batch, plan: Plan) {
    && (forall k | k in plan.byGroup :: plan.byGroup[k] in plan.created)
    && (forall t | t in plan.created :: t in b.threadIds)
  }

  lemma PlaceKeepsGroups(b: Batch, plan: Plan, d: Draft, newId: string)
    requires GroupsAreCreated(b, plan) && newId in b.threadIds && PlaceDraft(b, plan, d, newId).Ok?
    ensures GroupsAreCreated(b, PlaceDraft(b, plan, d, newId).value.plan)
    ensures Paths.TrimSpace(d.threadId) !in b.existing || IsUnthreaded(d) ==>
      PlaceDraft(b, plan, d, newId).value.threadId in PlaceDraft(b, plan, d, newId).value.plan.created
  {}

  lemma {:induction false} PlanKeepsGroups(b: Batch, n: nat)
    requires HasIds(b) && n <= |b.selected| && PlanDrafts(b, n).Ok?
    ensures GroupsAreCreated(b, PlanDrafts(b, n).value)
  {
    hide GroupsAreCreated, PlanOne, HasIds;
    if n > 0 {
      PlanKeepsGroups(b, n - 1);
      OneKeepsGroups(b, PlanDrafts(b, n - 1).value, n - 1);
    } else {
      NoGroups(b);
    }
  }

  lemma NoGroups(b: Batch)
    ensures GroupsAreCreated(b, NO_PLAN)
  {}

  lemma OneKeepsGroups(b: Batch, plan: Plan, i: nat)
    requires HasIds(b) && i < |b.selected| && GroupsAreCreated(b, plan) && PlanOne(b, plan, i).Ok?
    ensures GroupsAreCreated(b, PlanOne(b, plan, i).value)
  {
    PublishedOne(b, plan, i);
    PlaceKeepsGroups(b, plan, b.selected[i], b.threadIds[i]);
    hide PlaceDraft, CommentOf, Invalid;
  }

  /** The draft names an existing thread. */
  predicate NamesExisting(b: Batch, d: Draft) {
    !IsUnthreaded(d) && Paths.TrimSpace(d.threadId) in b.existing
  }

  /** A draft that names no existing thread lands in a thread of the batch, a draft that names one lands where it says. */
  lemma WhereDraftsLand(b: Batch, i: nat)
    requires HasIds(b) && i < |b.selected| && PlanDrafts(b, |b.selected|).Ok? && FreshThreadIds(b)
    ensures var plan, d := PlanDrafts(b, |b.selected|).value, b.selected[i];
      && i < |plan.published|
      && (NamesExisting(b, d) ==> plan.published[i].threadId == d.threadId && b.existing[Paths.TrimSpace(d.threadId)] == Open)
      && (!NamesExisting(b, d) ==> plan.published[i].threadId in plan.created)
  {
    PublishedIs(b, i);
    PlanKeepsGroups(b, i);
    PlanKeepsGroups(b, |b.selected|);
    PlaceKeepsGroups(b, PlanDrafts(b, i).value, b.selected[i], b.threadIds[i]);
  }

  /**
   A published comment is in an existing open thread or in a thread created by the batch exactly if its draft does not spell
   the name of an existing thread with white space around it, except as the name of another open thread.
   */
  lemma PublishedThreadIsKnown(b: Batch, i: nat)
    requires HasIds(b) && i < |b.selected| && PlanDrafts(b, |b.selected|).Ok? && FreshThreadIds(b)
    ensures var plan, d := PlanDrafts(b, |b.selected|).value, b.selected[i];
      && i < |plan.published|
      && (IsKnownThread(b, plan, plan.published[i].threadId) <==>
          !NamesExisting(b, d) || (d.threadId in b.existing && b.existing[d.threadId] == Open))
  {
    WhereDraftsLand(b, i);
    PlanKeepsGroups(b, |b.selected|);
    var plan := PlanDrafts(b, |b.selected|).value;
    if plan.published[i].threadId in plan.created {
      var k :| 0 <= k < |b.threadIds| && b.threadIds[k] == plan.published[i].threadId;
    }
  }

  /** A draft for the thread " t" while the thread "t" is open: its comment lands in a thread that nobody created. */
  lemma PaddedThreadNameIsLost()
    ensures var d := Draft("d", " t", "p", "", "x", "human", None, None, 1, 1);
      var b := Batch(map["t" := Open], [d], Actor("human", Human), 2, "r", ["n"], ["c"]);
      && HasIds(b) && PlanDrafts(b, 1).Ok? && |PlanDrafts(b, 1).value.published| == 1
      && !IsKnownThread(b, PlanDrafts(b, 1).value, PlanDrafts(b, 1).value.published[0].threadId)
  {
    var d := Draft("d", " t", "p", "", "x", "human", None, None, 1, 1);
    var b := Batch(map["t" := Open], [d], Actor("human", Human), 2, "r", ["n"], ["c"]);
    assert Paths.TrimLeft(" t") == Paths.TrimLeft("t") by { assert " t"[1..] == "t"; }
    assert Paths.TrimSpace(" t") == "t";
    assert Paths.TrimSpace("n") == "n" && Paths.TrimSpace("p") == "p" && Paths.TrimSpace("x") == "x";
    assert PlanDrafts(b, 0) == Ok(NO_PLAN);
    assert PlanOne(b, NO_PLAN, 0).Ok?;
    assert PlanDrafts(b, 1) == PlanOne(b, NO_PLAN, 0);
    assert NamesExisting(b, d);
    PublishedThreadIsKnown(b, 0);
    PublishedIs(b, 0);
  }

  predicate IsKnownThread(b: Batch, plan: Plan, threadId: string) {
    threadId in plan.created || (threadId in b.existing && b.existing[threadId] == Open)
  }

  /**
   A draft that asks for the thread of an unthreaded draft of the batch lands in the same thread, whichever of the two is
   placed first.
   */
  lemma DraftThreadsAreShared(b: Batch, a: nat, x: nat)
    requires HasIds(b) && a < |b.selected| && x < |b.selected| && PlanDrafts(b, |b.selected|).Ok? && FreshThreadIds(b)
    requires IsUnthreaded(b.selected[a]) && b.selected[a].id != ""
    requires !IsUnthreaded(b.selected[x]) && !NamesExisting(b, b.selected[x])
    requires DraftOnlyTarget(Paths.TrimSpace(b.selected[x].threadId)) == b.selected[a].id
    ensures var published := PlanDrafts(b, |b.selected|).value.published;
      a < |published| && x < |published| && published[a].threadId == published[x].threadId
  {
    PublishedIs(b, a);
    PublishedIs(b, x);
    var key := DraftThread(b.selected[a].id);
    GroupThreadIs(b, a, key);
    GroupThreadIs(b, x, key);
  }

  /** The thread that a group has at the end is the one in which its drafts are published. */
  lemma GroupThreadIs(b: Batch, i: nat, key: GroupKey)
    requires HasIds(b) && i < |b.selected| && PlanDrafts(b, |b.selected|).Ok? && FreshThreadIds(b)
    requires !NamesExisting(b, b.selected[i])
    requires key == if IsUnthreaded(b.selected[i]) then DraftThread(b.selected[i].id)
                    else DraftThread(DraftOnlyTarget(Paths.TrimSpace(b.selected[i].threadId)))
    ensures var plan := PlanDrafts(b, |b.selected|).value;
      i < |plan.published| && key in plan.byGroup && plan.published[i].threadId == plan.byGroup[key]
  {
    PublishedIs(b, i);
    PlanKeepsGroups(b, i);
    PlaceKeepsGroups(b, PlanDrafts(b, i).value, b.selected[i], b.threadIds[i]);
    var placed := PlaceOf(b, i);
    assert key in placed.plan.byGroup && placed.plan.byGroup[key] == placed.threadId;
    assert placed.threadId in b.threadIds;
    assert IsThreadId(placed.threadId);
  }

  // ---------------------------------------------------------------- which batches are published

  /** The draft can become a comment: it is valid, and it names an open thread, or a draft of the batch, or no thread. */
  predicate IsPublishable(b: Batch, d: Draft) {
    var threadId := Paths.TrimSpace(d.threadId);
    && !IsBlank(d.path) && !IsBlank(d.body) && (d.status.Some? ==> d.status.value == "open")
    && (threadId == "" || if threadId in b.existing then b.existing[threadId] == Open else NamesDraft(b, threadId))
  }

  /** A thread id of the form `draft-thread:id:...`, in which `id` is that of a selected draft. */
  predicate NamesDraft(b: Batch, threadId: string) {
    exists d | d in b.selected :: d.id != "" && ':' !in d.id && StartsWith(threadId, "draft-thread:" + d.id + ":")
  }

  lemma ColonAt(s: string, id: string)
    requires ':' !in id && StartsWith(s, id + ":")
    ensures FindFrom(s, ":", 0) == Some(|id|)
  {
    assert s[|id|..][..1] == ":" by { assert s[|id|] == (id + ":")[|id|]; }
    forall i | 0 <= i < |id|
      ensures !StartsWith(s[i..], ":")
    {
      assert s[i..][0] == s[i] == (id + ":")[i] == id[i] && id[i] in id;
    }
  }

  lemma BeforeColon(s: string, at: nat)
    requires FindFrom(s, ":", 0) == Some(at)
    ensures ':' !in s[..at] && StartsWith(s, s[..at] + ":")
  {
    assert s[at..][..1] == ":";
    forall i | 0 <= i < at
      ensures s[i] != ':'
    {
      assert !StartsWith(s[i..], ":") && s[i..][..1] == [s[i]];
    }
    assert s[..at + 1] == s[..at] + ":";
  }

  /** The target of a thread id is the id that stands between the mark and the first colon behind it. */
  lemma TargetMeans(threadId: string, id: string)
    requires id != ""
    ensures DraftOnlyTarget(threadId) == id <==> ':' !in id && StartsWith(threadId, "draft-thread:" + id + ":")
  {
    var mark := DRAFT_THREAD_PREFIX;
    if ':' !in id && StartsWith(threadId, mark + id + ":") {
      assert threadId[..|mark|] == (mark + id + ":")[..|mark|] == mark;
      var rest := threadId[|mark|..];
      assert rest[..|id| + 1] == (mark + id + ":")[|mark|..] == id + ":";
      ColonAt(rest, id);
      assert rest[..|id|] == (id + ":")[..|id|] == id;
    }
    if DraftOnlyTarget(threadId) == id {
      var rest := threadId[|mark|..];
      var at := FindFrom(rest, ":", 0).value;
      BeforeColon(rest, at);
      assert threadId == mark + rest;
      assert threadId[..|mark + id + ":"|] == mark + rest[..|id| + 1];
      assert mark + (id + ":") == mark + id + ":";
    }
  }

  lemma NamesDraftMeans(b: Batch, threadId: string)
    ensures NamesDraft(b, threadId) <==> DraftOnlyTarget(threadId) != "" && IsSelected(b, DraftOnlyTarget(threadId))
  {
    hide DraftOnlyTarget;
    if NamesDraft(b, threadId) {
      var d :| d in b.selected && d.id != "" && ':' !in d.id && StartsWith(threadId, "draft-thread:" + d.id + ":");
      TargetMeans(threadId, d.id);
    }
    if DraftOnlyTarget(threadId) != "" && IsSelected(b, DraftOnlyTarget(threadId)) {
      var d :| d in b.selected && d.id == DraftOnlyTarget(threadId);
      TargetMeans(threadId, d.id);
    }
  }

  lemma PublishableOne(b: Batch, plan: Plan, i: nat)
    requires HasIds(b) && i < |b.selected|
    ensures PlanOne(b, plan, i).Ok? <==> IsPublishable(b, b.selected[i])
  {
    NamesDraftMeans(b, Paths.TrimSpace(b.selected[i].threadId));
    hide NamesDraft, DraftOnlyTarget, IsSelected, Paths.TrimSpace, CommentOf;
  }

  /** A draft that could be placed is refused for what it lacks, the path first. */
  lemma PlanTellsWhatIsMissing(b: Batch, plan: Plan, i: nat)
    requires HasIds(b) && i < |b.selected| && PlaceDraft(b, plan, b.selected[i], b.threadIds[i]).Ok?
    ensures PlanOne(b, plan, i) == Err(PathRequired) <==> IsBlank(b.selected[i].path)
    ensures PlanOne(b, plan, i) == Err(BodyRequired) <==> !IsBlank(b.selected[i].path) && IsBlank(b.selected[i].body)
  {
    hide PlaceDraft, IsBlank;
  }

  /** A batch can be published exactly if each of its drafts can, whatever the others are. */
  lemma {:induction false} PlanAccepts(b: Batch, n: nat)
    requires HasIds(b) && n <= |b.selected|
    ensures PlanDrafts(b, n).Ok? <==> forall i | 0 <= i < n :: IsPublishable(b, b.selected[i])
  {
    hide PlanOne, IsPublishable;
    if n > 0 {
      PlanAccepts(b, n - 1);
      if PlanDrafts(b, n - 1).Ok? {
        PublishableOne(b, PlanDrafts(b, n - 1).value, n - 1);
      }
    }
  }

  /** A published comment is by the author of its draft, else by whoever publishes, else by what the source tells. */
  lemma PublishedByItsAuthor(b: Batch, i: nat)
    requires HasIds(b) && i < |b.selected| && PlanDrafts(b, |b.selected|).Ok?
    ensures var plan, d := PlanDrafts(b, |b.selected|).value, b.selected[i];
      && i < |plan.published|
      && (d.actor.Some? ==> plan.published[i].actor == d.actor.value)
      && (d.actor.None? && b.actor.id != "unknown" ==> plan.published[i].actor == b.actor)
      && (d.actor.None? && b.actor.id == "unknown" && d.source == "human" ==> plan.published[i].actor == Actor("human", Human))
      && (d.actor.None? && b.actor.id == "unknown" && d.source in ["claude_code", "claude-code"] ==>
            plan.published[i].actor == Actor("claude_code", ClaudeCode))
      && (d.actor.None? && b.actor.id == "unknown" && d.source == "codex" ==> plan.published[i].actor == Actor("codex", Codex))
      && (d.actor.None? && b.actor.id == "unknown" && d.source !in ["human", "claude_code", "claude-code", "codex"] ==>
            plan.published[i].actor == Actor("unknown", Unknown))
  {
    PublishedIs(b, i);
    hide PlanDrafts, PlaceDraft, Extends, Paths.TrimSpace;
  }

  // ---------------------------------------------------------------- which drafts share a thread

  predicate AllDiffer(ids: seq<string>) {
    forall i, j | 0 <= i < j < |ids| :: ids[i] != ids[j]
  }

  /** Draft `j` asks for the thread of the draft with that id. */
  predicate AsksFor(b: Batch, j: nat, id: string)
    requires j < |b.selected|
  {
    var d := b.selected[j];
    !IsUnthreaded(d) && !NamesExisting(b, d) && DraftOnlyTarget(Paths.TrimSpace(d.threadId)) == id
  }

  /** Draft `i` names no thread, and no draft in front of it has its id or asks for its thread. */
  predicate StandsByItself(b: Batch, i: nat) {
    i < |b.selected| && IsUnthreaded(b.selected[i]) &&
    forall j | 0 <= j < i :: b.selected[j].id != b.selected[i].id && !AsksFor(b, j, b.selected[i].id)
  }

  /** The created threads have ids drawn for the first `n` drafts, and no two places share one. */
  ghost predicate PlacesDiffer(b: Batch, plan: Plan, n: nat)
    requires n <= |b.threadIds|
  {
    && (forall k | k in plan.byGroup :: plan.byGroup[k] in plan.created)
    && (forall t | t in plan.created :: t in b.threadIds[..n])
    && (forall k, l | k in plan.byGroup && l in plan.byGroup && k.Place? && l.Place? && k != l :: plan.byGroup[k] != plan.byGroup[l])
  }

  lemma PlaceKeepsPlaces(b: Batch, plan: Plan, i: nat)
    requires HasIds(b) && i < |b.selected| && AllDiffer(b.threadIds) && PlacesDiffer(b, plan, i)
    requires PlaceDraft(b, plan, b.selected[i], b.threadIds[i]).Ok?
    ensures PlacesDiffer(b, PlaceDraft(b, plan, b.selected[i], b.threadIds[i]).value.plan, i + 1)
  {
    hide Paths.TrimSpace, DraftOnlyTarget, IsSelected, IsUnthreaded;
    assert b.threadIds[..i + 1] == b.threadIds[..i] + [b.threadIds[i]];
    assert b.threadIds[i] !in plan.created;
    hide AllDiffer;
  }

  lemma {:induction false} PlanKeepsPlaces(b: Batch, n: nat)
    requires HasIds(b) && n <= |b.selected| && AllDiffer(b.threadIds) && PlanDrafts(b, n).Ok?
    ensures PlacesDiffer(b, PlanDrafts(b, n).value, n)
  {
    hide PlacesDiffer, PlanOne, AllDiffer;
    if n > 0 {
      PlanKeepsPlaces(b, n - 1);
      var plan := PlanDrafts(b, n - 1).value;
      PublishedOne(b, plan, n - 1);
      PlaceKeepsPlaces(b, plan, n - 1);
      SamePlaces(b, PlaceDraft(b, plan, b.selected[n - 1], b.threadIds[n - 1]).value.plan, PlanDrafts(b, n).value, n);
    } else {
      NoPlaces(b);
    }
  }

  lemma NoPlaces(b: Batch)
    ensures PlacesDiffer(b, NO_PLAN, 0)
  {}

  lemma SamePlaces(b: Batch, p: Plan, q: Plan, n: nat)
    requires n <= |b.threadIds| && PlacesDiffer(b, p, n) && q.byGroup == p.byGroup && q.created == p.created
    ensures PlacesDiffer(b, q, n)
  {}

  /** Only a draft of that id, or one that asks for its thread, makes a group for the thread of a draft. */
  lemma GroupIsAskedFor(b: Batch, plan: Plan, i: nat, id: string)
    requires HasIds(b) && i < |b.selected| && PlanOne(b, plan, i).Ok? && DraftThread(id) !in plan.byGroup
    requires b.selected[i].id != id && !AsksFor(b, i, id)
    ensures DraftThread(id) !in PlanOne(b, plan, i).value.byGroup
  {
    PublishedOne(b, plan, i);
    hide Paths.TrimSpace, DraftOnlyTarget, IsSelected, CommentOf, Invalid, PlanOne;
  }

  lemma {:induction false} NobodyAskedFor(b: Batch, i: nat, n: nat)
    requires HasIds(b) && StandsByItself(b, i) && n <= i && PlanDrafts(b, n).Ok?
    ensures DraftThread(b.selected[i].id) !in PlanDrafts(b, n).value.byGroup
  {
    hide PlanOne, AsksFor;
    if n > 0 {
      NobodyAskedFor(b, i, n - 1);
      GroupIsAskedFor(b, PlanDrafts(b, n - 1).value, n - 1, b.selected[i].id);
    }
  }

  /** A draft that stands by itself is published in the thread of its place. */
  lemma LandsAtItsPlace(b: Batch, i: nat)
    requires HasIds(b) && PlanDrafts(b, |b.selected|).Ok? && FreshThreadIds(b) && StandsByItself(b, i)
    ensures var plan, place := PlanDrafts(b, |b.selected|).value, Place(b.selected[i].path, b.selected[i].anchor);
      && i < |plan.published| && place in plan.byGroup && plan.published[i].threadId == plan.byGroup[place]
  {
    PublishedIs(b, i);
    NobodyAskedFor(b, i, i);
    PlanKeepsGroups(b, i);
    PlaceKeepsGroups(b, PlanDrafts(b, i).value, b.selected[i], b.threadIds[i]);
    hide PlanDrafts, GroupsAreCreated, StandsByItself;
    PlacedAtItsPlace(b, PlanDrafts(b, i).value, b.selected[i], b.threadIds[i]);
    var placed := PlaceOf(b, i);
    CreatedIsThreadId(b, placed.plan, placed.threadId);
  }

  lemma PlacedAtItsPlace(b: Batch, plan: Plan, d: Draft, newId: string)
    requires IsUnthreaded(d) && DraftThread(d.id) !in plan.byGroup
    ensures PlaceDraft(b, plan, d, newId).Ok?
    ensures var placed, place := PlaceDraft(b, plan, d, newId).value, Place(d.path, d.anchor);
      place in placed.plan.byGroup && placed.plan.byGroup[place] == placed.threadId
  {
    hide Paths.TrimSpace;
  }

  lemma CreatedIsThreadId(b: Batch, plan: Plan, threadId: string)
    requires FreshThreadIds(b) && GroupsAreCreated(b, plan) && threadId in plan.created
    ensures IsThreadId(threadId) && !IsBlank(threadId)
  {
    var k :| 0 <= k < |b.threadIds| && b.threadIds[k] == threadId;
  }

  /**
   Two drafts without a thread, for which no draft in front of them asks, are published in one thread exactly if they are for
   the same place: the same path and the same anchor.
   */
  lemma PlacesMakeThreads(b: Batch, a: nat, x: nat)
    requires HasIds(b) && PlanDrafts(b, |b.selected|).Ok? && FreshThreadIds(b) && AllDiffer(b.threadIds)
    requires StandsByItself(b, a) && StandsByItself(b, x)
    ensures var published := PlanDrafts(b, |b.selected|).value.published;
      && a < |published| && x < |published|
      && (published[a].threadId == published[x].threadId <==>
          b.selected[a].path == b.selected[x].path && b.selected[a].anchor == b.selected[x].anchor)
  {
    hide PlanDrafts, FreshThreadIds, AllDiffer, StandsByItself;
    LandsAtItsPlace(b, a);
    LandsAtItsPlace(b, x);
    PlanKeepsPlaces(b, |b.selected|);
  }

  // ---------------------------------------------------------------- one event a comment

  /** Event `i` belongs to comment `i`; it creates the thread if the batch does and no earlier comment is in it. */
  lemma {:induction false} BatchEventsMean(published: seq<Comment>, created: set<string>, i: nat)
    requires i < |published|
    ensures BatchEvents(published, created)[i]
         == BatchEvent(published[i], published[i].threadId in created && !HasThread(published[..i], published[i].threadId))
  {
    if i > 0 {
      BatchEventsMean(published[1..], created - {published[0].threadId}, i - 1);
      assert published[..i] == [published[0]] + published[1..][..i - 1];
    }
  }

  predicate HasThread(comments: seq<Comment>, threadId: string) {
    exists c | c in comments :: c.threadId == threadId
  }

  /** Every thread that the batch creates is created by exactly one event, before any comment is added to it. */
  lemma ThreadsAreCreatedOnce(published: seq<Comment>, created: set<string>, i: nat, j: nat)
    requires i < j < |published| && published[i].threadId == published[j].threadId
    ensures BatchEvents(published, created)[j].CommentAdded?
    ensures published[i].threadId in created && !HasThread(published[..i], published[i].threadId) ==>
            BatchEvents(published, created)[i].ThreadCreated?
  {
    BatchEventsMean(published, created, i);
    BatchEventsMean(published, created, j);
    assert published[..j][i] == published[i];
  }

  ghost predicate CreatedAreUsed(plan: Plan) {
    forall t | t in plan.created :: HasThread(plan.published, t)
  }

  lemma {:induction false} CreatedThreadsAreUsed(b: Batch, n: nat)
    requires HasIds(b) && FreshThreadIds(b) && n <= |b.selected| && PlanDrafts(b, n).Ok?
    ensures CreatedAreUsed(PlanDrafts(b, n).value)
  {
    hide CreatedAreUsed, FreshThreadIds, PlanOne;
    if n > 0 {
      CreatedThreadsAreUsed(b, n - 1);
      OnlyItsThread(b, PlanDrafts(b, n - 1).value, n - 1);
      UsesOneMore(PlanDrafts(b, n - 1).value, PlanDrafts(b, n).value);
    } else {
      NoneUsed();
    }
  }

  lemma NoneUsed()
    ensures CreatedAreUsed(NO_PLAN)
  {}

  lemma UsesOneMore(plan: Plan, after: Plan)
    requires CreatedAreUsed(plan) && |after.published| == |plan.published| + 1
    requires after.published == plan.published + [after.published[|plan.published|]]
    requires forall t | t in after.created && t !in plan.created :: after.published[|plan.published|].threadId == t
    ensures CreatedAreUsed(after)
  {
    forall t | t in after.created
      ensures HasThread(after.published, t)
    {
      if t in plan.created {
        assert HasThread(plan.published, t);
        var c :| c in plan.published && c.threadId == t;
        assert c in after.published;
      } else {
        assert after.published[|plan.published|].threadId == t;
      }
    }
  }

  /** Placing a draft creates no thread but its own. */
  lemma OnlyItsThread(b: Batch, plan: Plan, i: nat)
    requires FreshThreadIds(b) && i < |b.selected| && PlanOne(b, plan, i).Ok?
    ensures var after := PlanOne(b, plan, i).value;
      && |after.published| == |plan.published| + 1
      && after.published == plan.published + [after.published[|plan.published|]]
      && forall t | t in after.created && t !in plan.created :: after.published[|plan.published|].threadId == t
  {
    assert IsThreadId(b.threadIds[i]);
  }

  // ---------------------------------------------------------------- the whole operation

  lemma {:induction false} SelectionSplitsDrafts(drafts: seq<Draft>, ids: seq<string>)
    ensures multiset(drafts) == multiset(Filter(drafts, Wanted(ids))) + multiset(Filter(drafts, Unwanted(ids)))
    ensures forall d | d in Filter(drafts, Wanted(ids)) :: ids == [] || d.id in ids
    ensures forall d | d in Filter(drafts, Unwanted(ids)) :: ids != [] && d.id !in ids
  {
    if drafts != [] {
      SelectionSplitsDrafts(drafts[1..], ids);
      assert drafts == [drafts[0]] + drafts[1..];
    }
  }

  /** What a comment takes over from its draft. */
  predicate ComesFrom(b: Batch, c: Comment, d: Draft, id: string) {
    && c.id == id && c.path == Paths.TrimSpace(d.path) && c.body == Paths.TrimSpace(d.body)
    && c.anchor == d.anchor && c.source == d.source && c.actor == ActorForDraft(d, b.actor)
    && c.status == Open && c.createdAt == c.updatedAt == b.now && c.reviewBatchId == Some(b.reviewBatchId)
  }

  /** The event of a published comment. */
  predicate RecordsComment(e: Event, c: Comment, isNew: bool) {
    && (e.ThreadCreated? || e.CommentAdded?)
    && e.threadId == c.threadId && e.actor == c.actor && e.at == c.createdAt
    && (e.ThreadCreated? <==> isNew)
    && (e.CommentAdded? ==> e.commentId == c.id)
  }

  /** Draft `i` is comment `i` behind the `n` old comments, with event `i` behind the `m` old events. */
  ghost predicate IsPublished(b: Batch, plan: Plan, g: Files, n: nat, m: nat, i: nat) {
    && HasIds(b) && i < |b.selected| && i < |plan.published| && n + i < |g.comments| && m + i < |g.events|
    && g.comments[n + i] == plan.published[i]
    && ComesFrom(b, plan.published[i], b.selected[i], b.commentIds[i])
    && RecordsComment(g.events[m + i], plan.published[i],
         plan.published[i].threadId in plan.created && !HasThread(plan.published[..i], plan.published[i].threadId))
  }

  lemma PublishesOne(b: Batch, plan: Plan, g: Files, n: nat, m: nat, i: nat)
    requires HasIds(b) && PlanDrafts(b, |b.selected|) == Ok(plan) && i < |b.selected|
    requires n + |plan.published| == |g.comments| && g.comments[n..] == plan.published
    requires m + |plan.published| == |g.events| && g.events[m..] == BatchEvents(plan.published, plan.created)
    ensures IsPublished(b, plan, g, n, m, i)
  {
    PublishedIs(b, i);
    BatchEventsMean(plan.published, plan.created, i);
    hide PlanDrafts, BatchEvents, HasThread, Extends;
    assert g.comments[n + i] == g.comments[n..][i];
    assert g.events[m + i] == g.events[m..][i];
  }

  /**
   Publishing conserves: the old comments stay in front, each selected draft is appended as one comment, in order, with one
   event each; the other drafts remain. An error changes nothing.
   */
  lemma PublishConserves(f: Files, ids: seq<string>, b: Batch)
    requires HasIds(b) && b.selected == Filter(f.drafts, Wanted(ids))
    ensures Publish(f, ids, b).result.Err? ==> Publish(f, ids, b).files == f
    ensures Publish(f, ids, b).result.Ok? ==> PlanDrafts(b, |b.selected|).Ok?
    ensures Publish(f, ids, b).result.Ok? ==>
      var g, shown, plan := Publish(f, ids, b).files, Visible(f.comments, f.events), PlanDrafts(b, |b.selected|).value;
      && |g.comments| == |shown| + |b.selected| && g.comments[..|shown|] == Normalized(shown, f.events)
      && |g.events| == |f.events| + |b.selected| && g.events[..|f.events|] == f.events
      && (forall i | 0 <= i < |b.selected| :: IsPublished(b, plan, g, |shown|, |f.events|, i))
      && multiset(f.drafts) == multiset(b.selected) + multiset(g.drafts)
      && (forall d | d in g.drafts :: !Wanted(ids)(d))
  {
    var out := Publish(f, ids, b);
    if out.result.Ok? {
      var plan := PlanDrafts(b, |b.selected|).value;
      var shown, g := Visible(f.comments, f.events), out.files;
      SelectionSplitsDrafts(f.drafts, ids);
      FilterMembers(f.drafts, Unwanted(ids));
      PlanExtends(b, |b.selected|, |b.selected|);
      assert g.comments == Normalized(shown, f.events) + plan.published;
      assert g.events == f.events + BatchEvents(plan.published, plan.created);
      hide PlanDrafts, Publish, IsPublished, BatchEvents, Extends;
      forall i | 0 <= i < |b.selected|
        ensures IsPublished(b, plan, g, |shown|, |f.events|, i)
      {
        PublishesOne(b, plan, g, |shown|, |f.events|, i);
      }
    }
  }
}
