/**
 Seen and unseen threads: an actor has seen a thread when one of its reads is no older than the latest human feedback. Holds
 over all runs in which every operation has its own time and a comment's source and actor agree on who is human.
 */
module ReadReceipts {
  import opened Sequences
  import opened CommentModel
  import opened PublishDrafts
  import opened StoreRuns
  import Paths

  // ---------------------------------------------------------------- seen

  predicate IsHuman(c: Comment) {
    c.actor.kind == Human
  }

  /** The time of the latest human feedback, or 0. */
  function LatestHuman(comments: seq<Comment>): nat {
    if comments == [] then 0
    else
      var latest, c := LatestHuman(comments[..|comments| - 1]), comments[|comments| - 1];
      if IsHuman(c) && c.updatedAt > latest then c.updatedAt else latest
  }

  predicate Covers(e: Event, threadId: string, actorId: string, latest: nat) {
    e.ThreadRead? && e.threadId == threadId && e.actor.id == actorId && e.at >= latest
  }

  predicate ThreadSeenBy(comments: seq<Comment>, events: seq<Event>, threadId: string, actorId: string) {
    var latest := LatestHuman(comments);
    latest != 0 && exists e | e in events :: Covers(e, threadId, actorId, latest)
  }

  method IsThreadSeenBy(comments: seq<Comment>, events: seq<Event>, threadId: string, actorId: string) returns (seen: bool)
    ensures seen == ThreadSeenBy(comments, events, threadId, actorId)
  {
    var latest := 0;
    for i := 0 to |comments|
      invariant latest == LatestHuman(comments[..i])
    {
      assert comments[..i + 1][..i] == comments[..i];
      if IsHuman(comments[i]) && comments[i].updatedAt > latest {
        latest := comments[i].updatedAt;
      }
    }
    assert comments[..|comments|] == comments;
    if latest == 0 { return false; }
    for i := 0 to |events|
      invariant forall j | 0 <= j < i :: !Covers(events[j], threadId, actorId, latest)
    {
      if Covers(events[i], threadId, actorId, latest) { return true; }
    }
    return false;
  }

  /** The actor has seen the thread, as the store shows it. */
  predicate SeenBy(f: Files, threadId: string, actorId: string) {
    ThreadSeenBy(CommentsOf(Listed(f), threadId), f.events, threadId, actorId)
  }

  predicate IsFeedback(c: Comment, threadId: string) {
    ThreadIdOf(c) == threadId && IsHuman(c)
  }

  predicate HasFeedback(f: Files, threadId: string) {
    exists c | c in Listed(f) :: IsFeedback(c, threadId)
  }

  /** Human feedback of that time is in the thread. */
  predicate HasFeedbackAt(f: Files, threadId: string, at: nat) {
    exists c | c in Listed(f) :: IsFeedback(c, threadId) && c.updatedAt == at
  }

  /** The latest feedback of a thread, without the detour over its list of comments. */
  ghost predicate IsLatest(comments: seq<Comment>, threadId: string, latest: nat) {
    && (forall c | c in comments && IsFeedback(c, threadId) :: c.updatedAt <= latest)
    && (latest == 0 || exists c | c in comments :: IsFeedback(c, threadId) && c.updatedAt == latest)
  }

  lemma {:induction false} LatestHumanIsLatest(comments: seq<Comment>, threadId: string)
    ensures IsLatest(comments, threadId, LatestHuman(CommentsOf(comments, threadId)))
  {
    if comments != [] {
      var front, c := comments[..|comments| - 1], comments[|comments| - 1];
      hide IsLatest, LatestHuman;
      LatestHumanIsLatest(front, threadId);
      assert comments == front + [c];
      var of := CommentsOf(front, threadId);
      if ThreadIdOf(c) == threadId {
        LatestHumanAppended(of, WithThreadId(c));
        LatestAppended(front, c, threadId, LatestHuman(of));
      } else {
        assert CommentsOf(comments, threadId) == of;
        LatestOfOthers(front, c, threadId, LatestHuman(of));
      }
    }
  }

  lemma LatestHumanAppended(comments: seq<Comment>, c: Comment)
    ensures LatestHuman(comments + [c])
         == if IsHuman(c) && c.updatedAt > LatestHuman(comments) then c.updatedAt else LatestHuman(comments)
  {
    assert (comments + [c])[..|comments|] == comments;
  }

  lemma LatestOfOthers(front: seq<Comment>, c: Comment, threadId: string, latest: nat)
    requires IsLatest(front, threadId, latest) && ThreadIdOf(c) != threadId
    ensures IsLatest(front + [c], threadId, latest)
  {
    if latest != 0 {
      var d :| d in front && IsFeedback(d, threadId) && d.updatedAt == latest;
      assert d in front + [c];
    }
  }

  lemma LatestAppended(front: seq<Comment>, c: Comment, threadId: string, latest: nat)
    requires IsLatest(front, threadId, latest) && ThreadIdOf(c) == threadId
    ensures IsLatest(front + [c], threadId, if IsHuman(c) && c.updatedAt > latest then c.updatedAt else latest)
  {
    assert (front + [c])[|front|] == c;
    if latest != 0 && !(IsHuman(c) && c.updatedAt > latest) {
      var d :| d in front && IsFeedback(d, threadId) && d.updatedAt == latest;
      assert d in front + [c];
    }
  }

  /** The read is of the thread, by the actor, and no older than any human feedback in the thread. */
  predicate CoversFeedback(e: Event, f: Files, threadId: string, actorId: string) {
    && e.ThreadRead? && e.threadId == threadId && e.actor.id == actorId
    && forall c | c in Listed(f) && ThreadIdOf(c) == threadId && c.actor.kind == Human :: c.updatedAt <= e.at
  }

  /** An actor has seen a thread exactly if the thread has dated human feedback and one of the actor's reads covers all of it. */
  lemma SeenMeans(f: Files, threadId: string, actorId: string)
    ensures SeenBy(f, threadId, actorId) <==>
      && (exists c | c in Listed(f) :: IsFeedback(c, threadId) && c.updatedAt > 0)
      && exists e | e in f.events :: CoversFeedback(e, f, threadId, actorId)
  {
    LatestHumanIsLatest(Listed(f), threadId);
    var latest := LatestHuman(CommentsOf(Listed(f), threadId));
    hide LatestHuman, CommentsOf, Visible;
    if latest != 0 {
      var c :| c in Listed(f) && IsFeedback(c, threadId) && c.updatedAt == latest;
      forall e | e in f.events
        ensures Covers(e, threadId, actorId, latest) <==> CoversFeedback(e, f, threadId, actorId)
      {
        CoversTheLatest(e, f, threadId, actorId, c, latest);
      }
    }
  }

  lemma CoversTheLatest(e: Event, f: Files, threadId: string, actorId: string, c: Comment, latest: nat)
    requires IsLatest(Listed(f), threadId, latest) && c in Listed(f) && IsFeedback(c, threadId) && c.updatedAt == latest
    ensures Covers(e, threadId, actorId, latest) <==> CoversFeedback(e, f, threadId, actorId)
  {
    hide Visible;
    assert forall d | d in Listed(f) && IsFeedback(d, threadId) :: d.updatedAt <= latest;
    if CoversFeedback(e, f, threadId, actorId) {
      assert c.updatedAt <= e.at;
    }
  }

  /** The human comments of a thread, as a passive read looks at them. */
  function FeedbackOf(threadId: string): Comment -> bool {
    (c: Comment) => (ThreadIdOf(c) == threadId || c.id == threadId) && c.source == "human"
  }

  /** Two passive reads are for the same revision exactly if ids, times and bodies of the human comments are the same, in order. */
  lemma {:induction false} RevisionMeans(comments: seq<Comment>, threadId: string)
    ensures var of, revision := Filter(comments, FeedbackOf(threadId)), Revision(comments, threadId);
      |revision| == |of| && forall i | 0 <= i < |of| :: revision[i] == Feedback(of[i].id, of[i].updatedAt, of[i].body)
  {
    if comments != [] {
      var n := |comments| - 1;
      RevisionMeans(comments[..n], threadId);
      FilterOneMore(comments, n, FeedbackOf(threadId));
      assert comments[..n + 1] == comments;
      hide Filter;
    }
  }

  /** The receipt on record that answers a read: of the same actor for the thread, and for the revision or the client's own id. */
  predicate AnswersRead(e: Event, f: Files, threadId: string, actorId: string, clientEventId: string) {
    && e.ThreadRead? && e.threadId == threadId && e.actor.id == actorId
    && e.key == if IsBlank(clientEventId) then Passive(Revision(Listed(f), threadId)) else Explicit(clientEventId)
  }

  /**
   A read succeeds exactly for a thread with a listed comment and a known actor. A receipt on record is returned and nothing
   changes; otherwise one receipt with the trimmed id of the client, or the revision, is appended.
   */
  lemma ReadIsRecorded(f: Files, threadId: string, actor: Actor, clientEventId: string, now: nat)
    ensures var out := AppendThreadRead(f, threadId, actor, clientEventId, now);
      var found := exists e | e in f.events :: AnswersRead(e, f, threadId, actor.id, clientEventId);
      && (out.result.Ok? <==> !IsBlank(threadId) && actor.id != "unknown" && exists c | c in Listed(f) :: ThreadIdOf(c) == threadId)
      && (out.result.Err? || found ==> out.files == f)
      && (out.result.Ok? && found ==>
          out.result.value in f.events && AnswersRead(out.result.value, f, threadId, actor.id, clientEventId))
      && (out.result.Ok? && !found ==>
          var e := out.result.value;
          && out.files == f.(events := f.events + [e])
          && e == ThreadRead(threadId, if IsBlank(clientEventId) then Passive(Revision(Listed(f), threadId))
                                       else Explicit(Paths.TrimSpace(clientEventId)), actor, now))
  {
    ThreadsHaveComments(Listed(f), threadId);
    hide IsBlank, Paths.TrimSpace, Visible, Revision, ThreadIds, CommentsOf;
    var key := LookupKey(Listed(f), threadId, clientEventId);
    assert forall e :: IsReceipt(e, threadId, actor.id, key) <==> AnswersRead(e, f, threadId, actor.id, clientEventId);
  }

  // ---------------------------------------------------------------- what runs keep

  predicate FeedbackIsUntil(revision: seq<Feedback>, at: nat) {
    forall b | b in revision :: b.updatedAt <= at
  }

  predicate EventInTime(e: Event, clock: nat) {
    e.at <= clock && (e.ThreadRead? && e.key.Passive? ==> FeedbackIsUntil(e.key.revision, e.at))
  }

  predicate CommentInTime(c: Comment, clock: nat) {
    0 < c.updatedAt <= clock
  }

  /** No time is ahead of the clock, and a passive receipt is for feedback that was there. */
  predicate InTime(f: Files, clock: nat) {
    && (forall c | c in f.comments :: CommentInTime(c, clock))
    && (forall e | e in f.events :: EventInTime(e, clock))
  }

  /** Source and actor of every comment agree on whether it is human feedback. */
  predicate Agrees(f: Files) {
    forall c | c in f.comments :: IsHuman(c) <==> c.source == "human"
  }

  lemma {:induction false} RevisionIsFeedback(comments: seq<Comment>, threadId: string, clock: nat)
    requires forall c | c in comments :: c.updatedAt <= clock
    ensures FeedbackIsUntil(Revision(comments, threadId), clock)
    ensures forall c | c in comments && ThreadIdOf(c) == threadId && c.source == "human" ::
              Feedback(c.id, c.updatedAt, c.body) in Revision(comments, threadId)
  {
    if comments != [] {
      var n := |comments| - 1;
      RevisionIsFeedback(comments[..n], threadId, clock);
      assert comments == comments[..n] + [comments[n]];
    }
  }

  /** A comment behind a step is older and was there before, or has the time of the step. */
  ghost predicate IsOldOrNew(f: Files, c: Comment, now: nat) {
    c.updatedAt == now ||
    exists d | d in Listed(f) :: d.updatedAt == c.updatedAt && ThreadIdOf(d) == ThreadIdOf(c) && d.actor == c.actor
  }

  /** What publishing leaves in the files, entry by entry. */
  ghost predicate IsPublication(f: Files, g: Files, now: nat) {
    && |Listed(f)| <= |g.comments| && g.comments[..|Listed(f)|] == Normalized(Listed(f), f.events)
    && (forall i | |Listed(f)| <= i < |g.comments| :: g.comments[i].updatedAt == now)
    && (forall i | |f.events| <= i < |g.events| :: !g.events[i].ThreadRead? && g.events[i].at == now)
  }

  lemma NewCommentTime(f: Files, ids: seq<string>, b: Batch, i: nat)
    requires HasIds(b) && b.selected == Filter(f.drafts, Wanted(ids)) && Publish(f, ids, b).result.Ok?
    requires |Listed(f)| <= i < |Publish(f, ids, b).files.comments|
    ensures Publish(f, ids, b).files.comments[i].updatedAt == b.now
  {
    hide Publish, PlanDrafts, Normalized, Visible, Filter, RecordsComment;
    PublishConserves(f, ids, b);
    var g, plan := Publish(f, ids, b).files, PlanDrafts(b, |b.selected|).value;
    assert IsPublished(b, plan, g, |Listed(f)|, |f.events|, i - |Listed(f)|);
  }

  lemma NewEventTime(f: Files, ids: seq<string>, b: Batch, i: nat)
    requires HasIds(b) && b.selected == Filter(f.drafts, Wanted(ids)) && Publish(f, ids, b).result.Ok?
    requires |f.events| <= i < |Publish(f, ids, b).files.events|
    ensures !Publish(f, ids, b).files.events[i].ThreadRead? && Publish(f, ids, b).files.events[i].at == b.now
  {
    hide Publish, PlanDrafts, Normalized, Visible, Filter;
    PublishConserves(f, ids, b);
    var g, plan := Publish(f, ids, b).files, PlanDrafts(b, |b.selected|).value;
    assert IsPublished(b, plan, g, |Listed(f)|, |f.events|, i - |f.events|);
  }

  lemma BatchIsPublication(f: Files, ids: seq<string>, b: Batch)
    requires HasIds(b) && b.selected == Filter(f.drafts, Wanted(ids)) && Publish(f, ids, b).result.Ok?
    ensures IsPublication(f, Publish(f, ids, b).files, b.now)
  {
    hide Publish, PlanDrafts, Normalized, Visible, Filter, IsPublished;
    PublishConserves(f, ids, b);
    var g := Publish(f, ids, b).files;
    forall i | |Listed(f)| <= i < |g.comments|
      ensures g.comments[i].updatedAt == b.now
    {
      NewCommentTime(f, ids, b, i);
    }
    forall i | |f.events| <= i < |g.events|
      ensures !g.events[i].ThreadRead? && g.events[i].at == b.now
    {
      NewEventTime(f, ids, b, i);
    }
  }

  lemma PublishingIs(f: Files, op: Op, now: nat)
    requires op.PublishOp?
    ensures var b := PublishBatch(f, op, now);
      && b.now == now && b.actor == op.actor && Step(f, op, now) == Publish(f, op.ids, b).files
      && (Publish(f, op.ids, b).result.Err? ==> Step(f, op, now) == f)
      && (Publish(f, op.ids, b).result.Ok? <==> b.selected != [] && PlanDrafts(b, |b.selected|).Ok?)
  {
    hide PlanDrafts, BatchEvents, Normalized, Visible, Threads, ThreadStatuses, Filter;
  }

  lemma PublishedFiles(f: Files, op: Op, now: nat)
    requires op.PublishOp?
    ensures Step(f, op, now) == f || IsPublication(f, Step(f, op, now), now)
  {
    hide Step, Publish, PlanDrafts, PublishBatch, IsPublication;
    PublishingIs(f, op, now);
    var b := PublishBatch(f, op, now);
    if Publish(f, op.ids, b).result.Ok? {
      BatchIsPublication(f, op.ids, b);
    }
  }

  lemma PublishedAreNew(f: Files, op: Op, now: nat, c: Comment)
    requires op.PublishOp? && c in Step(f, op, now).comments
    ensures c in f.comments || IsOldOrNew(f, c, now)
  {
    PublishedFiles(f, op, now);
    var g := Step(f, op, now);
    hide Step, Normalized;
    if g != f {
      var i :| 0 <= i < |g.comments| && g.comments[i] == c;
      if i < |Listed(f)| {
        assert c == g.comments[..|Listed(f)|][i];
        NormalizedIs(Listed(f), f.events, i);
        assert Listed(f)[i] in Listed(f);
      }
    }
  }

  lemma NormalizedIs(comments: seq<Comment>, events: seq<Event>, i: nat)
    requires i < |comments|
    ensures var c := Normalized(comments, events)[i];
      && ThreadIdOf(c) == ThreadIdOf(comments[i]) && c.updatedAt == comments[i].updatedAt && c.actor == comments[i].actor
      && c.id == comments[i].id && c.source == comments[i].source
  {}

  lemma IsNew(f: Files, c: Comment, now: nat)
    requires c.updatedAt == now
    ensures IsOldOrNew(f, c, now)
  {}

  lemma EditedAreNew(f: Files, op: Op, now: nat, c: Comment)
    requires op.UpdateOp? && c in Step(f, op, now).comments
    ensures c in f.comments || IsOldOrNew(f, c, now)
  {
    hide IsDeleted, Visible, IsBlank, Paths.TrimSpace;
  }

  lemma StepCommentsAreOldOrNew(f: Files, op: Op, now: nat, c: Comment)
    requires !op.OverwriteOp? && c in Step(f, op, now).comments
    ensures c in f.comments || IsOldOrNew(f, c, now)
  {
    hide Invalid, FindReused, FindComment, FirstTombstone, FindReceipt, Revision, IsDeleted, Visible, ThreadIds, IsBlank, Publish,
         PublishBatch, DraftIndex, LastDraft, WithoutDraft, Paths.TrimSpace, IsOldOrNew;
    if op.PublishOp? {
      PublishedAreNew(f, op, now, c);
    } else if op.UpdateOp? {
      EditedAreNew(f, op, now, c);
    } else if op.CreateOp? && c !in f.comments {
      assert c.updatedAt == now;
      IsNew(f, c, now);
    }
  }

  /** Comments that are kept in the file unchanged were listed or stay hidden. */
  lemma ListedAreOldOrNew(f: Files, op: Op, now: nat, c: Comment)
    requires !op.OverwriteOp? && c in Listed(Step(f, op, now))
    ensures IsOldOrNew(f, c, now)
  {
    var g := Step(f, op, now);
    StepCommentsAreOldOrNew(f, op, now, c);
    if c in f.comments {
      StepAppends(f, op, now);
      StillListed(f, g.events, c);
    }
  }

  lemma StillListed(f: Files, more: seq<Event>, c: Comment)
    requires c in f.comments && f.events <= more && !IsDeleted(more, c.id)
    ensures c in Listed(f)
  {
    if IsDeleted(f.events, c.id) {
      FirstTombstoneStays(f.events, more, c.id);
    }
  }

  /** A step appends receipts only if it is a read, and then the one it returns. */
  lemma NewReceipts(f: Files, op: Op, now: nat, i: nat)
    requires |f.events| <= i < |Step(f, op, now).events| && Step(f, op, now).events[i].ThreadRead?
    ensures op.ReadOp? && i == |f.events|
    ensures var e := Step(f, op, now).events[i];
      && e.at == now && e.threadId == op.threadId && e.actor == op.actor
      && e.key == RecordedKey(LookupKey(Listed(f), op.threadId, op.clientEventId))
      && FindReceipt(f.events, op.threadId, op.actor.id, LookupKey(Listed(f), op.threadId, op.clientEventId)).None?
  {
    hide Invalid, FindReused, FindComment, FirstTombstone, FindReceipt, Revision, IsDeleted, Visible, ThreadIds, CommentIndex, IsBlank,
         PublicComment, DraftIndex, LastDraft, WithoutDraft, Publish, PublishBatch;
    if op.PublishOp? {
      PublishedFiles(f, op, now);
    }
  }

  lemma OtherEventsInTime(f: Files, op: Op, now: nat, i: nat)
    requires |f.events| <= i < |Step(f, op, now).events|
    ensures Step(f, op, now).events[i].at == now
  {
    hide Invalid, FindReused, FindComment, FirstTombstone, FindReceipt, Revision, IsDeleted, Visible, ThreadIds, CommentIndex, IsBlank,
         PublicComment, DraftIndex, LastDraft, WithoutDraft, Publish, PublishBatch;
    if op.PublishOp? {
      PublishedFiles(f, op, now);
    }
  }

  /** Every step keeps the times in order; an overwritten file must be in time itself. */
  lemma StepKeepsInTime(f: Files, op: Op, clock: nat, now: nat)
    requires InTime(f, clock) && clock < now
    requires op.OverwriteOp? ==> forall c | c in op.comments :: CommentInTime(c, now)
    ensures InTime(Step(f, op, now), now)
  {
    var g := Step(f, op, now);
    forall c | c in g.comments
      ensures CommentInTime(c, now)
    {
      if !op.OverwriteOp? {
        StepCommentsAreOldOrNew(f, op, now, c);
      }
    }
    StepAppends(f, op, now);
    forall i | 0 <= i < |g.events|
      ensures EventInTime(g.events[i], now)
    {
      if i < |f.events| {
        assert g.events[i] == f.events[i] && f.events[i] in f.events;
      } else {
        OtherEventsInTime(f, op, now, i);
        if g.events[i].ThreadRead? {
          NewReceipts(f, op, now, i);
          RevisionIsFeedback(Listed(f), op.threadId, clock);
          RevisionUntil(Revision(Listed(f), op.threadId), clock, now);
        }
      }
    }
  }

  lemma RevisionUntil(revision: seq<Feedback>, clock: nat, now: nat)
    requires FeedbackIsUntil(revision, clock) && clock <= now
    ensures FeedbackIsUntil(revision, now)
  {}

  // ---------------------------------------------------------------- the protocol

  /** After a passive read the actor has seen the thread, also when the read was recognized as one made before. */
  lemma PassiveReadIsSeen(f: Files, threadId: string, actor: Actor, clientEventId: string, clock: nat, now: nat)
    requires InTime(f, clock) && clock < now && Agrees(f) && IsBlank(clientEventId)
    requires AppendThreadRead(f, threadId, actor, clientEventId, now).result.Ok? && HasFeedback(f, threadId)
    ensures SeenBy(AppendThreadRead(f, threadId, actor, clientEventId, now).files, threadId, actor.id)
  {
    var out := AppendThreadRead(f, threadId, actor, clientEventId, now);
    var key := LookupKey(Listed(f), threadId, clientEventId);
    LatestHumanIsLatest(Listed(f), threadId);
    var latest := LatestHuman(CommentsOf(Listed(f), threadId));
    RevisionIsFeedback(Listed(f), threadId, clock);
    match FindReceipt(f.events, threadId, actor.id, key)
    case Some(receipt) =>
      assert EventInTime(receipt, clock);
      ReceiptCoversRevision(f, threadId, receipt.at, latest);
      assert Covers(receipt, threadId, actor.id, latest);
    case None =>
      var event := out.files.events[|f.events|];
      assert event in out.files.events;
      ReadChangesNoListing(f, event);
      assert Covers(event, threadId, actor.id, latest);
  }

  /** A receipt for the current revision is as late as the latest feedback. */
  lemma ReceiptCoversRevision(f: Files, threadId: string, at: nat, latest: nat)
    requires Agrees(f) && IsLatest(Listed(f), threadId, latest)
    requires FeedbackIsUntil(Revision(Listed(f), threadId), at)
    ensures latest <= at
  {
    if latest != 0 {
      var c :| c in Listed(f) && IsFeedback(c, threadId) && c.updatedAt == latest;
      RevisionIsFeedback(Listed(f), threadId, MaxUpdated(Listed(f)));
      assert Feedback(c.id, c.updatedAt, c.body) in Revision(Listed(f), threadId);
    }
  }

  ghost function MaxUpdated(comments: seq<Comment>): (r: nat)
    ensures forall c | c in comments :: c.updatedAt <= r
  {
    if comments == [] then 0
    else
      assert comments == [comments[0]] + comments[1..];
      Max(comments[0].updatedAt, MaxUpdated(comments[1..]))
  }

  lemma ReadChangesNoListing(f: Files, e: Event)
    requires !e.CommentDeleted?
    ensures Visible(f.comments, f.events + [e]) == Listed(f)
  {
    NoNewTombstone(f.events, e);
    SameVisible(f.comments, f.events, f.events + [e]);
  }

  lemma {:induction false} SameVisible(comments: seq<Comment>, events: seq<Event>, more: seq<Event>)
    requires forall id :: IsDeleted(events, id) <==> IsDeleted(more, id)
    ensures Visible(comments, events) == Visible(comments, more)
  {
    if comments != [] {
      SameVisible(comments[1..], events, more);
    }
  }

  /** Feedback that a step brings makes the thread unseen for everybody. */
  lemma NewFeedbackIsUnseen(f: Files, op: Op, clock: nat, now: nat, threadId: string, actorId: string)
    requires InTime(f, clock) && clock < now && !op.OverwriteOp?
    requires HasFeedbackAt(Step(f, op, now), threadId, now)
    ensures !SeenBy(Step(f, op, now), threadId, actorId)
  {
    hide Step, LatestHuman, CommentsOf, Visible;
    var g := Step(f, op, now);
    StepKeepsInTime(f, op, clock, now);
    StepAppends(f, op, now);
    LatestHumanIsLatest(Listed(g), threadId);
    var latest := LatestHuman(CommentsOf(Listed(g), threadId));
    var c :| c in Listed(g) && IsFeedback(c, threadId) && c.updatedAt == now;
    forall i | 0 <= i < |g.events|
      ensures !Covers(g.events[i], threadId, actorId, latest)
    {
      if i < |f.events| {
        assert g.events[i] == f.events[i] && EventInTime(f.events[i], clock);
      } else if g.events[i].ThreadRead? {
        NewReceipts(f, op, now, i);
        QuietStepsBringNothing(f, op, clock, now, c);
      }
    }
  }

  /** Steps that bring no comment and edit none. */
  predicate IsQuiet(op: Op) {
    !(op.CreateOp? || op.PublishOp? || op.UpdateOp? || op.OverwriteOp?)
  }

  lemma QuietStepsBringNothing(f: Files, op: Op, clock: nat, now: nat, c: Comment)
    requires InTime(f, clock) && clock < now && IsQuiet(op) && c in Step(f, op, now).comments
    ensures c.updatedAt < now
  {
    hide Visible, ThreadIds, FindReceipt, Revision, FirstTombstone, FindComment;
    assert c in f.comments;
    assert CommentInTime(c, clock);
  }

  /**
   A thread that an actor has seen stays seen as long as human feedback is left in it and no new feedback arrives: it turns
   unseen with new feedback, or when the last feedback is deleted, and with nothing else.
   */
  lemma SeenIsLostWith(f: Files, op: Op, clock: nat, now: nat, threadId: string, actorId: string)
    requires InTime(f, clock) && clock < now && !op.OverwriteOp? && SeenBy(f, threadId, actorId)
    ensures SeenBy(Step(f, op, now), threadId, actorId) <==>
            HasFeedback(Step(f, op, now), threadId) && !HasFeedbackAt(Step(f, op, now), threadId, now)
  {
    hide Step, LatestHuman, CommentsOf, Visible, InTime;
    var g := Step(f, op, now);
    StepKeepsInTime(f, op, clock, now);
    StepAppends(f, op, now);
    LatestHumanIsLatest(Listed(f), threadId);
    LatestHumanIsLatest(Listed(g), threadId);
    if HasFeedbackAt(g, threadId, now) {
      NewFeedbackIsUnseen(f, op, clock, now, threadId, actorId);
    } else if HasFeedback(g, threadId) {
      var latest := LatestHuman(CommentsOf(Listed(f), threadId));
      var e :| e in f.events && Covers(e, threadId, actorId, latest);
      assert e in g.events;
      LatestIsOld(f, op, now, threadId, latest, LatestHuman(CommentsOf(Listed(g), threadId)));
      FeedbackHasTime(g, threadId, now);
    }
  }

  lemma FeedbackHasTime(g: Files, threadId: string, now: nat)
    requires InTime(g, now) && HasFeedback(g, threadId)
    ensures LatestHuman(CommentsOf(Listed(g), threadId)) != 0
  {
    LatestHumanIsLatest(Listed(g), threadId);
    var c :| c in Listed(g) && IsFeedback(c, threadId);
    assert CommentInTime(c, now);
  }

  lemma LatestIsOld(f: Files, op: Op, now: nat, threadId: string, latest: nat, after: nat)
    requires !op.OverwriteOp? && !HasFeedbackAt(Step(f, op, now), threadId, now)
    requires IsLatest(Listed(f), threadId, latest) && IsLatest(Listed(Step(f, op, now)), threadId, after)
    ensures after <= latest
  {
    if after != 0 {
      var c :| c in Listed(Step(f, op, now)) && IsFeedback(c, threadId) && c.updatedAt == after;
      ListedAreOldOrNew(f, op, now, c);
    }
  }

  // ---------------------------------------------------------------- which steps change what is seen

  /** The request was answered before with the comment it added then. */
  predicate IsReused(f: Files, c: NewComment) {
    && c.threadId != "" && !IsBlank(c.clientEventId)
    && FindReused(Listed(f), f.events, c.threadId, c.actor.id, Paths.TrimSpace(c.clientEventId)).Some?
  }

  /** The thread in which the batch places draft `i`, if it can. */
  function LandsIn(b: Batch, i: nat): Option<string>
    requires HasIds(b) && i < |b.selected|
  {
    match PlanDrafts(b, i)
    case Err(_) => None
    case Ok(plan) =>
      match PlaceDraft(b, plan, b.selected[i], b.threadIds[i])
      case Err(_) => None
      case Ok(placed) => Some(if IsBlank(placed.threadId) then b.commentIds[i] else placed.threadId)
  }

  predicate IsHumanDraft(b: Batch, i: nat)
    requires i < |b.selected|
  {
    ActorForDraft(b.selected[i], b.actor).kind == Human
  }

  /** All drafts can be placed, and one of a person is placed in the thread. */
  predicate PlacesFeedback(b: Batch, threadId: string)
    requires HasIds(b)
  {
    && b.selected != [] && PlanDrafts(b, |b.selected|).Ok?
    && exists i | 0 <= i < |b.selected| :: IsHumanDraft(b, i) && LandsIn(b, i) == Some(threadId)
  }

  /** The listed comment that an edit changes is a person's, in the thread. */
  predicate EditsFeedback(f: Files, id: string, threadId: string) {
    var i := CommentIndex(Listed(f), id);
    i < |Listed(f)| && IsFeedback(Listed(f)[i], threadId)
  }

  /** What a client can check before the step: whether it brings human feedback to the thread. */
  predicate BringsFeedback(f: Files, op: Op, now: nat, threadId: string) {
    match op
    case CreateOp(c, newId) =>
      && Invalid(c.path, c.body, c.status).None? && !IsReused(f, c) && c.actor.kind == Human
      && threadId == if IsBlank(c.threadId) then newId else c.threadId
    case UpdateOp(id, _, hasStatus, _) => !hasStatus && !IsBlank(id) && EditsFeedback(f, id, threadId)
    case PublishOp(_, _, _, _, _) => PlacesFeedback(PublishBatch(f, op, now), threadId)
    case _ => false
  }

  /** The ids that a step draws for new comments are not those of deleted ones. */
  predicate DrawsNewIds(f: Files, op: Op, now: nat) {
    match op
    case CreateOp(_, newId) => !IsDeleted(f.events, newId)
    case PublishOp(_, _, _, _, _) => forall id | id in PublishBatch(f, op, now).commentIds :: !IsDeleted(f.events, id)
    case _ => true
  }

  lemma ListedAreOld(f: Files, clock: nat, now: nat)
    requires InTime(f, clock) && clock < now
    ensures forall c | c in Listed(f) :: c.updatedAt < now
  {
    forall c | c in Listed(f)
      ensures c.updatedAt < now
    {
      assert CommentInTime(c, clock);
    }
  }

  lemma NothingIsNew(f: Files, clock: nat, now: nat, threadId: string)
    requires InTime(f, clock) && clock < now
    ensures !HasFeedbackAt(f, threadId, now)
  {
    ListedAreOld(f, clock, now);
  }

  /** Creating brings feedback exactly if a valid request that was not answered before comes from a person. */
  lemma HumanCommentsBringFeedback(f: Files, op: Op, clock: nat, now: nat, threadId: string)
    requires op.CreateOp? && InTime(f, clock) && clock < now
    ensures HasFeedbackAt(Step(f, op, now), threadId, now) ==> BringsFeedback(f, op, now, threadId)
    ensures DrawsNewIds(f, op, now) && BringsFeedback(f, op, now, threadId) ==> HasFeedbackAt(Step(f, op, now), threadId, now)
  {
    hide Visible, FindReused, Invalid, HasFeedbackAt, IsDeleted, Paths.TrimSpace, InTime;
    var g, out := Step(f, op, now), Create(f, op.comment, now, op.newId);
    NothingIsNew(f, clock, now, threadId);
    if Invalid(op.comment.path, op.comment.body, op.comment.status).None? && !IsReused(f, op.comment) {
      TrimOfNothing();
      CreatedFeedback(f, op, clock, now, threadId);
    }
  }

  lemma TrimOfNothing()
    ensures Paths.TrimSpace("") == ""
  {}

  /** The comment that creating appends. */
  function Created(op: Op, now: nat): Comment
    requires op.CreateOp?
  {
    var c := op.comment;
    PublicComment(op.newId, c.threadId, c.path, c.anchor, c.body, c.source, c.actor, now, None)
  }

  lemma CreatedFeedback(f: Files, op: Op, clock: nat, now: nat, threadId: string)
    requires op.CreateOp? && InTime(f, clock) && clock < now
    requires Invalid(op.comment.path, op.comment.body, op.comment.status).None? && !IsReused(f, op.comment)
    ensures HasFeedbackAt(Step(f, op, now), threadId, now) ==> IsFeedback(Created(op, now), threadId)
    ensures !IsDeleted(f.events, op.newId) && IsFeedback(Created(op, now), threadId) ==> HasFeedbackAt(Step(f, op, now), threadId, now)
  {
    hide Visible, FindReused, Invalid, Paths.TrimSpace, IsDeleted;
    var g, comment := Step(f, op, now), Created(op, now);
    assert g.comments == Listed(f) + [comment] && g.comments[|Listed(f)|] == comment;
    ListedAreOld(f, clock, now);
    assert forall c | c in Listed(g) && c.updatedAt == now :: c == comment;
    if !IsDeleted(f.events, op.newId) {
      NoNewTombstone(f.events, g.events[|f.events|]);
      assert g.events == f.events + [g.events[|f.events|]];
      assert comment in Listed(g);
    }
  }

  /** Editing brings feedback exactly if the edited comment is a person's. */
  lemma HumanEditsBringFeedback(f: Files, op: Op, clock: nat, now: nat, threadId: string)
    requires op.UpdateOp? && InTime(f, clock) && clock < now
    ensures HasFeedbackAt(Step(f, op, now), threadId, now) <==> BringsFeedback(f, op, now, threadId)
  {
    hide Visible, HasFeedbackAt, IsDeleted, IsBlank, EditsFeedback, InTime;
    NothingIsNew(f, clock, now, threadId);
    if !op.hasStatus && !IsBlank(op.id) {
      if CommentIndex(Listed(f), op.id) < |Listed(f)| {
        EditedFeedback(f, op, clock, now, threadId);
      } else {
        EditsNothing(f, op.id, threadId);
      }
    }
  }

  lemma EditsNothing(f: Files, id: string, threadId: string)
    requires CommentIndex(Listed(f), id) == |Listed(f)|
    ensures !EditsFeedback(f, id, threadId)
  {}

  lemma EditedFeedback(f: Files, op: Op, clock: nat, now: nat, threadId: string)
    requires op.UpdateOp? && InTime(f, clock) && clock < now
    requires !op.hasStatus && !IsBlank(op.id) && CommentIndex(Listed(f), op.id) < |Listed(f)|
    ensures HasFeedbackAt(Step(f, op, now), threadId, now) <==> EditsFeedback(f, op.id, threadId)
  {
    hide Visible, IsBlank, CommentIndex, Paths.TrimSpace, IsDeleted;
    var g, i := Step(f, op, now), CommentIndex(Listed(f), op.id);
    var edited := g.comments[i];
    assert g.comments == Listed(f)[i := edited] && Listed(f)[i] in Listed(f);
    ListedAreOld(f, clock, now);
    assert forall k | 0 <= k < |g.comments| && k != i :: g.comments[k] == Listed(f)[k] && Listed(f)[k] in Listed(f);
    assert forall c | c in Listed(g) && c.updatedAt == now :: c == edited;
    if op.body.Some? {
      NoNewTombstone(f.events, g.events[|f.events|]);
      assert g.events == f.events + [g.events[|f.events|]];
    } else {
      assert g.events == f.events;
    }
    assert edited in Listed(g);
  }

  /** Publishing brings feedback exactly if it succeeds and places a draft of a person in the thread. */
  lemma HumanDraftsBringFeedback(f: Files, op: Op, clock: nat, now: nat, threadId: string)
    requires op.PublishOp? && InTime(f, clock) && clock < now
    ensures HasFeedbackAt(Step(f, op, now), threadId, now) ==> BringsFeedback(f, op, now, threadId)
    ensures DrawsNewIds(f, op, now) && BringsFeedback(f, op, now, threadId) ==> HasFeedbackAt(Step(f, op, now), threadId, now)
  {
    hide Step, Publish, PlanDrafts, PublishBatch, HasFeedbackAt, InTime, Visible, LandsIn, IsHumanDraft;
    PublishingIs(f, op, now);
    NothingIsNew(f, clock, now, threadId);
    var b, g := PublishBatch(f, op, now), Step(f, op, now);
    if Publish(f, op.ids, b).result.Ok? {
      if HasFeedbackAt(g, threadId, now) {
        var i := FeedbackWasPlaced(f, op, clock, now, threadId);
      }
      if DrawsNewIds(f, op, now) && PlacesFeedback(b, threadId) {
        var i :| 0 <= i < |b.selected| && IsHumanDraft(b, i) && LandsIn(b, i) == Some(threadId);
        PlacedIsFeedback(f, op, now, threadId, i);
      }
    }
  }

  /** Comment `i` of the batch, and where it stands in the file. */
  lemma PublishedComment(f: Files, op: Op, now: nat, i: nat)
    requires op.PublishOp? && Publish(f, op.ids, PublishBatch(f, op, now)).result.Ok? && i < |PublishBatch(f, op, now).selected|
    ensures var b, g, n := PublishBatch(f, op, now), Step(f, op, now), |Listed(f)|;
      && n + i < |g.comments| && g.comments[n + i].updatedAt == now && g.comments[n + i].id == b.commentIds[i]
      && (IsHuman(g.comments[n + i]) <==> IsHumanDraft(b, i)) && LandsIn(b, i) == Some(ThreadIdOf(g.comments[n + i]))
  {
    hide Step, Publish, PlanDrafts, PublishBatch, Visible, PlaceDraft, Filter, Normalized, Extends, RecordsComment, Paths.TrimSpace,
         ActorForDraft, Invalid;
    TrimOfNothing();
    PublishingIs(f, op, now);
    var b := PublishBatch(f, op, now);
    PublishConserves(f, op.ids, b);
    PublishedIs(b, i);
    var g, plan := Step(f, op, now), PlanDrafts(b, |b.selected|).value;
    assert IsPublished(b, plan, g, |Listed(f)|, |f.events|, i);
    assert g.comments[|Listed(f)| + i] == CommentOf(b, i, PlaceOf(b, i).threadId);
  }

  lemma FeedbackWasPlaced(f: Files, op: Op, clock: nat, now: nat, threadId: string) returns (i: nat)
    requires op.PublishOp? && InTime(f, clock) && clock < now && HasFeedbackAt(Step(f, op, now), threadId, now)
    requires Publish(f, op.ids, PublishBatch(f, op, now)).result.Ok?
    ensures var b := PublishBatch(f, op, now);
      i < |b.selected| && IsHumanDraft(b, i) && LandsIn(b, i) == Some(threadId)
  {
    hide Step, Publish, PlanDrafts, PublishBatch, Visible, LandsIn, IsHumanDraft, Filter, Normalized, IsPublished, RecordsComment;
    var b, g := PublishBatch(f, op, now), Step(f, op, now);
    PublishingIs(f, op, now);
    PublishConserves(f, op.ids, b);
    var c :| c in Listed(g) && IsFeedback(c, threadId) && c.updatedAt == now;
    var k :| 0 <= k < |g.comments| && g.comments[k] == c;
    ListedAreOld(f, clock, now);
    assert k >= |Listed(f)| by {
      if k < |Listed(f)| {
        assert g.comments[..|Listed(f)|][k] == c && Listed(f)[k] in Listed(f);
        NormalizedIs(Listed(f), f.events, k);
      }
    }
    i := k - |Listed(f)|;
    PublishedComment(f, op, now, i);
  }

  lemma PlacedIsFeedback(f: Files, op: Op, now: nat, threadId: string, i: nat)
    requires op.PublishOp? && Publish(f, op.ids, PublishBatch(f, op, now)).result.Ok? && DrawsNewIds(f, op, now)
    requires i < |PublishBatch(f, op, now).selected| && IsHumanDraft(PublishBatch(f, op, now), i)
    requires LandsIn(PublishBatch(f, op, now), i) == Some(threadId)
    ensures HasFeedbackAt(Step(f, op, now), threadId, now)
  {
    PublishedComment(f, op, now, i);
    PublishingDeletesNothing(f, op, now);
    hide Step, Publish, PlanDrafts, PublishBatch, LandsIn, IsHumanDraft, IsDeleted;
    assert PublishBatch(f, op, now).commentIds[i] in PublishBatch(f, op, now).commentIds;
    var g := Step(f, op, now);
    var c := g.comments[|Listed(f)| + i];
    assert c in Listed(g) && IsFeedback(c, threadId);
  }

  lemma PublishingDeletesNothing(f: Files, op: Op, now: nat)
    requires op.PublishOp?
    ensures forall id :: IsDeleted(Step(f, op, now).events, id) ==> IsDeleted(f.events, id)
  {
    hide Step, Publish, PlanDrafts, PublishBatch, IsPublished, Normalized, Visible, Filter;
    var b, g := PublishBatch(f, op, now), Step(f, op, now);
    PublishingIs(f, op, now);
    if Publish(f, op.ids, b).result.Ok? {
      PublishConserves(f, op.ids, b);
      var plan := PlanDrafts(b, |b.selected|).value;
      forall i | |f.events| <= i < |g.events|
        ensures !g.events[i].CommentDeleted?
      {
        PublishedEvent(b, plan, g, |Listed(f)|, |f.events|, i - |f.events|);
      }
      forall id | IsDeleted(g.events, id)
        ensures IsDeleted(f.events, id)
      {
        var i :| 0 <= i < |g.events| && IsTombstone(g.events[i], id);
        assert g.events[i] == f.events[i];
      }
    }
  }

  lemma PublishedEvent(b: Batch, plan: Plan, g: Files, n: nat, m: nat, i: nat)
    requires IsPublished(b, plan, g, n, m, i)
    ensures !g.events[m + i].CommentDeleted?
  {}

  /** A step brings feedback to a thread exactly if it creates, publishes or edits a comment of a person there. */
  lemma OnlyCommentsBringFeedback(f: Files, op: Op, clock: nat, now: nat, threadId: string)
    requires InTime(f, clock) && clock < now && !op.OverwriteOp?
    ensures HasFeedbackAt(Step(f, op, now), threadId, now) ==> BringsFeedback(f, op, now, threadId)
    ensures DrawsNewIds(f, op, now) && BringsFeedback(f, op, now, threadId) ==> HasFeedbackAt(Step(f, op, now), threadId, now)
  {
    hide Step, BringsFeedback, DrawsNewIds, InTime;
    if op.CreateOp? {
      HumanCommentsBringFeedback(f, op, clock, now, threadId);
    } else if op.UpdateOp? {
      HumanEditsBringFeedback(f, op, clock, now, threadId);
    } else if op.PublishOp? {
      HumanDraftsBringFeedback(f, op, clock, now, threadId);
    } else {
      QuietBringsNoFeedback(f, op, clock, now, threadId);
    }
  }

  lemma QuietBringsNoFeedback(f: Files, op: Op, clock: nat, now: nat, threadId: string)
    requires InTime(f, clock) && clock < now && IsQuiet(op)
    ensures !HasFeedbackAt(Step(f, op, now), threadId, now) && !BringsFeedback(f, op, now, threadId)
  {
    hide Step, InTime;
    if HasFeedbackAt(Step(f, op, now), threadId, now) {
      var c :| c in Listed(Step(f, op, now)) && IsFeedback(c, threadId) && c.updatedAt == now;
      QuietStepsBringNothing(f, op, clock, now, c);
    }
  }

  /** What deleting a comment takes from the listing. */
  lemma DeletionHides(f: Files, id: string, now: nat, c: Comment)
    requires DeletePublished(f, id, now).result.Ok?
    ensures c in Listed(DeletePublished(f, id, now).files) <==> c in Listed(f) && c.id != id
  {
    var g := DeletePublished(f, id, now).files;
    DeletionTurn(f, id, now, c.id);
    hide DeletePublished, IsDeleted;
  }

  lemma DeletionTurn(f: Files, id: string, now: nat, other: string)
    requires DeletePublished(f, id, now).result.Ok?
    ensures var g := DeletePublished(f, id, now).files;
      g.comments == f.comments && (IsDeleted(g.events, other) <==> IsDeleted(f.events, other) || other == id)
  {
    hide Visible, FindComment, IsBlank, IsDeleted;
    var g := DeletePublished(f, id, now).files;
    if g != f {
      DeletedByOne(f.events, g.events[|f.events|], other);
      assert g.events == f.events + [g.events[|f.events|]];
    }
  }

  lemma DeletedByOne(events: seq<Event>, e: Event, id: string)
    ensures IsDeleted(events + [e], id) <==> IsDeleted(events, id) || IsTombstone(e, id)
  {
    assert (events + [e])[|events|] == e;
    if IsDeleted(events, id) {
      var t :| t in events && IsTombstone(t, id);
      assert t in events + [e];
    }
  }

  predicate HasOtherFeedback(f: Files, threadId: string, id: string) {
    exists c | c in Listed(f) :: IsFeedback(c, threadId) && c.id != id
  }

  /** Behind a deletion there is feedback exactly if there was some in another comment. */
  lemma FeedbackAfterDeletion(f: Files, id: string, now: nat, threadId: string)
    requires DeletePublished(f, id, now).result.Ok?
    ensures HasFeedback(DeletePublished(f, id, now).files, threadId) <==> HasOtherFeedback(f, threadId, id)
  {
    var g := DeletePublished(f, id, now).files;
    hide DeletePublished, Visible;
    if HasFeedback(g, threadId) {
      var c :| c in Listed(g) && IsFeedback(c, threadId);
      DeletionHides(f, id, now, c);
    }
    if HasOtherFeedback(f, threadId, id) {
      var c :| c in Listed(f) && IsFeedback(c, threadId) && c.id != id;
      DeletionHides(f, id, now, c);
    }
  }

  lemma DeletionIs(f: Files, id: string, now: nat)
    ensures Step(f, DeletePublishedOp(id), now) == DeletePublished(f, id, now).files
  {
    hide DeletePublished;
  }

  /** A seen thread stays seen through a deletion exactly if human feedback is left in another comment. */
  lemma SeenAfterDeletion(f: Files, id: string, clock: nat, now: nat, threadId: string, actorId: string)
    requires InTime(f, clock) && clock < now && SeenBy(f, threadId, actorId) && DeletePublished(f, id, now).result.Ok?
    ensures SeenBy(DeletePublished(f, id, now).files, threadId, actorId) <==> HasOtherFeedback(f, threadId, id)
  {
    hide Step, DeletePublished, SeenBy, InTime, HasFeedback, HasFeedbackAt, HasOtherFeedback;
    var op := DeletePublishedOp(id);
    DeletionIs(f, id, now);
    SeenIsLostWith(f, op, clock, now, threadId, actorId);
    QuietBringsNoFeedback(f, op, clock, now, threadId);
    FeedbackAfterDeletion(f, id, now, threadId);
  }

  predicate Deletes(f: Files, op: Op, now: nat) {
    op.DeletePublishedOp? && DeletePublished(f, op.id, now).result.Ok?
  }

  lemma OnlyDeletionDeletes(f: Files, op: Op, now: nat, id: string)
    requires !Deletes(f, op, now) && !IsDeleted(f.events, id)
    ensures !IsDeleted(Step(f, op, now).events, id)
  {
    if op.PublishOp? {
      PublishingDeletesNothing(f, op, now);
    } else {
      var g := Step(f, op, now);
      OneQuietEvent(f, op, now);
      if g.events != f.events {
        hide Step, IsDeleted;
        DeletedByOne(f.events, g.events[|f.events|], id);
      }
    }
  }

  lemma OneQuietEvent(f: Files, op: Op, now: nat)
    requires !Deletes(f, op, now) && !op.PublishOp?
    ensures var events := Step(f, op, now).events;
      || events == f.events
      || (|events| == |f.events| + 1 && events == f.events + [events[|f.events|]] && !events[|f.events|].CommentDeleted?)
  {
    hide Invalid, FindReused, FindComment, FirstTombstone, FindReceipt, Revision, IsDeleted, Visible, ThreadIds, CommentIndex, IsBlank,
         PublicComment, DraftIndex, LastDraft, WithoutDraft;
  }

  /** The comment stands for the other one: it has its id, thread and actor. */
  predicate StandsFor(d: Comment, c: Comment) {
    d.id == c.id && ThreadIdOf(d) == ThreadIdOf(c) && d.actor == c.actor
  }

  predicate HasStandIn(comments: seq<Comment>, c: Comment) {
    exists d | d in comments :: StandsFor(d, c)
  }

  lemma PublishingKeepsComments(f: Files, op: Op, now: nat, c: Comment)
    requires op.PublishOp? && c in Listed(f)
    ensures HasStandIn(Step(f, op, now).comments, c)
  {
    hide Step, Normalized, Visible;
    PublishedFiles(f, op, now);
    var g := Step(f, op, now);
    if g != f {
      var i :| 0 <= i < |Listed(f)| && Listed(f)[i] == c;
      NormalizedIs(Listed(f), f.events, i);
      assert g.comments[i] == g.comments[..|Listed(f)|][i];
      assert StandsFor(g.comments[i], c);
    } else {
      assert StandsFor(c, c);
    }
  }

  lemma StepKeepsComments(f: Files, op: Op, now: nat, c: Comment)
    requires !op.OverwriteOp? && c in Listed(f)
    ensures HasStandIn(Step(f, op, now).comments, c)
  {
    if op.PublishOp? {
      PublishingKeepsComments(f, op, now, c);
    } else if op.UpdateOp? {
      EditingKeepsComments(f, op, now, c);
    } else {
      hide Invalid, FindReused, FindComment, FirstTombstone, FindReceipt, Revision, IsDeleted, Visible, ThreadIds, CommentIndex, IsBlank,
           PublicComment, DraftIndex, LastDraft, WithoutDraft, Publish, PublishBatch, Update;
      assert c in Step(f, op, now).comments && StandsFor(c, c);
    }
  }

  lemma EditingKeepsComments(f: Files, op: Op, now: nat, c: Comment)
    requires op.UpdateOp? && c in Listed(f)
    ensures HasStandIn(Step(f, op, now).comments, c)
  {
    hide IsDeleted, Visible, CommentIndex, IsBlank, Paths.TrimSpace;
    var g := Step(f, op, now);
    if Update(f, op.id, op.body, op.hasStatus, op.actor, now).result.Ok? {
      var i :| 0 <= i < |Listed(f)| && Listed(f)[i] == c;
      assert StandsFor(g.comments[i], c);
    } else {
      assert StandsFor(c, c);
    }
  }

  /** A step that deletes no comment leaves human feedback in a thread that has some. */
  lemma FeedbackStays(f: Files, op: Op, now: nat, threadId: string)
    requires !op.OverwriteOp? && HasFeedback(f, threadId) && !Deletes(f, op, now)
    ensures HasFeedback(Step(f, op, now), threadId)
  {
    hide Step, IsDeleted, Deletes, Visible;
    var c :| c in Listed(f) && IsFeedback(c, threadId);
    StepKeepsComments(f, op, now, c);
    OnlyDeletionDeletes(f, op, now, c.id);
    var d :| d in Step(f, op, now).comments && StandsFor(d, c);
    assert d in Listed(Step(f, op, now)) && IsFeedback(d, threadId);
  }

  /** The step deletes the last human feedback of the thread. */
  predicate DeletesLastFeedback(f: Files, op: Op, now: nat, threadId: string) {
    Deletes(f, op, now) && !HasOtherFeedback(f, threadId, op.id)
  }

  lemma FeedbackIsLeft(f: Files, op: Op, now: nat, threadId: string)
    requires !op.OverwriteOp? && HasFeedback(f, threadId)
    ensures HasFeedback(Step(f, op, now), threadId) <==> !DeletesLastFeedback(f, op, now, threadId)
  {
    if Deletes(f, op, now) {
      hide Step, DeletePublished, HasFeedback, HasOtherFeedback;
      DeletionIs(f, op.id, now);
      FeedbackAfterDeletion(f, op.id, now, threadId);
    } else {
      hide Step, Deletes, HasFeedback;
      FeedbackStays(f, op, now, threadId);
    }
  }

  lemma SeenHasFeedback(f: Files, threadId: string, actorId: string)
    requires SeenBy(f, threadId, actorId)
    ensures HasFeedback(f, threadId)
  {
    LatestHumanIsLatest(Listed(f), threadId);
  }

  /** What makes a seen thread unseen, as it can be told before the step. */
  predicate LosesSeen(f: Files, op: Op, now: nat, threadId: string) {
    BringsFeedback(f, op, now, threadId) || DeletesLastFeedback(f, op, now, threadId)
  }

  /** A seen thread stays seen exactly through the steps that bring no feedback to it and do not delete its last one. */
  lemma SeenIsLostExactly(f: Files, op: Op, clock: nat, now: nat, threadId: string, actorId: string)
    requires InTime(f, clock) && clock < now && !op.OverwriteOp? && SeenBy(f, threadId, actorId)
    ensures !LosesSeen(f, op, now, threadId) ==> SeenBy(Step(f, op, now), threadId, actorId)
    ensures DrawsNewIds(f, op, now) && LosesSeen(f, op, now, threadId) ==> !SeenBy(Step(f, op, now), threadId, actorId)
  {
    hide Step, SeenBy, InTime, HasFeedback, HasFeedbackAt, BringsFeedback, DeletesLastFeedback, DrawsNewIds;
    SeenHasFeedback(f, threadId, actorId);
    SeenIsLostWith(f, op, clock, now, threadId, actorId);
    OnlyCommentsBringFeedback(f, op, clock, now, threadId);
    FeedbackIsLeft(f, op, now, threadId);
  }

  /** In a thread that exists, a batch places exactly the drafts that name it. */
  lemma LandsInKnownThread(b: Batch, i: nat, threadId: string)
    requires HasIds(b) && i < |b.selected| && PlanDrafts(b, |b.selected|).Ok? && FreshThreadIds(b) && threadId in b.existing
    ensures LandsIn(b, i) == Some(threadId) <==> NamesExisting(b, b.selected[i]) && b.selected[i].threadId == threadId
  {
    hide PlanDrafts, Paths.TrimSpace;
    PublishedIs(b, i);
    PlanKeepsGroups(b, i);
    PlaceKeepsGroups(b, PlanDrafts(b, i).value, b.selected[i], b.threadIds[i]);
    if !NamesExisting(b, b.selected[i]) {
      var landed := PlaceOf(b, i).threadId;
      assert landed in b.threadIds;
      assert IsThreadId(landed);
    }
  }

  /** Publishing brings feedback to a thread that exists exactly if a draft of a person names it. */
  lemma FeedbackIsWhereNamed(b: Batch, threadId: string)
    requires HasIds(b) && FreshThreadIds(b) && threadId in b.existing
    ensures PlacesFeedback(b, threadId) <==>
      && b.selected != [] && PlanDrafts(b, |b.selected|).Ok?
      && exists i | 0 <= i < |b.selected| ::
           IsHumanDraft(b, i) && NamesExisting(b, b.selected[i]) && b.selected[i].threadId == threadId
  {
    hide PlanDrafts, LandsIn, NamesExisting, FreshThreadIds, IsHumanDraft;
    if PlanDrafts(b, |b.selected|).Ok? {
      forall i | 0 <= i < |b.selected|
        ensures LandsIn(b, i) == Some(threadId) <==> NamesExisting(b, b.selected[i]) && b.selected[i].threadId == threadId
      {
        LandsInKnownThread(b, i, threadId);
      }
    }
  }

  /** A thread with a person's comment and an agent's is read and then loses the person's: it is listed, and unseen. */
  lemma DeletionMakesUnseen()
    ensures var person := Actor("human", Human);
      var h := Comment("h", "t", "p", "", "x", "human", person, Open, 1, 1, None);
      var a := Comment("a", "t", "p", "", "y", "codex", Actor("codex", Codex), Open, 1, 1, None);
      var read := AppendThreadRead(Files([h, a], [], []), "t", person, "", 2).files;
      var deletion := DeletePublished(read, "h", 3);
      && SeenBy(read, "t", "human") && deletion.result.Ok?
      && "t" in ThreadIds(Listed(deletion.files)) && !SeenBy(deletion.files, "t", "human")
  {
    var person := Actor("human", Human);
    var h := Comment("h", "t", "p", "", "x", "human", person, Open, 1, 1, None);
    var a := Comment("a", "t", "p", "", "y", "codex", Actor("codex", Codex), Open, 1, 1, None);
    var f := Files([h, a], [], []);
    TwoCommentsAreRead(f, h, a, person);
    var read := AppendThreadRead(f, "t", person, "", 2).files;
    hide AppendThreadRead, SeenBy;
    PersonIsDeleted(read, h, a);
  }

  lemma TwoCommentsAreRead(f: Files, h: Comment, a: Comment, person: Actor)
    requires f == Files([h, a], [], []) && h.threadId == a.threadId == "t" && h.actor == person == Actor("human", Human)
    requires h.source == "human" && a.source == "codex" && a.actor.kind == Codex && h.updatedAt == a.updatedAt == 1
    ensures var read := AppendThreadRead(f, "t", person, "", 2);
      read.result.Ok? && SeenBy(read.files, "t", "human") && InTime(read.files, 2)
      && read.files.comments == f.comments && read.files.drafts == [] && |read.files.events| == 1 && read.files.events[0].ThreadRead?
  {
    TrimOfNothing();
    Paths.TrimmedMeans("t");
    NewStoreIsInTime(f, h, a);
    hide Paths.TrimSpace, ThreadIds, Visible, Revision, SeenBy, FindReceipt, InTime, Agrees;
    assert h in f.comments && !IsDeleted(f.events, h.id);
    assert h in Listed(f) && ThreadIdOf(h) == "t" && IsFeedback(h, "t");
    ThreadsHaveComments(Listed(f), "t");
    assert HasFeedback(f, "t");
    hide HasFeedback, IsDeleted, CommentsOf;
    FirstReadIsAnswered(f, person);
    hide AppendThreadRead;
    PassiveReadIsSeen(f, "t", person, "", 1, 2);
    ReadAnswerInTime(f, person);
  }

  lemma NewStoreIsInTime(f: Files, h: Comment, a: Comment)
    requires f == Files([h, a], [], []) && h.actor.kind == Human && a.actor.kind == Codex
    requires h.source == "human" && a.source == "codex" && h.updatedAt == a.updatedAt == 1
    ensures InTime(f, 1) && Agrees(f)
  {
    assert "codex"[0] != "human"[0];
  }

  function ReadAnswer(f: Files, person: Actor): Outcome<Event> {
    var e := ThreadRead("t", Passive(Revision(Listed(f), "t")), person, 2);
    Outcome(f.(events := [e]), Ok(e))
  }

  lemma FirstReadIsAnswered(f: Files, person: Actor)
    requires f.events == [] && "t" in ThreadIds(Listed(f)) && person.id == "human" && !IsBlank("t") && IsBlank("")
    ensures AppendThreadRead(f, "t", person, "", 2) == ReadAnswer(f, person)
  {
    hide IsBlank, ThreadIds, Visible, Revision;
    assert "human"[0] != "unknown"[0];
  }

  lemma ReadAnswerInTime(f: Files, person: Actor)
    requires InTime(f, 1)
    ensures InTime(ReadAnswer(f, person).files, 2)
  {
    hide Visible, Revision;
    assert forall c | c in Listed(f) :: CommentInTime(c, 1);
    RevisionIsFeedback(Listed(f), "t", 1);
  }

  lemma PersonIsDeleted(read: Files, h: Comment, a: Comment)
    requires read.comments == [h, a] && InTime(read, 2) && |read.events| == 1 && read.events[0].ThreadRead?
    requires h.id == "h" && a.id == "a" && h.threadId == a.threadId == "t" && h.actor.kind == Human && a.actor.kind == Codex
    requires SeenBy(read, "t", "human")
    ensures var deletion := DeletePublished(read, "h", 3);
      deletion.result.Ok? && "t" in ThreadIds(Listed(deletion.files)) && !SeenBy(deletion.files, "t", "human")
  {
    hide InTime, SeenBy, Visible, ThreadIds, DeletePublished, IsDeleted;
    PersonCanBeDeleted(read, h, a);
    var g := DeletePublished(read, "h", 3).files;
    SeenAfterDeletion(read, "h", 2, 3, "t", "human");
    assert forall c | c in Listed(read) :: c == h || c == a;
    DeletionHides(read, "h", 3, a);
    ThreadsHaveComments(Listed(g), "t");
  }

  lemma PersonCanBeDeleted(read: Files, h: Comment, a: Comment)
    requires read.comments == [h, a] && |read.events| == 1 && read.events[0].ThreadRead?
    requires h.id == "h" && a.id == "a" && h.actor.kind == Human
    ensures h in Listed(read) && a in Listed(read) && DeletePublished(read, "h", 3).result.Ok?
  {
    Paths.TrimmedMeans("h");
    hide Paths.TrimSpace, Visible;
    assert h in read.comments && a in read.comments;
    assert !IsDeleted(read.events, "h") && !IsDeleted(read.events, "a");
    assert h in Listed(read) && a in Listed(read);
    assert "a"[0] != "h"[0];
    var found := FindComment(Listed(read), "h");
    assert found.Some? && found.value == h;
  }

  // ---------------------------------------------------------------- one receipt for every revision

  /** Two passive receipts of an actor for the same thread are for different revisions. */
  predicate OneReceiptEach(events: seq<Event>) {
    forall i, j | 0 <= i < j < |events| :: !SameReceipt(events[i], events[j])
  }

  predicate SameReceipt(d: Event, e: Event) {
    && d.ThreadRead? && e.ThreadRead? && d.key.Passive?
    && d.threadId == e.threadId && d.actor.id == e.actor.id && d.key == e.key
  }

  lemma StepKeepsOneReceiptEach(f: Files, op: Op, now: nat)
    requires OneReceiptEach(f.events)
    ensures OneReceiptEach(Step(f, op, now).events)
  {
    var g := Step(f, op, now);
    StepAppends(f, op, now);
    hide Step;
    forall i, j | 0 <= i < j < |g.events|
      ensures !SameReceipt(g.events[i], g.events[j])
    {
      if j < |f.events| {
        assert g.events[i] == f.events[i] && g.events[j] == f.events[j];
      } else if g.events[j].ThreadRead? {
        NewReceipts(f, op, now, j);
        assert g.events[i] == f.events[i] && f.events[i] in f.events;
      }
    }
  }

  // ---------------------------------------------------------------- ids that clients choose

  predicate KeysAreTrimmed(events: seq<Event>) {
    forall e | e in events :: e.ThreadRead? && e.key.Explicit? ==> Paths.TrimSpace(e.key.text) == e.key.text
  }

  lemma {:induction false} TrimRightKeepsStart(s: string)
    ensures Paths.TrimRight(s) == "" || (s != "" && Paths.TrimRight(s)[0] == s[0])
    ensures Paths.TrimRight(Paths.TrimRight(s)) == Paths.TrimRight(s)
  {
    if s != "" && Paths.IsSpace(s[|s| - 1]) {
      TrimRightKeepsStart(s[..|s| - 1]);
    }
  }

  lemma {:induction false} TrimLeftStartsPlain(s: string)
    ensures Paths.TrimLeft(s) == "" || !Paths.IsSpace(Paths.TrimLeft(s)[0])
  {
    if s != "" && Paths.IsSpace(s[0]) {
      TrimLeftStartsPlain(s[1..]);
    }
  }

  lemma TrimIsIdempotent(s: string)
    ensures Paths.TrimSpace(Paths.TrimSpace(s)) == Paths.TrimSpace(s)
  {
    TrimLeftStartsPlain(s);
    TrimRightKeepsStart(Paths.TrimLeft(s));
  }

  lemma StepKeepsKeysTrimmed(f: Files, op: Op, now: nat)
    requires KeysAreTrimmed(f.events)
    ensures KeysAreTrimmed(Step(f, op, now).events)
  {
    var g := Step(f, op, now);
    StepAppends(f, op, now);
    hide Step, Paths.TrimSpace;
    forall e | e in g.events && e.ThreadRead? && e.key.Explicit?
      ensures Paths.TrimSpace(e.key.text) == e.key.text
    {
      var i :| 0 <= i < |g.events| && g.events[i] == e;
      if i < |f.events| {
        assert f.events[i] in f.events;
      } else {
        NewReceipts(f, op, now, i);
        if !IsBlank(op.clientEventId) {
          TrimIsIdempotent(op.clientEventId);
        }
      }
    }
  }

  /**
   A read that is retried with the id the client chose is recognized exactly if the id has no white space around it: the id is
   recorded trimmed and looked up as it came.
   */
  lemma RetriedReadIsRecognized(f: Files, threadId: string, actor: Actor, clientEventId: string, now: nat, later: nat)
    requires KeysAreTrimmed(f.events) && !IsBlank(clientEventId)
    requires AppendThreadRead(f, threadId, actor, clientEventId, now).result.Ok?
    ensures var first := AppendThreadRead(f, threadId, actor, clientEventId, now);
      Paths.TrimSpace(clientEventId) == clientEventId <==>
      AppendThreadRead(first.files, threadId, actor, clientEventId, later) == first
  {
    var first := AppendThreadRead(f, threadId, actor, clientEventId, now);
    var key := Explicit(clientEventId);
    TrimIsIdempotent(clientEventId);
    hide Paths.TrimSpace, Visible;
    match FindReceipt(f.events, threadId, actor.id, key)
    case Some(receipt) =>
      assert receipt in f.events;
    case None =>
      var event := first.files.events[|f.events|];
      ReadChangesNoListing(f, event);
      FindReceiptAppended(f.events, event, threadId, actor.id, key);
      assert first.files.events == f.events + [event];
  }

  /** A read with the client id " k": sent twice it leaves two receipts. */
  lemma PaddedReadIsRecordedTwice()
    ensures var person := Actor("human", Human);
      var f := Files([Comment("c", "t", "p", "", "x", "codex", Actor("codex", Codex), Open, 1, 1, None)], [], []);
      var first := AppendThreadRead(f, "t", person, " k", 2);
      var second := AppendThreadRead(first.files, "t", person, " k", 3);
      first.result.Ok? && second.result.Ok? && |second.files.events| == 2 && forall e | e in second.files.events :: e.ThreadRead?
  {
    var person := Actor("human", Human);
    var c := Comment("c", "t", "p", "", "x", "codex", Actor("codex", Codex), Open, 1, 1, None);
    var f := Files([c], [], []);
    Paths.TrimmedMeans("t");
    Paths.TrimmedMeans("k");
    assert Paths.TrimLeft(" k") == Paths.TrimLeft("k") by { assert " k"[1..] == "k"; }
    assert Paths.TrimSpace(" k") == "k";
    ReadWithId(f, c, person, 2);
    var first := AppendThreadRead(f, "t", person, " k", 2);
    ReadWithId(first.files, c, person, 3);
  }

  lemma ReadWithId(f: Files, c: Comment, actor: Actor, now: nat)
    requires c in f.comments && c.threadId == "t" && actor.id != "unknown" && !IsBlank("t") && !IsBlank(" k")
    requires forall e | e in f.events :: e.ThreadRead? && e.key != Explicit(" k")
    ensures var e := ThreadRead("t", Explicit(Paths.TrimSpace(" k")), actor, now);
      AppendThreadRead(f, "t", actor, " k", now) == Outcome(f.(events := f.events + [e]), Ok(e))
  {
    hide Paths.TrimSpace, Visible, ThreadIds, Revision;
    assert c in Listed(f) && ThreadIdOf(c) == "t";
    ThreadsHaveComments(Listed(f), "t");
  }

  lemma {:induction false} FindReceiptAppended(events: seq<Event>, e: Event, threadId: string, actorId: string, key: ReadKey)
    requires FindReceipt(events, threadId, actorId, key).None?
    ensures FindReceipt(events + [e], threadId, actorId, key)
         == if IsReceipt(e, threadId, actorId, key) then Some(e) else None
  {
    if events == [] {
      assert (events + [e])[1..] == [];
    } else {
      assert (events + [e])[1..] == events[1..] + [e] && (events + [e])[0] == events[0];
      assert events[0] in events;
      FindReceiptAppended(events[1..], e, threadId, actorId, key);
    }
  }

  // ---------------------------------------------------------------- whole runs

  /**
   A run: the files behind every step, at increasing times; another process may put back any earlier version of the comment
   file.
   */
  ghost predicate IsRun(states: seq<Files>, ops: seq<Op>, times: seq<nat>) {
    && |states| == |times| == |ops| + 1 && states[0] == EMPTY
    && (forall i | 0 <= i < |ops| :: times[i] < times[i + 1])
    && (forall i | 0 <= i < |ops| :: states[i + 1] == Step(states[i], ops[i], times[i + 1]))
    && (forall i | 0 <= i < |ops| :: ops[i].OverwriteOp? ==> IsEarlier(states, i, ops[i].comments))
  }

  ghost predicate IsEarlier(states: seq<Files>, i: nat, comments: seq<Comment>)
    requires i < |states|
  {
    exists k | 0 <= k <= i :: states[k].comments == comments
  }

  ghost predicate IsKept(f: Files, clock: nat) {
    InTime(f, clock) && OneReceiptEach(f.events) && KeysAreTrimmed(f.events)
  }

  lemma InTimeLater(f: Files, clock: nat, now: nat)
    requires InTime(f, clock) && clock <= now
    ensures InTime(f, now)
  {}

  lemma StepIsKept(f: Files, op: Op, clock: nat, now: nat)
    requires IsKept(f, clock) && clock < now
    requires op.OverwriteOp? ==> forall c | c in op.comments :: CommentInTime(c, now)
    ensures IsKept(Step(f, op, now), now)
  {
    hide InTime, OneReceiptEach, KeysAreTrimmed, Step;
    StepKeepsInTime(f, op, clock, now);
    StepKeepsOneReceiptEach(f, op, now);
    StepKeepsKeysTrimmed(f, op, now);
  }

  lemma EarlierIsInTime(states: seq<Files>, i: nat, comments: seq<Comment>, now: nat)
    requires i < |states| && IsEarlier(states, i, comments)
    requires forall k | 0 <= k <= i :: InTime(states[k], now)
    ensures forall c | c in comments :: CommentInTime(c, now)
  {
    var k :| 0 <= k <= i && states[k].comments == comments;
    assert InTime(states[k], now);
  }

  /** Turn `i` of a run. */
  lemma RunTurn(states: seq<Files>, ops: seq<Op>, times: seq<nat>, i: nat)
    requires IsRun(states, ops, times) && i < |ops|
    ensures |states| == |times| == |ops| + 1
    ensures states[i + 1] == Step(states[i], ops[i], times[i + 1]) && times[i] < times[i + 1]
    ensures ops[i].OverwriteOp? ==> IsEarlier(states, i, ops[i].comments)
  {
    hide Step, IsEarlier;
  }

  /** Behind every step of a run, times are in order and no revision has two receipts of one actor. */
  lemma {:induction false} RunKeeps(states: seq<Files>, ops: seq<Op>, times: seq<nat>, i: nat)
    requires IsRun(states, ops, times) && i < |states|
    ensures |states| == |times|
    ensures forall k | 0 <= k <= i :: InTime(states[k], times[i])
    ensures IsKept(states[i], times[i])
  {
    if i > 0 {
      RunKeeps(states, ops, times, i - 1);
      RunTurn(states, ops, times, i - 1);
      hide Step, IsRun, InTime;
      var op, before, now := ops[i - 1], times[i - 1], times[i];
      forall k | 0 <= k < i
        ensures InTime(states[k], now)
      {
        InTimeLater(states[k], before, now);
      }
      if op.OverwriteOp? {
        EarlierIsInTime(states, i - 1, op.comments, now);
      }
      StepIsKept(states[i - 1], op, before, now);
    }
  }

  /**
   The protocol over runs. A passive read that succeeds makes a thread with feedback seen; a seen thread stays seen through
   exactly the steps of the store that bring it no feedback and do not delete its last one; new feedback makes it unseen.
   */
  lemma SeenProtocol(states: seq<Files>, ops: seq<Op>, times: seq<nat>, i: nat, threadId: string, actorId: string)
    requires IsRun(states, ops, times) && i < |ops| && !ops[i].OverwriteOp?
    ensures |states| == |times| == |ops| + 1
    ensures Agrees(states[i]) && HasFeedback(states[i], threadId) &&
            IsPassiveRead(states[i], ops[i], times[i + 1], threadId, actorId) ==>
            SeenBy(states[i + 1], threadId, actorId)
    ensures SeenBy(states[i], threadId, actorId) && !LosesSeen(states[i], ops[i], times[i + 1], threadId) ==>
            SeenBy(states[i + 1], threadId, actorId)
    ensures SeenBy(states[i], threadId, actorId) && DrawsNewIds(states[i], ops[i], times[i + 1]) &&
            LosesSeen(states[i], ops[i], times[i + 1], threadId) ==>
            !SeenBy(states[i + 1], threadId, actorId)
    ensures HasFeedbackAt(states[i + 1], threadId, times[i + 1]) ==> !SeenBy(states[i + 1], threadId, actorId)
    ensures OneReceiptEach(states[i + 1].events)
  {
    RunKeeps(states, ops, times, i);
    RunKeeps(states, ops, times, i + 1);
    RunTurn(states, ops, times, i);
    hide Step, IsRun, InTime, HasFeedback, HasFeedbackAt, SeenBy, OneReceiptEach, Agrees, IsPassiveRead, LosesSeen, DrawsNewIds;
    var f, op, clock, now := states[i], ops[i], times[i], times[i + 1];
    if Agrees(f) && IsPassiveRead(f, op, now, threadId, actorId) && HasFeedback(f, threadId) {
      PassiveStepIsSeen(f, op, clock, now, threadId, actorId);
    }
    if SeenBy(f, threadId, actorId) {
      SeenIsLostExactly(f, op, clock, now, threadId, actorId);
    }
    if HasFeedbackAt(states[i + 1], threadId, now) {
      NewFeedbackIsUnseen(f, op, clock, now, threadId, actorId);
    }
  }

  /** Nothing from step `i` to step `j` of a run makes the thread unseen, and no other process writes the comment file. */
  predicate IsQuietStretch(states: seq<Files>, ops: seq<Op>, times: seq<nat>, i: nat, j: nat, threadId: string)
    requires i <= j <= |ops| < |states| && |states| == |times|
  {
    forall k | i <= k < j :: !ops[k].OverwriteOp? && !LosesSeen(states[k], ops[k], times[k + 1], threadId)
  }

  /** What an actor has seen it has still seen after any stretch of a run in which nothing makes the thread unseen. */
  lemma {:induction false} SeenStaysSeen(states: seq<Files>, ops: seq<Op>, times: seq<nat>, i: nat, j: nat, threadId: string,
                                         actorId: string)
    requires IsRun(states, ops, times) && i <= j <= |ops| < |states| && |states| == |times|
    requires SeenBy(states[i], threadId, actorId) && IsQuietStretch(states, ops, times, i, j, threadId)
    ensures SeenBy(states[j], threadId, actorId)
    decreases j
  {
    hide Step, IsRun, SeenBy, LosesSeen, InTime, HasFeedback, HasFeedbackAt, DrawsNewIds, OneReceiptEach, Agrees, IsPassiveRead;
    if i < j {
      SeenStaysSeen(states, ops, times, i, j - 1, threadId, actorId);
      SeenProtocol(states, ops, times, j - 1, threadId, actorId);
    }
  }

  /** The step is a read of the thread by the actor, without an id of the client's choice, and it succeeds. */
  predicate IsPassiveRead(f: Files, op: Op, now: nat, threadId: string, actorId: string) {
    && op.ReadOp? && op.threadId == threadId && op.actor.id == actorId && IsBlank(op.clientEventId)
    && AppendThreadRead(f, threadId, op.actor, op.clientEventId, now).result.Ok?
  }

  lemma PassiveStepIsSeen(f: Files, op: Op, clock: nat, now: nat, threadId: string, actorId: string)
    requires InTime(f, clock) && clock < now && Agrees(f) && HasFeedback(f, threadId)
    requires IsPassiveRead(f, op, now, threadId, actorId)
    ensures SeenBy(Step(f, op, now), threadId, actorId)
  {
    hide AppendThreadRead, InTime, Agrees, HasFeedback, SeenBy, IsBlank;
    PassiveReadIsSeen(f, threadId, op.actor, op.clientEventId, clock, now);
  }
}
