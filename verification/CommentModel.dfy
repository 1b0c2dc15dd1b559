/**
 The records of the comment store: published comments, drafts and the append-only journal of thread events.
 A file is the sequence of its records; a deletion is an event in the journal that hides a comment for ever.
 */
module CommentModel {
  import opened Sequences
  import Paths

  datatype Status = Open | Resolved | Archived

  datatype ActorKind = Human | ClaudeCode | Codex | Unknown

  /** A normalized actor. */
  datatype Actor = Actor(id: string, kind: ActorKind)

  datatype Comment = Comment(
    id: string, threadId: string, path: string, anchor: string, body: string, source: string, actor: Actor,
    status: Status, createdAt: nat, updatedAt: nat, reviewBatchId: Option<string>)

  datatype Draft = Draft(
    id: string, threadId: string, path: string, anchor: string, body: string, source: string, actor: Option<Actor>,
    status: Option<string>, createdAt: nat, updatedAt: nat)

  /** The human feedback of a thread that a passive read is a receipt for. */
  datatype Feedback = Feedback(id: string, updatedAt: nat, body: string)

  /** What makes two reads the same: the revision of the feedback, or an id that the client chose. */
  datatype ReadKey = Passive(revision: seq<Feedback>) | Explicit(text: string)

  datatype Event =
    | ThreadCreated(threadId: string, status: Status, actor: Actor, at: nat)
    | CommentAdded(threadId: string, commentId: string, clientEventId: string, actor: Actor, at: nat)
    | CommentUpdated(threadId: string, commentId: string, actor: Actor, at: nat)
    | CommentDeleted(threadId: string, commentId: string, path: string, at: nat)
    | ThreadRead(threadId: string, key: ReadKey, actor: Actor, at: nat)
    | StatusChanged(threadId: string, status: Status, at: nat)

  datatype Files = Files(comments: seq<Comment>, drafts: seq<Draft>, events: seq<Event>)

  datatype Error =
    | PathRequired | BodyRequired | MustBeOpen | IdRequired | DraftNotFound | CommentNotFound | OnlyHumanComments
    | NothingToPublish | TargetNotOpen | TargetNotFound | ThreadIdRequired | ThreadNotFound | ActorRequired
    | LifecycleNotSupported

  datatype Result<T> = Ok(value: T) | Err(error: Error)

  predicate IsBlank(s: string) {
    Paths.TrimSpace(s) == ""
  }

  function ThreadIdOf(c: Comment): string {
    if c.threadId != "" then c.threadId else c.id
  }

  function WithThreadId(c: Comment): Comment {
    c.(threadId := ThreadIdOf(c))
  }

  // ---------------------------------------------------------------- deletion

  predicate IsTombstone(e: Event, id: string) {
    e.CommentDeleted? && e.commentId == id
  }

  predicate IsDeleted(events: seq<Event>, id: string) {
    exists e | e in events :: IsTombstone(e, id)
  }

  /** The first tombstone of a comment. */
  function FirstTombstone(events: seq<Event>, id: string): (r: Option<Event>)
    ensures r.Some? <==> IsDeleted(events, id)
    ensures r.Some? ==> IsTombstone(r.value, id)
  {
    if events == [] then None
    else if IsTombstone(events[0], id) then Some(events[0])
    else FirstTombstone(events[1..], id)
  }

  /** The comments of a file without the deleted ones. */
  function Visible(comments: seq<Comment>, events: seq<Event>): (r: seq<Comment>)
    ensures forall c | c in r :: c in comments && !IsDeleted(events, c.id)
    ensures forall c | c in comments && !IsDeleted(events, c.id) :: c in r
    ensures |r| <= |comments|
  {
    if comments == [] then []
    else (if IsDeleted(events, comments[0].id) then [] else [comments[0]]) + Visible(comments[1..], events)
  }

  // ---------------------------------------------------------------- threads

  datatype Thread = Thread(id: string, status: Status, comments: seq<Comment>)

  function Rank(status: Status): nat {
    match status
    case Open => 3
    case Resolved => 2
    case Archived => 1
  }

  /** The thread ids in the order of their first comments. */
  function ThreadIds(comments: seq<Comment>): seq<string> {
    if comments == [] then []
    else
      var ids, id := ThreadIds(comments[..|comments| - 1]), ThreadIdOf(comments[|comments| - 1]);
      if id in ids then ids else ids + [id]
  }

  /** The comments of a thread, in file order. */
  function CommentsOf(comments: seq<Comment>, threadId: string): seq<Comment> {
    if comments == [] then []
    else
      var last := comments[|comments| - 1];
      CommentsOf(comments[..|comments| - 1], threadId) + if ThreadIdOf(last) == threadId then [WithThreadId(last)] else []
  }

  /** The highest-ranked status of some comments. */
  function CommentStatus(comments: seq<Comment>): Status
    requires comments != []
  {
    if |comments| == 1 then comments[0].status
    else
      var before, last := CommentStatus(comments[..|comments| - 1]), comments[|comments| - 1].status;
      if Rank(last) > Rank(before) then last else before
  }

  /** The status after the events of the journal. */
  function StatusAfter(status: Status, events: seq<Event>, threadId: string): Status {
    if events == [] then status
    else
      var before, e := StatusAfter(status, events[..|events| - 1], threadId), events[|events| - 1];
      if (e.ThreadCreated? || e.StatusChanged?) && e.threadId == threadId then e.status else before
  }

  function StatusOf(comments: seq<Comment>, events: seq<Event>, threadId: string): Status
    requires CommentsOf(comments, threadId) != []
  {
    StatusAfter(CommentStatus(CommentsOf(comments, threadId)), events, threadId)
  }

  lemma {:induction false} ThreadsHaveComments(comments: seq<Comment>, id: string)
    ensures id in ThreadIds(comments) <==> CommentsOf(comments, id) != []
    ensures id in ThreadIds(comments) <==> exists c | c in comments :: ThreadIdOf(c) == id
  {
    if comments != [] {
      var n := |comments| - 1;
      ThreadsHaveComments(comments[..n], id);
      assert comments == comments[..n] + [comments[n]];
    }
  }

  lemma {:induction false} ThreadIdsAreDistinct(comments: seq<Comment>)
    ensures forall i, j | 0 <= i < j < |ThreadIds(comments)| :: ThreadIds(comments)[i] != ThreadIds(comments)[j]
  {
    if comments != [] {
      ThreadIdsAreDistinct(comments[..|comments| - 1]);
    }
  }

  /** The event sets the status of the thread. */
  predicate SetsStatus(e: Event, threadId: string) {
    (e.ThreadCreated? || e.StatusChanged?) && e.threadId == threadId
  }

  /** A thread has the status of the last event that sets it. */
  lemma {:induction false} StatusIsLastSet(status: Status, events: seq<Event>, threadId: string, i: nat)
    requires i < |events| && SetsStatus(events[i], threadId)
    requires forall k | i < k < |events| :: !SetsStatus(events[k], threadId)
    ensures StatusAfter(status, events, threadId) == events[i].status
  {
    if i < |events| - 1 {
      StatusIsLastSet(status, events[..|events| - 1], threadId, i);
    }
  }

  lemma {:induction false} StatusIsNotSet(status: Status, events: seq<Event>, threadId: string)
    requires forall e | e in events :: !SetsStatus(e, threadId)
    ensures StatusAfter(status, events, threadId) == status
  {
    if events != [] {
      StatusIsNotSet(status, events[..|events| - 1], threadId);
      assert events[|events| - 1] in events;
    }
  }

  predicate HasStatus(comments: seq<Comment>, status: Status) {
    exists c | c in comments :: c.status == status
  }

  /** Without such an event a thread is open if one of its comments is, else resolved if one of them is, else archived. */
  lemma {:induction false} StatusOfComments(comments: seq<Comment>)
    requires comments != []
    ensures CommentStatus(comments)
         == if HasStatus(comments, Open) then Open else if HasStatus(comments, Resolved) then Resolved else Archived
  {
    var n := |comments| - 1;
    assert comments == comments[..n] + [comments[n]];
    if n > 0 {
      StatusOfComments(comments[..n]);
      forall status: Status
        ensures HasStatus(comments, status) <==> HasStatus(comments[..n], status) || comments[n].status == status
      {
        assert comments[n] in comments;
      }
      hide HasStatus;
    } else {
      assert comments[0] in comments;
    }
  }

  /** The thread of an id, its comments with the status of the thread. */
  function ThreadOf(comments: seq<Comment>, events: seq<Event>, id: string): Thread
    requires CommentsOf(comments, id) != []
  {
    var status := StatusOf(comments, events, id);
    Thread(id, status, WithStatus(CommentsOf(comments, id), status))
  }

  function WithStatus(comments: seq<Comment>, status: Status): (r: seq<Comment>)
    ensures |r| == |comments|
    ensures forall i | 0 <= i < |r| :: r[i] == comments[i].(status := status)
  {
    seq(|comments|, i requires 0 <= i < |comments| => comments[i].(status := status))
  }

  function ThreadsFor(comments: seq<Comment>, events: seq<Event>, ids: seq<string>): (r: seq<Thread>)
    requires forall id | id in ids :: id in ThreadIds(comments)
    ensures |r| == |ids|
  {
    if ids == [] then []
    else
      ThreadsHaveComments(comments, ids[|ids| - 1]);
      ThreadsFor(comments, events, ids[..|ids| - 1]) + [ThreadOf(comments, events, ids[|ids| - 1])]
  }

  function Threads(comments: seq<Comment>, events: seq<Event>): seq<Thread> {
    ThreadsFor(comments, events, ThreadIds(comments))
  }

  /** The comments as projecting the threads leaves them: with their thread id and the status of their thread. */
  function Normalized(comments: seq<Comment>, events: seq<Event>): (r: seq<Comment>)
    ensures |r| == |comments|
  {
    seq(|comments|, i requires 0 <= i < |comments| =>
      ThreadsHaveComments(comments, ThreadIdOf(comments[i]));
      assert comments[i] in comments;
      WithThreadId(comments[i]).(status := StatusOf(comments, events, ThreadIdOf(comments[i]))))
  }

  function WithThreadIds(comments: seq<Comment>): (r: seq<Comment>)
    ensures |r| == |comments|
    ensures forall i | 0 <= i < |r| :: r[i] == WithThreadId(comments[i])
  {
    seq(|comments|, i requires 0 <= i < |comments| => WithThreadId(comments[i]))
  }

  /** A comment is in the thread it names, or, without one, in the thread of its own id. */
  lemma {:induction false} CommentsAreInTheirThreads(comments: seq<Comment>, c: Comment)
    requires c in comments
    ensures var id := if c.threadId == "" then c.id else c.threadId; c.(threadId := id) in CommentsOf(comments, id)
  {
    var n := |comments| - 1;
    if c != comments[n] {
      assert comments == comments[..n] + [comments[n]];
      CommentsAreInTheirThreads(comments[..n], c);
    }
  }

  /** The threads split the comments: their ids differ, and each has all comments of its id, in order. */
  lemma {:induction false} ThreadsSplitTheComments(comments: seq<Comment>, id: string)
    ensures CommentsOf(comments, id) == Filter(WithThreadIds(comments), (c: Comment) => c.threadId == id)
  {
    var p := (c: Comment) => c.threadId == id;
    if comments != [] {
      var n := |comments| - 1;
      ThreadsSplitTheComments(comments[..n], id);
      assert WithThreadIds(comments) == WithThreadIds(comments[..n]) + [WithThreadId(comments[n])];
      FilterConcat(WithThreadIds(comments[..n]), [WithThreadId(comments[n])], p);
      assert [WithThreadId(comments[n])][1..] == [];
    }
  }

  // ---------------------------------------------------------------- the operations

  /** What a client sends to create a comment; an absent source shows as "unknown". */
  datatype NewComment = NewComment(
    path: string, body: string, threadId: string, anchor: string, source: string, actor: Actor, status: Option<string>,
    clientEventId: string)

  datatype NewDraft = NewDraft(
    path: string, body: string, threadId: string, anchor: string, source: string, actor: Option<Actor>, status: Option<string>)

  function Invalid(path: string, body: string, status: Option<string>): Option<Error> {
    if IsBlank(path) then Some(PathRequired)
    else if IsBlank(body) then Some(BodyRequired)
    else if status.Some? && status.value != "open" then Some(MustBeOpen)
    else None
  }

  function PublicComment(id: string, threadId: string, path: string, anchor: string, body: string, source: string, actor: Actor,
                         now: nat, reviewBatchId: Option<string>): Comment
  {
    Comment(id, if IsBlank(threadId) then id else threadId, Paths.TrimSpace(path), anchor, Paths.TrimSpace(body), source, actor, Open,
            now, now, reviewBatchId)
  }

  function FindComment(comments: seq<Comment>, id: string): (r: Option<Comment>)
    ensures r.Some? <==> exists c | c in comments :: c.id == id
    ensures r.Some? ==> r.value in comments && r.value.id == id
  {
    if comments == [] then None
    else if comments[0].id == id then Some(comments[0])
    else FindComment(comments[1..], id)
  }

  /** The comment that an earlier request with the same client event id added. */
  function FindReused(comments: seq<Comment>, events: seq<Event>, threadId: string, actorId: string, clientEventId: string): Option<Comment> {
    if events == [] then None
    else if IsSameRequest(events[0], threadId, actorId, clientEventId) && FindComment(comments, events[0].commentId).Some?
    then FindComment(comments, events[0].commentId)
    else FindReused(comments, events[1..], threadId, actorId, clientEventId)
  }

  predicate IsSameRequest(e: Event, threadId: string, actorId: string, clientEventId: string) {
    e.CommentAdded? && e.threadId == threadId && e.clientEventId == clientEventId && e.actor.id == actorId
  }

  /** The outcome of an operation: the files behind it and what it returns. */
  datatype Outcome<T> = Outcome(files: Files, result: Result<T>)

  function Create(f: Files, input: NewComment, now: nat, id: string): Outcome<Comment> {
    var invalid := Invalid(input.path, input.body, input.status);
    if invalid.Some? then Outcome(f, Err(invalid.value))
    else
      var comment := PublicComment(id, input.threadId, input.path, input.anchor, input.body, input.source, input.actor, now, None);
      var comments, clientEventId := Visible(f.comments, f.events), Paths.TrimSpace(input.clientEventId);
      var existing := if input.threadId == "" || clientEventId == "" then None
                      else FindReused(comments, f.events, input.threadId, input.actor.id, clientEventId);
      if existing.Some? then Outcome(f, Ok(existing.value))
      else
        var event := if input.threadId == "" then ThreadCreated(comment.threadId, Open, input.actor, now)
                     else CommentAdded(comment.threadId, id, clientEventId, input.actor, now);
        Outcome(Files(comments + [comment], f.drafts, f.events + [event]), Ok(comment))
  }

  function CreateDraft(f: Files, input: NewDraft, now: nat, id: string): Outcome<Draft> {
    if IsBlank(input.path) then Outcome(f, Err(PathRequired))
    else if IsBlank(input.body) then Outcome(f, Err(BodyRequired))
    else
      var draft := Draft(id, input.threadId, Paths.TrimSpace(input.path), input.anchor, Paths.TrimSpace(input.body), input.source, input.actor,
                         input.status, now, now);
      Outcome(f.(drafts := f.drafts + [draft]), Ok(draft))
  }

  function DraftIndex(drafts: seq<Draft>, id: string): (r: nat)
    ensures r <= |drafts| && (r < |drafts| ==> drafts[r].id == id)
    ensures forall i | 0 <= i < r :: drafts[i].id != id
  {
    if drafts == [] || drafts[0].id == id then 0 else 1 + DraftIndex(drafts[1..], id)
  }

  function UpdateDraft(f: Files, id: string, body: Option<string>, now: nat): Outcome<Draft> {
    if IsBlank(id) then Outcome(f, Err(IdRequired))
    else
      var i := DraftIndex(f.drafts, id);
      if i == |f.drafts| then Outcome(f, Err(DraftNotFound))
      else if body.Some? && IsBlank(body.value) then Outcome(f, Err(BodyRequired))
      else
        var draft := f.drafts[i].(body := if body.Some? then Paths.TrimSpace(body.value) else f.drafts[i].body, updatedAt := now);
        Outcome(f.(drafts := f.drafts[i := draft]), Ok(draft))
  }

  function WithoutDraft(drafts: seq<Draft>, id: string): seq<Draft> {
    if drafts == [] then []
    else WithoutDraft(drafts[..|drafts| - 1], id) + if drafts[|drafts| - 1].id == id then [] else [drafts[|drafts| - 1]]
  }

  function LastDraft(drafts: seq<Draft>, id: string): Option<Draft> {
    if drafts == [] then None
    else if drafts[|drafts| - 1].id == id then Some(drafts[|drafts| - 1])
    else LastDraft(drafts[..|drafts| - 1], id)
  }

  function DeleteDraft(f: Files, id: string): Outcome<Draft> {
    if IsBlank(id) then Outcome(f, Err(IdRequired))
    else
      match LastDraft(f.drafts, id)
      case None => Outcome(f, Err(DraftNotFound))
      case Some(deleted) => Outcome(f.(drafts := WithoutDraft(f.drafts, id)), Ok(deleted))
  }

  /** The place of a deleted comment. */
  datatype Deleted = Deleted(id: string, threadId: string, path: string)

  function DeletePublished(f: Files, id: string, now: nat): Outcome<Deleted> {
    if IsBlank(id) then Outcome(f, Err(IdRequired))
    else
      match FirstTombstone(f.events, id)
      case Some(tombstone) => Outcome(f, Ok(Deleted(id, tombstone.threadId, tombstone.path)))
      case None =>
        match FindComment(Visible(f.comments, f.events), id)
        case None => Outcome(f, Err(CommentNotFound))
        case Some(comment) =>
          if comment.actor.kind != Human then Outcome(f, Err(OnlyHumanComments))
          else
            var tombstone := CommentDeleted(ThreadIdOf(comment), id, comment.path, now);
            Outcome(f.(events := f.events + [tombstone]), Ok(Deleted(id, tombstone.threadId, tombstone.path)))
  }

  function CommentIndex(comments: seq<Comment>, id: string): (r: nat)
    ensures r <= |comments| && (r < |comments| ==> comments[r].id == id)
    ensures forall i | 0 <= i < r :: comments[i].id != id
  {
    if comments == [] || comments[0].id == id then 0 else 1 + CommentIndex(comments[1..], id)
  }

  function Update(f: Files, id: string, body: Option<string>, hasStatus: bool, actor: Actor, now: nat): Outcome<Comment> {
    if hasStatus then Outcome(f, Err(LifecycleNotSupported))
    else if IsBlank(id) then Outcome(f, Err(IdRequired))
    else
      var comments := Visible(f.comments, f.events);
      var i := CommentIndex(comments, id);
      if i == |comments| then Outcome(f, Err(CommentNotFound))
      else
        var comment := comments[i].(body := if body.Some? then Paths.TrimSpace(body.value) else comments[i].body, updatedAt := now);
        var events := if body.Some? then [CommentUpdated(ThreadIdOf(comment), id, actor, now)] else [];
        Outcome(Files(comments[i := comment], f.drafts, f.events + events), Ok(comment))
  }

  /** The human feedback of a thread, as a passive read collects it. */
  function Revision(comments: seq<Comment>, threadId: string): seq<Feedback> {
    if comments == [] then []
    else
      var c := comments[|comments| - 1];
      Revision(comments[..|comments| - 1], threadId)
      + if (ThreadIdOf(c) == threadId || c.id == threadId) && c.source == "human" then [Feedback(c.id, c.updatedAt, c.body)] else []
  }

  /** The key under which a read is looked up, and the key under which it is recorded. */
  function LookupKey(comments: seq<Comment>, threadId: string, clientEventId: string): ReadKey {
    if IsBlank(clientEventId) then Passive(Revision(comments, threadId)) else Explicit(clientEventId)
  }

  function RecordedKey(key: ReadKey): ReadKey {
    if key.Explicit? then Explicit(Paths.TrimSpace(key.text)) else key
  }

  predicate IsReceipt(e: Event, threadId: string, actorId: string, key: ReadKey) {
    e.ThreadRead? && e.threadId == threadId && e.key == key && e.actor.id == actorId
  }

  function FindReceipt(events: seq<Event>, threadId: string, actorId: string, key: ReadKey): (r: Option<Event>)
    ensures r.Some? <==> exists e | e in events :: IsReceipt(e, threadId, actorId, key)
    ensures r.Some? ==> r.value in events && IsReceipt(r.value, threadId, actorId, key)
  {
    if events == [] then None
    else if IsReceipt(events[0], threadId, actorId, key) then Some(events[0])
    else FindReceipt(events[1..], threadId, actorId, key)
  }

  function AppendThreadRead(f: Files, threadId: string, actor: Actor, clientEventId: string, now: nat): Outcome<Event> {
    var comments := Visible(f.comments, f.events);
    if IsBlank(threadId) then Outcome(f, Err(ThreadIdRequired))
    else if threadId !in ThreadIds(comments) then Outcome(f, Err(ThreadNotFound))
    else if actor.id == "unknown" then Outcome(f, Err(ActorRequired))
    else
      var key := LookupKey(comments, threadId, clientEventId);
      match FindReceipt(f.events, threadId, actor.id, key)
      case Some(receipt) => Outcome(f, Ok(receipt))
      case None =>
        var event := ThreadRead(threadId, RecordedKey(key), actor, now);
        Outcome(f.(events := f.events + [event]), Ok(event))
  }
}
