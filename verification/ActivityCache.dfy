/**
 Bounded cache of comment-thread activity: at most 24 events a thread, yet always the latest agent read,
 so the review receipt of a thread is the one of its whole history.
 */
module ActivityCache {
  import opened Sequences

  datatype ActorKind = Human | ClaudeCode | Codex | OtherAgent

  datatype ActivityType = ThreadCreated | CommentAdded | ThreadRead | OtherActivity

  /** Instants are integers; `actor` is what a receipt shows of the actor. */
  datatype Event = Event(id: string, threadId: string, kind: ActivityType, actorKind: ActorKind, actor: string, createdAt: int)

  /** The events kept of every thread and the ids of the latest events added, newest first. */
  datatype State = State(byThread: map<string, seq<Event>>, seen: seq<string>)

  const MAX_EVENTS_PER_THREAD := 24
  const MAX_SEEN_EVENT_IDS := 600

  predicate IsAgentRead(e: Event) {
    e.kind == ThreadRead && e.actorKind != Human
  }

  // ---------------------------------------------------------------- newest first

  /** `x` goes behind the elements whose key is not smaller. */
  function InsertDescending<T>(s: seq<T>, x: T, key: T -> int): seq<T> {
    if s == [] then [x]
    else if key(s[0]) >= key(x) then [s[0]] + InsertDescending(s[1..], x, key)
    else [x] + s
  }

  /** The stable sort by descending key. */
  function SortDescending<T>(s: seq<T>, key: T -> int): seq<T> {
    if s == [] then [] else InsertDescending(SortDescending(s[..|s| - 1], key), s[|s| - 1], key)
  }

  predicate IsDescending<T>(s: seq<T>, key: T -> int) {
    forall i, j | 0 <= i < j < |s| :: key(s[i]) >= key(s[j])
  }

  lemma {:induction false} InsertAddsOne<T>(s: seq<T>, x: T, key: T -> int)
    ensures multiset(InsertDescending(s, x, key)) == multiset(s) + multiset{x}
  {
    if s != [] {
      assert s == [s[0]] + s[1..];
      InsertAddsOne(s[1..], x, key);
    }
  }

  lemma {:induction false} InsertKeepsOrder<T>(s: seq<T>, x: T, key: T -> int)
    requires IsDescending(s, key)
    ensures IsDescending(InsertDescending(s, x, key), key)
  {
    if s != [] && key(s[0]) >= key(x) {
      InsertKeepsOrder(s[1..], x, key);
      var rest := InsertDescending(s[1..], x, key);
      forall k | 0 <= k < |rest|
        ensures key(rest[k]) <= key(s[0])
      {
        InsertAddsOne(s[1..], x, key);
        assert rest[k] in multiset(rest);
      }
    }
  }

  lemma {:induction false} SortMeans<T>(s: seq<T>, key: T -> int)
    ensures IsDescending(SortDescending(s, key), key) && multiset(SortDescending(s, key)) == multiset(s)
  {
    if s != [] {
      var n := |s| - 1;
      SortMeans(s[..n], key);
      InsertKeepsOrder(SortDescending(s[..n], key), s[n], key);
      InsertAddsOne(SortDescending(s[..n], key), s[n], key);
      assert s == s[..n] + [s[n]];
    }
  }

  function HasKey<T>(key: T -> int, k: int): T -> bool {
    e => key(e) == k
  }

  lemma {:induction false} InsertIsStable<T>(s: seq<T>, x: T, key: T -> int, k: int)
    requires IsDescending(s, key)
    ensures Filter(InsertDescending(s, x, key), HasKey(key, k)) == Filter(s, HasKey(key, k)) + Filter([x], HasKey(key, k))
  {
    var p := HasKey(key, k);
    if s == [] {
      assert InsertDescending(s, x, key) == [x];
    } else if key(s[0]) >= key(x) {
      InsertIsStable(s[1..], x, key, k);
      FilterCons(s[0], InsertDescending(s[1..], x, key), p);
      ConcatAssociative([s[0]], Filter(s[1..], p), Filter([x], p));
    } else {
      FilterCons(x, s, p);
      FilterCons(x, [], p);
      if key(x) == k {
        forall e | e in s
          ensures !p(e)
        {}
        FilterNone(s, p);
      }
    }
  }

  /** Elements of the same key keep their order. */
  lemma {:induction false} SortIsStable<T>(s: seq<T>, key: T -> int, k: int)
    ensures Filter(SortDescending(s, key), HasKey(key, k)) == Filter(s, HasKey(key, k))
  {
    if s != [] {
      var n := |s| - 1;
      SortMeans(s[..n], key);
      SortIsStable(s[..n], key, k);
      InsertIsStable(SortDescending(s[..n], key), s[n], key, k);
      FilterConcat(s[..n], [s[n]], HasKey(key, k));
      assert s == s[..n] + [s[n]];
    }
  }

  function CreatedAt(e: Event): int { e.createdAt }

  function NewestFirst(s: seq<Event>): seq<Event> {
    SortDescending(s, CreatedAt)
  }

  predicate IsNewestFirst(s: seq<Event>) {
    IsDescending(s, CreatedAt)
  }

  // ---------------------------------------------------------------- the latest agent read

  /** The first agent read of a list, as the receipt and the retention look it up. */
  function FirstRead(s: seq<Event>): Option<Event> {
    if s == [] then None else if IsAgentRead(s[0]) then Some(s[0]) else FirstRead(s[1..])
  }

  function Later(best: Option<Event>, e: Event): Option<Event> {
    if IsAgentRead(e) && (best.None? || e.createdAt > best.value.createdAt) then Some(e) else best
  }

  /** The latest agent read of a history, the first of them when several are latest. */
  function LatestRead(s: seq<Event>): Option<Event> {
    if s == [] then None else Later(LatestRead(s[..|s| - 1]), s[|s| - 1])
  }

  lemma {:induction false} LatestReadMeans(s: seq<Event>)
    ensures LatestRead(s).None? <==> forall e | e in s :: !IsAgentRead(e)
    ensures LatestRead(s).Some? ==> LatestRead(s).value in s && IsAgentRead(LatestRead(s).value)
    ensures LatestRead(s).Some? ==> forall e | e in s && IsAgentRead(e) :: e.createdAt <= LatestRead(s).value.createdAt
  {
    if s != [] {
      LatestReadMeans(s[..|s| - 1]);
      assert s == s[..|s| - 1] + [s[|s| - 1]];
    }
  }

  lemma {:induction false} FirstReadOfInserted(s: seq<Event>, x: Event)
    requires IsNewestFirst(s)
    ensures FirstRead(InsertDescending(s, x, CreatedAt)) == Later(FirstRead(s), x)
  {
    if s != [] {
      if s[0].createdAt >= x.createdAt {
        FirstReadOfInserted(s[1..], x);
        assert ([s[0]] + InsertDescending(s[1..], x, CreatedAt))[1..] == InsertDescending(s[1..], x, CreatedAt);
      } else {
        FirstReadIsIn(s);
        assert ([x] + s)[1..] == s;
      }
    }
  }

  lemma {:induction false} FirstReadIsIn(s: seq<Event>)
    ensures FirstRead(s).Some? ==> FirstRead(s).value in s
  {
    if s != [] {
      FirstReadIsIn(s[1..]);
    }
  }

  lemma {:induction false} FirstReadOfSorted(s: seq<Event>)
    ensures FirstRead(NewestFirst(s)) == LatestRead(s)
  {
    if s != [] {
      var n := |s| - 1;
      FirstReadOfSorted(s[..n]);
      SortMeans(s[..n], CreatedAt);
      FirstReadOfInserted(NewestFirst(s[..n]), s[n]);
    }
  }

  lemma {:induction false} FirstReadIsLatest(s: seq<Event>)
    requires IsNewestFirst(s)
    ensures LatestRead(s) == FirstRead(s)
  {
    if s != [] {
      var n := |s| - 1;
      FirstReadIsLatest(s[..n]);
      FirstReadOfPrefix(s, n);
      FirstReadIsIn(s[..n]);
    }
  }

  lemma {:induction false} FirstReadOfPrefix(s: seq<Event>, n: nat)
    requires n <= |s|
    ensures FirstRead(s) == if FirstRead(s[..n]).Some? then FirstRead(s[..n]) else FirstRead(s[n..])
  {
    if n == 0 {
      assert s[n..] == s;
    } else {
      assert s[1..][..n - 1] == s[..n][1..] && s[1..][n - 1..] == s[n..];
      FirstReadOfPrefix(s[1..], n - 1);
    }
  }

  // ---------------------------------------------------------------- retention

  /** The newest events, the last of them given up for the latest agent read when it is older than they are. */
  function RetainThreadActivities(events: seq<Event>): seq<Event> {
    var sorted := NewestFirst(events);
    var recent := if |sorted| > MAX_EVENTS_PER_THREAD then sorted[..MAX_EVENTS_PER_THREAD] else sorted;
    var latestAgentRead := FirstRead(sorted);
    if latestAgentRead.None? || exists e | e in recent :: e.id == latestAgentRead.value.id
    then recent
    else
      var kept := if |recent| > MAX_EVENTS_PER_THREAD - 1 then recent[..MAX_EVENTS_PER_THREAD - 1] else recent;
      NewestFirst(kept + [latestAgentRead.value])
  }

  predicate IdsDetermineEvents(s: seq<Event>) {
    forall d, e | d in s && e in s :: d.id == e.id ==> d == e
  }

  lemma NewestFirstMeans(events: seq<Event>)
    ensures IsNewestFirst(NewestFirst(events)) && multiset(NewestFirst(events)) == multiset(events)
    ensures |NewestFirst(events)| == |events|
  {
    SortMeans(events, CreatedAt);
    assert |NewestFirst(events)| == |multiset(NewestFirst(events))|;
  }

  /** A short list is kept whole. */
  lemma RetentionOfFew(events: seq<Event>)
    requires |NewestFirst(events)| <= MAX_EVENTS_PER_THREAD
    ensures RetainThreadActivities(events) == NewestFirst(events)
  {
    hide NewestFirst, FirstRead;
    var sorted := NewestFirst(events);
    FirstReadIsIn(sorted);
    if FirstRead(sorted).Some? {
      assert exists e | e in sorted :: e.id == FirstRead(sorted).value.id;
    }
  }

  lemma PrefixIsNewestFirst(s: seq<Event>, n: nat)
    requires IsNewestFirst(s) && n <= |s|
    ensures IsNewestFirst(s[..n])
  {}

  /** No retention drops the latest agent read. */
  lemma RetentionKeepsTheLatestRead(events: seq<Event>)
    requires IdsDetermineEvents(events)
    ensures LatestRead(RetainThreadActivities(events)) == LatestRead(events)
  {
    hide NewestFirst, FirstRead, LatestRead, IsNewestFirst;
    var sorted := NewestFirst(events);
    NewestFirstMeans(events);
    FirstReadOfSorted(events);
    if |sorted| <= MAX_EVENTS_PER_THREAD {
      RetentionOfFew(events);
      FirstReadIsLatest(sorted);
    } else {
      var recent := sorted[..MAX_EVENTS_PER_THREAD];
      PrefixIsNewestFirst(sorted, MAX_EVENTS_PER_THREAD);
      FirstReadIsLatest(recent);
      FirstReadOfPrefix(sorted, MAX_EVENTS_PER_THREAD);
      LatestReadMeans(events);
      if FirstRead(sorted).Some? {
        var latest := FirstRead(sorted).value;
        if FirstRead(recent).Some? {
          FirstReadIsIn(recent);
        } else {
          LatestReadMeans(recent);
          ReadIsNotAmong(events, recent, latest);
          var kept := recent[..MAX_EVENTS_PER_THREAD - 1];
          LatestReadMeans(kept);
          LatestReadAppend(kept, latest);
          NewestFirstMeans(kept + [latest]);
          FirstReadOfSorted(kept + [latest]);
          FirstReadIsLatest(NewestFirst(kept + [latest]));
        }
      }
    }
  }

  /** Where no event is an agent read, none has the id of an agent read of the same history. */
  lemma ReadIsNotAmong(events: seq<Event>, recent: seq<Event>, latest: Event)
    requires IdsDetermineEvents(events) && latest in events && IsAgentRead(latest)
    requires forall e | e in recent :: e in multiset(events) && !IsAgentRead(e)
    ensures forall e | e in recent :: e.id != latest.id
  {
    forall e | e in recent
      ensures e.id != latest.id
    {
      assert e in events;
    }
  }

  /** No dropped event is newer than a kept one, the exempt one aside. */
  predicate NotNewer(dropped: seq<Event>, kept: seq<Event>, exempt: Option<Event>) {
    forall k, d | k in kept && d in dropped :: d.createdAt <= k.createdAt || Some(k) == exempt
  }

  lemma SplitSorted(s: seq<Event>, n: nat)
    requires IsNewestFirst(s) && n <= |s|
    ensures NotNewer(s[n..], s[..n], None) && multiset(s) == multiset(s[..n]) + multiset(s[n..])
  {
    assert s == s[..n] + s[n..];
    forall i, j | 0 <= i < n && n <= j < |s|
      ensures s[j].createdAt <= s[i].createdAt
    {
      assert CreatedAt(s[i]) >= CreatedAt(s[j]);
    }
  }

  lemma RemoveOne(rest: seq<Event>, e: Event) returns (others: seq<Event>)
    requires e in rest
    ensures multiset(rest) == multiset(others) + multiset{e} && forall d | d in others :: d in rest
  {
    var i :| 0 <= i < |rest| && rest[i] == e;
    others := rest[..i] + rest[i + 1..];
    assert rest == rest[..i] + [rest[i]] + rest[i + 1..];
  }

  /** Giving up the last of the newest events for a read that is older. */
  lemma RetentionSwaps(sorted: seq<Event>, read: Event, kept: seq<Event>) returns (dropped: seq<Event>)
    requires IsNewestFirst(sorted) && MAX_EVENTS_PER_THREAD < |sorted|
    requires read in sorted[MAX_EVENTS_PER_THREAD - 1..]
    requires kept == NewestFirst(sorted[..MAX_EVENTS_PER_THREAD - 1] + [read])
    ensures |kept| == MAX_EVENTS_PER_THREAD && IsNewestFirst(kept)
    ensures multiset(sorted) == multiset(kept) + multiset(dropped) && NotNewer(dropped, kept, Some(read))
  {
    var n := MAX_EVENTS_PER_THREAD - 1;
    var front := sorted[..n];
    SplitSorted(sorted, n);
    NewestFirstMeans(front + [read]);
    hide NewestFirst, IsNewestFirst;
    assert multiset(kept) == multiset(front) + multiset{read};
    assert |multiset(kept)| == n + 1;
    dropped := RemoveOne(sorted[n..], read);
    forall k, d | k in kept && d in dropped
      ensures d.createdAt <= k.createdAt || k == read
    {
      assert k in multiset(kept);
    }
  }

  /** A long list keeps its newest events, or gives up the last of them for a read behind them. */
  lemma RetentionOfMany(events: seq<Event>)
    requires MAX_EVENTS_PER_THREAD < |NewestFirst(events)|
    ensures var sorted, kept := NewestFirst(events), RetainThreadActivities(events);
      kept == sorted[..MAX_EVENTS_PER_THREAD] ||
      (FirstRead(sorted).Some? && FirstRead(sorted).value in sorted[MAX_EVENTS_PER_THREAD - 1..] &&
       kept == NewestFirst(sorted[..MAX_EVENTS_PER_THREAD - 1] + [FirstRead(sorted).value]))
  {
    hide NewestFirst;
    var sorted := NewestFirst(events);
    var recent := sorted[..MAX_EVENTS_PER_THREAD];
    FirstReadIsIn(sorted);
    if FirstRead(sorted).Some? && FirstRead(sorted).value !in recent {
      assert sorted == recent + sorted[MAX_EVENTS_PER_THREAD..];
      assert FirstRead(sorted).value in sorted[MAX_EVENTS_PER_THREAD..];
      assert sorted[MAX_EVENTS_PER_THREAD - 1..] == [sorted[MAX_EVENTS_PER_THREAD - 1]] + sorted[MAX_EVENTS_PER_THREAD..];
    }
    assert recent[..MAX_EVENTS_PER_THREAD - 1] == sorted[..MAX_EVENTS_PER_THREAD - 1];
  }

  /** What is dropped is no newer than what is kept, except for the latest agent read. */
  lemma RetentionKeepsTheNewest(events: seq<Event>) returns (dropped: seq<Event>)
    ensures var kept := RetainThreadActivities(events);
      && |kept| == Min(|events|, MAX_EVENTS_PER_THREAD)
      && IsNewestFirst(kept)
      && multiset(events) == multiset(kept) + multiset(dropped)
      && NotNewer(dropped, kept, LatestRead(events))
  {
    hide NewestFirst, RetainThreadActivities, FirstRead, LatestRead, IsNewestFirst;
    var sorted := NewestFirst(events);
    NewestFirstMeans(events);
    FirstReadOfSorted(events);
    if |sorted| <= MAX_EVENTS_PER_THREAD {
      RetentionOfFew(events);
      dropped := [];
    } else {
      RetentionOfMany(events);
      SplitSorted(sorted, MAX_EVENTS_PER_THREAD);
      if RetainThreadActivities(events) == sorted[..MAX_EVENTS_PER_THREAD] {
        dropped := sorted[MAX_EVENTS_PER_THREAD..];
        PrefixIsNewestFirst(sorted, MAX_EVENTS_PER_THREAD);
      } else {
        dropped := RetentionSwaps(sorted, FirstRead(sorted).value, RetainThreadActivities(events));
      }
    }
  }

  // ---------------------------------------------------------------- the cache

  const EMPTY := State(map[], [])

  function EventsOf(state: State, threadId: string): seq<Event> {
    if threadId in state.byThread then state.byThread[threadId] else []
  }

  function AddCommentActivity(state: State, event: Event): State {
    if event.id in state.seen then state
    else
      var threadEvents := RetainThreadActivities(EventsOf(state, event.threadId) + [event]);
      var seen := [event.id] + state.seen;
      State(state.byThread[event.threadId := threadEvents],
            if |seen| > MAX_SEEN_EVENT_IDS then seen[..MAX_SEEN_EVENT_IDS] else seen)
  }

  function AddCommentActivities(state: State, events: seq<Event>): State {
    if events == [] then state
    else AddCommentActivity(AddCommentActivities(state, events[..|events| - 1]), events[|events| - 1])
  }

  function OfThread(events: seq<Event>, threadId: string): seq<Event> {
    Filter(events, (e: Event) => e.threadId == threadId)
  }

  /** The cache after `history`: bounded lists, known ids, and the latest agent read of every thread. */
  ghost predicate Mirrors(state: State, history: seq<Event>) {
    && |state.seen| <= MAX_SEEN_EVENT_IDS
    && (forall id | id in state.seen :: exists e | e in history :: e.id == id)
    && (forall t | t in state.byThread :: |state.byThread[t]| <= MAX_EVENTS_PER_THREAD)
    && (forall t | t in state.byThread :: forall e | e in state.byThread[t] :: e in history)
    && (forall t :: LatestRead(EventsOf(state, t)) == LatestRead(OfThread(history, t)))
  }

  lemma {:induction false} OfThreadAppend(history: seq<Event>, e: Event, t: string)
    ensures OfThread(history + [e], t) == if e.threadId == t then OfThread(history, t) + [e] else OfThread(history, t)
  {
    var p := (e: Event) => e.threadId == t;
    FilterConcat(history, [e], p);
    assert [e][1..] == [];
  }

  lemma LatestReadAppend(s: seq<Event>, e: Event)
    ensures LatestRead(s + [e]) == Later(LatestRead(s), e)
  {
    assert (s + [e])[..|s|] == s;
  }

  /** An event that is known already changes no latest read. */
  lemma KnownEventChangesNoRead(history: seq<Event>, e: Event, t: string)
    requires e in history
    ensures LatestRead(OfThread(history + [e], t)) == LatestRead(OfThread(history, t))
  {
    OfThreadAppend(history, e, t);
    if e.threadId == t {
      FilterMembers(history, (e: Event) => e.threadId == t);
      LatestReadMeans(OfThread(history, t));
      LatestReadAppend(OfThread(history, t), e);
    }
  }

  lemma RetainedAreThere(events: seq<Event>)
    ensures |RetainThreadActivities(events)| <= MAX_EVENTS_PER_THREAD
    ensures forall e | e in RetainThreadActivities(events) :: e in events
  {
    var dropped := RetentionKeepsTheNewest(events);
    forall e | e in RetainThreadActivities(events)
      ensures e in events
    {
      assert e in multiset(events);
    }
  }

  /** Adding an event keeps the mirror, whether the event is new, in the window, or out of the window again. */
  lemma AddKeepsMirror(state: State, history: seq<Event>, e: Event)
    requires Mirrors(state, history) && IdsDetermineEvents(history + [e])
    ensures Mirrors(AddCommentActivity(state, e), history + [e])
  {
    var after := AddCommentActivity(state, e);
    assert forall x | x in history :: x in history + [e];
    assert e in history + [e] by { assert (history + [e])[|history|] == e; }
    if e.id in state.seen {
      var x :| x in history && x.id == e.id;
      assert x == e;
      forall t
        ensures LatestRead(EventsOf(after, t)) == LatestRead(OfThread(history + [e], t))
      {
        KnownEventChangesNoRead(history, e, t);
      }
    } else {
      AddNewEvent(state, history, e);
    }
  }

  lemma AddToThread(state: State, history: seq<Event>, e: Event, t: string)
    requires Mirrors(state, history) && IdsDetermineEvents(history + [e]) && e.id !in state.seen
    ensures LatestRead(EventsOf(AddCommentActivity(state, e), t)) == LatestRead(OfThread(history + [e], t))
  {
    hide LatestRead, OfThread, RetainThreadActivities;
    OfThreadAppend(history, e, t);
    assert LatestRead(EventsOf(state, t)) == LatestRead(OfThread(history, t));
    if t == e.threadId {
      var grown := EventsOf(state, t) + [e];
      assert forall x | x in grown :: x in history + [e] by { assert (history + [e])[|history|] == e; }
      RetentionKeepsTheLatestRead(grown);
      LatestReadAppend(EventsOf(state, t), e);
      LatestReadAppend(OfThread(history, t), e);
    }
  }

  lemma AddNewEvent(state: State, history: seq<Event>, e: Event)
    requires Mirrors(state, history) && IdsDetermineEvents(history + [e]) && e.id !in state.seen
    ensures Mirrors(AddCommentActivity(state, e), history + [e])
  {
    hide LatestRead, OfThread, RetainThreadActivities;
    var after := AddCommentActivity(state, e);
    var grown := EventsOf(state, e.threadId) + [e];
    assert forall x | x in history :: x in history + [e];
    assert e in history + [e] by { assert (history + [e])[|history|] == e; }
    RetainedAreThere(grown);
    forall t
      ensures LatestRead(EventsOf(after, t)) == LatestRead(OfThread(history + [e], t))
    {
      AddToThread(state, history, e, t);
    }
    forall id | id in after.seen
      ensures exists x | x in history + [e] :: x.id == id
    {
      if id != e.id {
        assert id in state.seen;
        var x :| x in history && x.id == id;
        assert x in history + [e];
      }
    }
  }

  /** After any sequence of events, the cache is bounded and knows the latest agent read of every thread. */
  lemma {:induction false} CacheMirrorsHistory(history: seq<Event>)
    requires IdsDetermineEvents(history)
    ensures Mirrors(AddCommentActivities(EMPTY, history), history)
  {
    if history != [] {
      var n := |history| - 1;
      assert history == history[..n] + [history[n]];
      CacheMirrorsHistory(history[..n]);
      AddKeepsMirror(AddCommentActivities(EMPTY, history[..n]), history[..n], history[n]);
    }
  }

  // ---------------------------------------------------------------- what exactly is cached

  predicate IdsDiffer(events: seq<Event>) {
    forall i, j | 0 <= i < j < |events| :: events[i].id != events[j].id
  }

  /** The index of the first agent read, or the length. */
  function ReadIndex(s: seq<Event>): (r: nat)
    ensures r <= |s| && (r < |s| ==> IsAgentRead(s[r])) && forall i | 0 <= i < r :: !IsAgentRead(s[i])
  {
    if s == [] || IsAgentRead(s[0]) then 0 else 1 + ReadIndex(s[1..])
  }

  lemma {:induction false} FirstReadAt(s: seq<Event>)
    ensures FirstRead(s) == if ReadIndex(s) < |s| then Some(s[ReadIndex(s)]) else None
  {
    if s != [] && !IsAgentRead(s[0]) {
      FirstReadAt(s[1..]);
    }
  }

  /** Retention of a list that is sorted already. */
  function Kept(sorted: seq<Event>): seq<Event> {
    var r := ReadIndex(sorted);
    if |sorted| <= 24 then sorted
    else if r < 24 || r == |sorted| then sorted[..24]
    else sorted[..23] + [sorted[r]]
  }

  /** Where an insertion puts its element. */
  lemma {:induction false} InsertSplits<T>(s: seq<T>, x: T, key: T -> int) returns (p: nat)
    ensures p <= |s| && InsertDescending(s, x, key) == s[..p] + [x] + s[p..]
    ensures (forall i | 0 <= i < p :: key(s[i]) >= key(x)) && (p < |s| ==> key(s[p]) < key(x))
  {
    if s == [] || key(s[0]) < key(x) {
      p := 0;
    } else {
      var q := InsertSplits(s[1..], x, key);
      p := q + 1;
      assert s[..p] == [s[0]] + s[1..][..q] && s[p..] == s[1..][q..];
    }
  }

  /** Sorting a sorted list changes nothing. */
  lemma {:induction false} SortOfSorted<T>(s: seq<T>, key: T -> int)
    requires IsDescending(s, key)
    ensures SortDescending(s, key) == s
  {
    if s != [] {
      var n := |s| - 1;
      SortOfSorted(s[..n], key);
      var p := InsertSplits(s[..n], s[n], key);
      assert p == n;
      assert s[..n][..n] + [s[n]] + s[..n][n..] == s;
    }
  }

  lemma KeptIsNewestFirst(sorted: seq<Event>)
    requires IsNewestFirst(sorted)
    ensures IsNewestFirst(Kept(sorted))
  {}

  lemma {:induction false} IdInPrefix(sorted: seq<Event>, r: nat, n: nat)
    requires IdsDiffer(sorted) && r < |sorted| && n <= |sorted|
    ensures (exists e | e in sorted[..n] :: e.id == sorted[r].id) <==> r < n
  {
    if r < n {
      assert sorted[r] == sorted[..n][r];
    }
    if e :| e in sorted[..n] && e.id == sorted[r].id {
      var i :| 0 <= i < n && sorted[i] == e;
    }
  }

  /** For events of distinct ids, retention keeps the first 24 of the sorted list, or 23 of them and the latest agent read. */
  lemma RetainIsKept(events: seq<Event>)
    requires IdsDiffer(NewestFirst(events))
    ensures RetainThreadActivities(events) == Kept(NewestFirst(events))
  {
    var sorted := NewestFirst(events);
    NewestFirstMeans(events);
    hide NewestFirst;
    FirstReadAt(sorted);
    if |sorted| <= 24 {
      RetentionOfFew(events);
    } else {
      hide FirstRead, ReadIndex;
      var r := ReadIndex(sorted);
      if r < |sorted| {
        IdInPrefix(sorted, r, 24);
        hide IdsDiffer;
        assert sorted[..24][..23] == sorted[..23];
        if r >= 24 {
          assert IsNewestFirst(sorted[..23] + [sorted[r]]);
          SortedIsKept(sorted[..23] + [sorted[r]]);
        }
      }
    }
  }

  lemma SortedIsKept(s: seq<Event>)
    requires IsNewestFirst(s)
    ensures NewestFirst(s) == s
  {
    SortOfSorted(s, CreatedAt);
  }

  /** The list with `e` inserted before index `p`. */
  function With(s: seq<Event>, e: Event, p: nat): seq<Event>
    requires p <= |s|
  {
    s[..p] + [e] + s[p..]
  }

  predicate GoesAt(s: seq<Event>, e: Event, p: nat) {
    && p <= |s|
    && (forall i | 0 <= i < p :: s[i].createdAt >= e.createdAt) && (forall i | p <= i < |s| :: s[i].createdAt < e.createdAt)
  }

  lemma InsertGoesAt(s: seq<Event>, e: Event) returns (p: nat)
    requires IsNewestFirst(s)
    ensures GoesAt(s, e, p) && InsertDescending(s, e, CreatedAt) == With(s, e, p)
  {
    p := InsertSplits(s, e, CreatedAt);
    forall i | p <= i < |s|
      ensures s[i].createdAt < e.createdAt
    {
      assert CreatedAt(s[p]) >= CreatedAt(s[i]);
    }
  }

  lemma ReadIndexIs(s: seq<Event>, r: nat)
    requires r <= |s| && (r < |s| ==> IsAgentRead(s[r])) && forall i | 0 <= i < r :: !IsAgentRead(s[i])
    ensures ReadIndex(s) == r
  {}

  lemma WithAt(s: seq<Event>, e: Event, p: nat, i: nat)
    requires p <= |s| && i <= |s|
    ensures |With(s, e, p)| == |s| + 1
    ensures With(s, e, p)[i] == if i < p then s[i] else if i == p then e else s[i - 1]
  {}

  /** The first read of a list with one more event. */
  lemma ReadIndexWith(s: seq<Event>, e: Event, p: nat)
    requires p <= |s|
    ensures ReadIndex(With(s, e, p)) ==
      var r := ReadIndex(s); if r < p then r else if IsAgentRead(e) then p else r + 1
  {
    hide IsAgentRead, With;
    var t, r := With(s, e, p), ReadIndex(s);
    var at := if r < p then r else if IsAgentRead(e) then p else r + 1;
    WithAt(s, e, p, 0);
    forall i | 0 <= i < at
      ensures !IsAgentRead(t[i])
    {
      WithAt(s, e, p, i);
    }
    if at <= |s| {
      WithAt(s, e, p, at);
    }
    ReadIndexIs(t, at);
  }

  lemma PlaceIsUnique(s: seq<Event>, e: Event, p: nat, q: nat)
    requires GoesAt(s, e, p) && GoesAt(s, e, q)
    ensures p == q
  {
    PlaceIsLeast(s, e, p, q);
    PlaceIsLeast(s, e, q, p);
  }

  lemma PlaceIsLeast(s: seq<Event>, e: Event, p: nat, q: nat)
    requires GoesAt(s, e, p) && GoesAt(s, e, q)
    ensures p <= q
  {
    if p > 0 {
      assert s[p - 1].createdAt >= e.createdAt;
    }
  }

  /** The last event that is kept of a long list. */
  function Chosen(s: seq<Event>): (c: nat)
    requires |s| > 24
    ensures c < |s|
  {
    var r := ReadIndex(s);
    if r < 24 || r == |s| then 23 else r
  }

  lemma KeptAt(s: seq<Event>)
    requires |s| > 24
    ensures |Kept(s)| == 24 && Kept(s)[23] == s[Chosen(s)]
    ensures forall i | 0 <= i < 23 :: Kept(s)[i] == s[i]
  {
    hide ReadIndex;
  }

  lemma KeptAgree(a: seq<Event>, b: seq<Event>)
    requires |a| > 24 && |b| > 24 && a[Chosen(a)] == b[Chosen(b)] && forall i | 0 <= i < 23 :: a[i] == b[i]
    ensures Kept(a) == Kept(b)
  {
    KeptAt(a);
    KeptAt(b);
    hide Kept, Chosen;
    assert forall i | 0 <= i < 24 :: Kept(a)[i] == Kept(b)[i];
  }

  /** Where the event goes in what is kept, and where the first read is in it. */
  lemma KeptShape(s: seq<Event>, e: Event, p: nat, q: nat)
    requires |s| > 24 && GoesAt(s, e, p) && GoesAt(Kept(s), e, q)
    ensures q == if p < 23 then p else if p <= Chosen(s) then 23 else 24
    ensures ReadIndex(Kept(s)) == if ReadIndex(s) == |s| then 24 else if ReadIndex(s) < 24 then ReadIndex(s) else 23
  {
    KeptAt(s);
    hide Kept;
    var k, at: nat := Kept(s), if p < 23 then p else if p <= Chosen(s) then 23 else 24;
    assert GoesAt(k, e, at);
    PlaceIsUnique(k, e, q, at);
    hide GoesAt, IsAgentRead;
    ReadIndexIs(k, if ReadIndex(s) == |s| then 24 else if ReadIndex(s) < 24 then ReadIndex(s) else 23);
  }

  /** What is kept after one more event does not need what was not kept before it. */
  lemma KeptNeedsNoRest(s: seq<Event>, e: Event, p: nat, q: nat)
    requires |s| > 24 && GoesAt(s, e, p) && GoesAt(Kept(s), e, q)
    ensures Kept(With(Kept(s), e, q)) == Kept(With(s, e, p))
  {
    KeptShape(s, e, p, q);
    PlaceIsIn(s, e, p);
    PlaceIsIn(Kept(s), e, q);
    KeptAt(s);
    hide GoesAt, Kept, With, ReadIndex, IsAgentRead, Chosen;
    var k := Kept(s);
    SameFront(s, k, e, p, q);
    SameChoice(s, k, e, p, q);
    KeptAgree(With(k, e, q), With(s, e, p));
  }

  lemma SameFront(s: seq<Event>, k: seq<Event>, e: Event, p: nat, q: nat)
    requires |s| > 24 && |k| == 24 && p <= |s| && q <= |k| && (if p < 23 then q == p else q >= 23)
    requires forall i | 0 <= i < 23 :: k[i] == s[i]
    ensures |With(k, e, q)| == 25 && |With(s, e, p)| == |s| + 1
    ensures forall i | 0 <= i < 23 :: With(k, e, q)[i] == With(s, e, p)[i]
  {
    hide With;
    WithAt(k, e, q, 0);
    WithAt(s, e, p, 0);
    forall i | 0 <= i < 23
      ensures With(k, e, q)[i] == With(s, e, p)[i]
    {
      WithAt(k, e, q, i);
      WithAt(s, e, p, i);
    }
  }

  lemma SameChoice(s: seq<Event>, k: seq<Event>, e: Event, p: nat, q: nat)
    requires |s| > 24 && |k| == 24 && p <= |s| && q == if p < 23 then p else if p <= Chosen(s) then 23 else 24
    requires k[23] == s[Chosen(s)] && k[22] == s[22]
    requires ReadIndex(k) == if ReadIndex(s) == |s| then 24 else if ReadIndex(s) < 24 then ReadIndex(s) else 23
    ensures |With(k, e, q)| == 25 && |With(s, e, p)| == |s| + 1
    ensures With(k, e, q)[Chosen(With(k, e, q))] == With(s, e, p)[Chosen(With(s, e, p))]
  {
    hide With, ReadIndex, IsAgentRead;
    var a, b := With(k, e, q), With(s, e, p);
    WithAt(k, e, q, 0);
    WithAt(s, e, p, 0);
    ReadIndexWith(k, e, q);
    ReadIndexWith(s, e, p);
    WithAt(k, e, q, Chosen(a));
    WithAt(s, e, p, Chosen(b));
  }

  lemma PlaceIsIn(s: seq<Event>, e: Event, p: nat)
    requires GoesAt(s, e, p)
    ensures p <= |s|
  {}

  /** Retaining as events come in is retaining once at the end. */
  lemma RetainOneMore(events: seq<Event>, e: Event)
    requires IdsDiffer(events + [e])
    ensures RetainThreadActivities(RetainThreadActivities(events) + [e]) == RetainThreadActivities(events + [e])
  {
    var s := NewestFirst(events);
    assert (events + [e])[..|events|] == events;
    assert NewestFirst(events + [e]) == InsertDescending(s, e, CreatedAt);
    SortedIdsDiffer(events + [e]);
    PrefixIdsDiffer(events, e);
    SortedIdsDiffer(events);
    RetainIsKept(events);
    RetainIsKept(events + [e]);
    NewestFirstMeans(events);
    KeptIsNewestFirst(s);
    var k := Kept(s);
    assert (k + [e])[..|k|] == k;
    assert NewestFirst(k + [e]) == InsertDescending(k, e, CreatedAt) by { SortedIsKept(k); }
    var p := InsertGoesAt(s, e);
    var q := InsertGoesAt(k, e);
    KeptWithDiffers(s, e, p, q);
    RetainIsKept(k + [e]);
    hide NewestFirst, IsNewestFirst, InsertDescending, RetainThreadActivities;
    if |s| > 24 {
      KeptNeedsNoRest(s, e, p, q);
    } else {
      PlaceIsUnique(s, e, p, q);
    }
  }

  lemma PrefixIdsDiffer(events: seq<Event>, e: Event)
    requires IdsDiffer(events + [e])
    ensures IdsDiffer(events)
  {
    forall i, j | 0 <= i < j < |events|
      ensures events[i].id != events[j].id
    {
      assert (events + [e])[i].id != (events + [e])[j].id;
    }
  }

  /** The ids of a sorted list differ if those of the list do. */
  lemma {:induction false} SortedIdsDiffer(events: seq<Event>)
    requires IdsDiffer(events)
    ensures IdsDiffer(NewestFirst(events))
  {
    if events != [] {
      var n := |events| - 1;
      var front, e := events[..n], events[n];
      SortedIdsDiffer(front);
      NewestFirstMeans(front);
      var s := NewestFirst(front);
      var p := InsertGoesAt(s, e);
      forall i | 0 <= i < |s|
        ensures s[i].id != e.id
      {
        assert s[i] in multiset(s);
        assert s[i] in front;
      }
      WithDiffers(s, e, p);
    }
  }

  lemma WithDiffers(s: seq<Event>, e: Event, p: nat)
    requires IdsDiffer(s) && p <= |s| && forall i | 0 <= i < |s| :: s[i].id != e.id
    ensures IdsDiffer(With(s, e, p))
  {}

  /** What is kept of a list of distinct ids, with one more event, has distinct ids. */
  lemma KeptWithDiffers(s: seq<Event>, e: Event, p: nat, q: nat)
    requires p <= |s| && IdsDiffer(With(s, e, p)) && q <= |Kept(s)|
    ensures IdsDiffer(With(Kept(s), e, q))
  {
    WithoutDiffers(s, e, p);
    KeptDiffers(s);
    hide Kept, With, IdsDiffer;
    forall i | 0 <= i < |Kept(s)|
      ensures Kept(s)[i].id != e.id
    {
      assert Kept(s)[i] in s;
      var j :| 0 <= j < |s| && s[j] == Kept(s)[i];
    }
    WithDiffers(Kept(s), e, q);
  }

  lemma KeptDiffers(s: seq<Event>)
    requires IdsDiffer(s)
    ensures IdsDiffer(Kept(s)) && forall i | 0 <= i < |Kept(s)| :: Kept(s)[i] in s
  {
    hide ReadIndex;
    if |s| > 24 {
      KeptAt(s);
      hide Kept;
      assert Chosen(s) >= 23;
    }
  }

  lemma WithoutDiffers(s: seq<Event>, e: Event, p: nat)
    requires p <= |s| && IdsDiffer(With(s, e, p))
    ensures IdsDiffer(s) && forall i | 0 <= i < |s| :: s[i].id != e.id
  {
    hide With;
    forall i, j | 0 <= i < j < |s|
      ensures s[i].id != s[j].id
    {
      WithAt(s, e, p, if i < p then i else i + 1);
      WithAt(s, e, p, if j < p then j else j + 1);
    }
    forall i | 0 <= i < |s|
      ensures s[i].id != e.id
    {
      WithAt(s, e, p, if i < p then i else i + 1);
      WithAt(s, e, p, p);
    }
  }

  lemma {:induction false} ThreadIdsDiffer(history: seq<Event>, t: string)
    requires IdsDiffer(history)
    ensures IdsDiffer(OfThread(history, t))
  {
    if history != [] {
      var n := |history| - 1;
      var front, e := history[..n], history[n];
      assert history == front + [e];
      ThreadIdsDiffer(front, t);
      OfThreadAppend(front, e, t);
      FilterMembers(front, (e: Event) => e.threadId == t);
      hide Filter;
      forall x | x in OfThread(front, t)
        ensures x.id != e.id
      {
        assert x in front;
        var i :| 0 <= i < n && history[i] == x;
      }
    }
  }

  /** An event of a new id is not known yet. */
  lemma NewIdIsUnseen(front: seq<Event>, e: Event)
    requires IdsDiffer(front + [e])
    ensures e.id !in AddCommentActivities(EMPTY, front).seen
  {
    PrefixIdsDiffer(front, e);
    assert IdsDetermineEvents(front);
    CacheMirrorsHistory(front);
    hide LatestRead, OfThread, RetainThreadActivities, AddCommentActivities;
    forall x | x in front
      ensures x.id != e.id
    {
      var i :| 0 <= i < |front| && front[i] == x;
      assert (front + [e])[i] == x && (front + [e])[|front|] == e;
    }
  }

  /** The list cached of a thread is what retention keeps of the whole thread, when no event comes in twice. */
  lemma {:induction false} CacheIsRetention(history: seq<Event>, t: string)
    requires IdsDiffer(history)
    ensures EventsOf(AddCommentActivities(EMPTY, history), t) == RetainThreadActivities(OfThread(history, t))
  {
    if history != [] {
      var n := |history| - 1;
      var front, e := history[..n], history[n];
      assert history == front + [e];
      PrefixIdsDiffer(front, e);
      CacheIsRetention(front, t);
      NewIdIsUnseen(front, e);
      OfThreadAppend(front, e, t);
      ThreadIdsDiffer(history, t);
      hide RetainThreadActivities, OfThread, IdsDiffer;
      if e.threadId == t {
        RetainOneMore(OfThread(front, t), e);
      }
    } else {
      RetentionOfFew([]);
    }
  }

  /** A thread with no more than 24 events is cached whole, newest first. */
  lemma ShortThreadIsCachedWhole(history: seq<Event>, t: string)
    requires IdsDiffer(history) && |OfThread(history, t)| <= 24
    ensures var cached := EventsOf(AddCommentActivities(EMPTY, history), t);
      multiset(cached) == multiset(OfThread(history, t)) && IsNewestFirst(cached)
  {
    CacheIsRetention(history, t);
    NewestFirstMeans(OfThread(history, t));
    RetentionOfFew(OfThread(history, t));
  }

  // ---------------------------------------------------------------- the receipt

  datatype Comment = Comment(updatedAt: int, human: bool)

  datatype Thread = Thread(id: string, createdAt: int, comments: seq<Comment>)

  datatype Receipt = AgentRead(actor: string) | NotRead

  function LatestHumanFeedbackAt(comments: seq<Comment>, createdAt: int): int {
    if comments == [] then createdAt
    else
      var latest := LatestHumanFeedbackAt(comments[..|comments| - 1], createdAt);
      var last := comments[|comments| - 1];
      if last.human && last.updatedAt > latest then last.updatedAt else latest
  }

  function CommentThreadReviewReceipt(thread: Thread, events: seq<Event>): Receipt {
    var read := FirstRead(NewestFirst(events));
    if read.Some? && read.value.createdAt >= LatestHumanFeedbackAt(thread.comments, thread.createdAt)
    then AgentRead(read.value.actor)
    else NotRead
  }

  predicate IsLatestRead(events: seq<Event>, e: Event) {
    IsAgentRead(e) && forall d | d in events && IsAgentRead(d) :: d.createdAt <= e.createdAt
  }

  /** A receipt says "seen" exactly when some agent read is no older than the thread and all its human feedback. */
  lemma ReceiptMeans(thread: Thread, events: seq<Event>)
    ensures CommentThreadReviewReceipt(thread, events).AgentRead? <==>
            exists e | e in events :: e.kind == ThreadRead && e.actorKind != Human && thread.createdAt <= e.createdAt &&
              forall c | c in thread.comments && c.human :: c.updatedAt <= e.createdAt
    ensures CommentThreadReviewReceipt(thread, events).AgentRead? ==>
            exists e | e in events :: IsLatestRead(events, e) && e.actor == CommentThreadReviewReceipt(thread, events).actor
  {
    FirstReadOfSorted(events);
    LatestReadMeans(events);
    LatestFeedbackMeans(thread.comments, thread.createdAt);
    if LatestRead(events).Some? {
      var read := LatestRead(events).value;
      assert read in events;
      assert IsLatestRead(events, read);
    }
  }

  lemma {:induction false} LatestFeedbackMeans(comments: seq<Comment>, createdAt: int)
    ensures var latest := LatestHumanFeedbackAt(comments, createdAt);
      && createdAt <= latest
      && (forall c | c in comments && c.human :: c.updatedAt <= latest)
      && (latest == createdAt || exists c | c in comments && c.human :: c.updatedAt == latest)
  {
    if comments != [] {
      var n := |comments| - 1;
      LatestFeedbackMeans(comments[..n], createdAt);
      assert comments == comments[..n] + [comments[n]];
    }
  }

  /** The receipt from the cache is the receipt from everything that was ever added, for every thread. */
  lemma CacheKeepsReceipts(thread: Thread, history: seq<Event>)
    requires IdsDetermineEvents(history)
    ensures var state := AddCommentActivities(EMPTY, history);
      && |EventsOf(state, thread.id)| <= MAX_EVENTS_PER_THREAD
      && CommentThreadReviewReceipt(thread, EventsOf(state, thread.id))
         == CommentThreadReviewReceipt(thread, OfThread(history, thread.id))
  {
    CacheMirrorsHistory(history);
    FirstReadOfSorted(EventsOf(AddCommentActivities(EMPTY, history), thread.id));
    FirstReadOfSorted(OfThread(history, thread.id));
  }
}
