/**
 The event service: every published event gets the next version and is put on the queue of every subscriber that has room.
 A full queue loses the event; a subscriber sees the gap in the versions.
 */
module EventServices {
  import opened Sequences

  const WORKSPACE_EVENT_BUFFER_SIZE := 1024

  datatype Versioned<E> = Versioned(version: nat, event: E)

  /** A subscriber's queue; `received` is what was taken from it. */
  class Subscription<E> {
    var pending: seq<Versioned<E>>
    var closed: bool
    ghost var received: seq<Versioned<E>>

    constructor ()
      ensures pending == [] && received == [] && !closed
    {
      pending, received, closed := [], [], false;
    }

    method Receive() returns (r: Option<Versioned<E>>)
      modifies this
      ensures closed == old(closed)
      ensures received + pending == old(received + pending)
      ensures r == if old(pending) == [] then None else Some(old(pending)[0])
      ensures pending == if old(pending) == [] then [] else old(pending)[1..]
    {
      if pending == [] {
        return None;
      }
      r := Some(pending[0]);
      assert pending == [pending[0]] + pending[1..];
      received := received + [pending[0]];
      pending := pending[1..];
    }
  }

  /** A queue behind one more event; a full queue stays as it is. */
  function WithOneMore<E>(queue: seq<Versioned<E>>, e: Versioned<E>): seq<Versioned<E>> {
    if |queue| < WORKSPACE_EVENT_BUFFER_SIZE then queue + [e] else queue
  }

  /** The versions of a journal: it starts with version 2 and counts on. */
  predicate IsJournal<E>(log: seq<Versioned<E>>) {
    forall i | 0 <= i < |log| :: log[i].version == i + 2
  }

  /** The published events. */
  function EventsIn<E>(log: seq<Versioned<E>>): (r: seq<E>)
    ensures |r| == |log|
    ensures forall i | 0 <= i < |r| :: r[i] == log[i].event
  {
    seq(|log|, i requires 0 <= i < |log| => log[i].event)
  }

  class EventService<E(==)> {
    var subscribers: set<Subscription<E>>
    var version: nat
    ghost var log: seq<Versioned<E>>

    ghost predicate Valid()
      reads this, subscribers
    {
      && IsJournal(log) && version == |log| + 1
      && forall s | s in subscribers :: IsFed(s, log)
    }

    constructor ()
      ensures Valid() && log == [] && subscribers == {}
    {
      subscribers, version, log := {}, 1, [];
    }

    method Subscribe() returns (s: Subscription<E>)
      requires Valid()
      modifies this`subscribers
      ensures Valid() && fresh(s) && subscribers == old(subscribers) + {s}
      ensures s.pending == [] && s.received == []
    {
      s := new Subscription();
      subscribers := subscribers + {s};
    }

    method Unsubscribe(s: Subscription<E>)
      requires Valid()
      modifies this`subscribers, s
      ensures Valid() && subscribers == old(subscribers) - {s}
      ensures s.pending == old(s.pending) && s.received == old(s.received)
    {
      if s in subscribers {
        subscribers := subscribers - {s};
        s.closed := true;
      }
    }

    /** Numbers the event and puts it on every queue that has room. */
    method Publish(event: E)
      requires Valid()
      modifies this`version, this`log, subscribers
      ensures Valid() && version == old(version) + 1
      ensures log == old(log) + [Versioned(version, event)]
      ensures forall s | s in subscribers :: s.received == old(s.received) && s.closed == old(s.closed)
      ensures forall s | s in subscribers :: s.pending == WithOneMore(old(s.pending), log[|log| - 1])
    {
      hide IsSubsequence;
      version := version + 1;
      var e := Versioned(version, event);
      var rest := subscribers;
      while rest != {}
        invariant rest <= subscribers && log == old(log) && version == old(version) + 1
        invariant forall s | s in subscribers :: s.received == old(s.received) && s.closed == old(s.closed)
        invariant forall s | s in rest :: s.pending == old(s.pending)
        invariant forall s | s in subscribers - rest :: s.pending == WithOneMore(old(s.pending), e)
        decreases rest
      {
        var s :| s in rest;
        if |s.pending| < WORKSPACE_EVENT_BUFFER_SIZE {
          s.pending := s.pending + [e];
        }
        rest := rest - {s};
      }
      log := log + [e];
      forall s | s in subscribers
        ensures IsFed(s, log)
      {
        FeedOneMore(old(s.received + s.pending), old(log), e);
        if s.pending != old(s.pending) {
          assert s.received + s.pending == old(s.received + s.pending) + [e];
        }
      }
    }
  }

  /** What a subscriber took and has waiting is part of the journal, in order, and within the buffer. */
  ghost predicate IsFed<E>(s: Subscription<E>, log: seq<Versioned<E>>)
    reads s
  {
    IsSubsequence(s.received + s.pending, log) && |s.pending| <= WORKSPACE_EVENT_BUFFER_SIZE
  }

  lemma FeedOneMore<E>(fed: seq<Versioned<E>>, log: seq<Versioned<E>>, e: Versioned<E>)
    requires IsSubsequence(fed, log)
    ensures IsSubsequence(fed, log + [e]) && IsSubsequence(fed + [e], log + [e])
  {
    SubsequenceReflexive([e]);
    SubsequenceConcat(fed, log, [e], [e]);
    SubsequenceConcat(fed, log, [], [e]);
    assert fed + [] == fed;
  }

  // ---------------------------------------------------------------- what versions tell a subscriber

  /** The event at a version above `base`. */
  predicate CountsFrom<E>(log: seq<Versioned<E>>, base: nat) {
    forall i | 0 <= i < |log| :: log[i].version == base + i
  }

  lemma {:induction false} PartIsAscending<E>(fed: seq<Versioned<E>>, log: seq<Versioned<E>>, base: nat)
    requires IsSubsequence(fed, log) && CountsFrom(log, base)
    ensures forall i | 0 <= i < |fed| :: base <= fed[i].version < base + |log| && log[fed[i].version - base] == fed[i]
    ensures forall i, j | 0 <= i < j < |fed| :: fed[i].version < fed[j].version
    decreases log
  {
    if fed != [] {
      assert CountsFrom(log[1..], base + 1);
      if fed[0] == log[0] && IsSubsequence(fed[1..], log[1..]) {
        PartIsAscending(fed[1..], log[1..], base + 1);
        assert fed == [fed[0]] + fed[1..];
      } else {
        PartIsAscending(fed, log[1..], base + 1);
      }
    }
  }

  /** What a subscriber gets is in the journal, with strictly increasing versions. */
  lemma SubscribersSeeIncreasingVersions<E>(fed: seq<Versioned<E>>, log: seq<Versioned<E>>)
    requires IsSubsequence(fed, log) && IsJournal(log)
    ensures forall i | 0 <= i < |fed| :: fed[i] in log
    ensures forall i, j | 0 <= i < j < |fed| :: fed[i].version < fed[j].version
  {
    assert CountsFrom(log, 2);
    PartIsAscending(fed, log, 2);
  }

  /** A subscriber whose versions follow each other without a gap missed nothing in between. */
  lemma NoGapMeansNothingMissed<E>(fed: seq<Versioned<E>>, log: seq<Versioned<E>>)
    requires IsSubsequence(fed, log) && IsJournal(log) && fed != []
    requires HasNoGap(fed)
    ensures var first := fed[0].version - 2; 0 <= first && first + |fed| <= |log| && fed == log[first..first + |fed|]
  {
    hide IsSubsequence, IsJournal, HasNoGap;
    StandsBehindFirst(fed, log, 0);
    StandsBehindFirst(fed, log, |fed| - 1);
    var first := fed[0].version - 2;
    forall i | 0 <= i < |fed|
      ensures fed[i] == log[first + i]
    {
      StandsBehindFirst(fed, log, i);
    }
  }

  lemma StandsBehindFirst<E>(fed: seq<Versioned<E>>, log: seq<Versioned<E>>, i: nat)
    requires IsSubsequence(fed, log) && IsJournal(log) && HasNoGap(fed) && i < |fed|
    ensures var first := fed[0].version - 2; 0 <= first + i < |log| && fed[i] == log[first + i]
  {
    StandsInLog(fed, log, i);
    hide IsSubsequence, IsJournal, HasNoGap;
    FollowEachOther(fed, i);
  }

  lemma StandsInLog<E>(fed: seq<Versioned<E>>, log: seq<Versioned<E>>, i: nat)
    requires IsSubsequence(fed, log) && IsJournal(log) && i < |fed|
    ensures 2 <= fed[i].version < |log| + 2 && log[fed[i].version - 2] == fed[i]
  {
    hide IsSubsequence;
    assert CountsFrom(log, 2);
    PartIsAscending(fed, log, 2);
  }

  /** Every version but the first is the next one after its predecessor's. */
  predicate HasNoGap<E>(fed: seq<Versioned<E>>) {
    forall i | 0 < i < |fed| :: fed[i].version == fed[i - 1].version + 1
  }

  lemma FollowsItsPredecessor<E>(fed: seq<Versioned<E>>, i: nat)
    requires HasNoGap(fed) && 0 < i < |fed|
    ensures fed[i].version == fed[i - 1].version + 1
  {}

  lemma {:induction false} FollowEachOther<E>(fed: seq<Versioned<E>>, i: nat)
    requires i < |fed| && HasNoGap(fed)
    ensures fed[i].version == fed[0].version + i
  {
    hide HasNoGap;
    if i > 0 {
      FollowEachOther(fed, i - 1);
      FollowsItsPredecessor(fed, i);
    }
  }
}
