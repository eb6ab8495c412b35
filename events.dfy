/** Scene events and the time-ordered event list that each scene queue keeps
    (the `nextEvent` chain of SceneGraphEventQueue::eventQueue), as values.
    Every list operation of the scheduler is specified here by a function on
    `seq<SceneEvent>`, with the lemmas that it keeps the queue invariant. */
module Events {

  /** Identity of a (non-NULL) SimObject: a scene or an object in a scene. */
  type ObjId = nat

  /** The id postEvent returns when the scene has no queue. */
  const InvalidEventId: nat := 0

  /** The event counter is a U32. */
  const U32Modulus: nat := 0x1_0000_0000

  /** What the SceneEvent constructor copies: the argument vector (function name
      first) and whether it is called as a method on the target object. */
  datatype Command = Command(argv: seq<string>, onObject: bool)

  /** One scheduled event. `time` is the fire time on the scene clock, `startTime`
      the scene clock when it was posted, `execute` the "due" mark set by advanceToTime. */
  datatype SceneEvent = SceneEvent(
    command: Command,
    startTime: real,
    time: real,
    sequenceCount: nat,
    destObject: ObjId,
    execute: bool)

  // ---------------------------------------------------------------------------
  // The queue invariant

  /** Non-decreasing fire times. Each of the pairwise properties below is stated through a
      predicate on the pair of positions, so that the fact about a pair is drawn only where
      a proof names it (SortedPairs and its siblings name every pair). */
  predicate Sorted(s: seq<SceneEvent>) {
    forall i, j :: 0 <= i < j < |s| ==> FiresNoLater(s, i, j)
  }

  /** The event at position `i` fires no later than the one at position `j`. */
  predicate FiresNoLater(s: seq<SceneEvent>, i: int, j: int) {
    0 <= i < |s| && 0 <= j < |s| && s[i].time <= s[j].time
  }

  /** The due events form a prefix of the list. */
  predicate DueFirst(s: seq<SceneEvent>) {
    forall i, j :: 0 <= i < j < |s| ==> DueNoLater(s, i, j)
  }

  /** The event at position `i` is due if the one at position `j` is. */
  predicate DueNoLater(s: seq<SceneEvent>, i: int, j: int) {
    0 <= i < |s| && 0 <= j < |s| && (s[j].execute ==> s[i].execute)
  }

  /** What every queue keeps true between calls: sorted, due events first, every due
      event at or before the clock, every event not yet due at or after it, and every
      event posted at or before the clock and before its fire time. */
  predicate WellFormed(s: seq<SceneEvent>, clock: real) {
    Sorted(s) && DueFirst(s) &&
    forall i :: 0 <= i < |s| ==>
      s[i].startTime <= s[i].time && s[i].startTime <= clock &&
      (if s[i].execute then s[i].time <= clock else clock <= s[i].time)
  }

  /** Ids are non-zero, below the next id to hand out, and pairwise distinct. */
  predicate UniqueIds(s: seq<SceneEvent>, next: nat) {
    (forall i :: 0 <= i < |s| ==> 1 <= s[i].sequenceCount < next) &&
    (forall i, j :: 0 <= i < j < |s| ==> OtherIds(s, i, j))
  }

  /** The events at positions `i` and `j` carry different ids. */
  predicate OtherIds(s: seq<SceneEvent>, i: int, j: int) {
    0 <= i < |s| && 0 <= j < |s| && s[i].sequenceCount != s[j].sequenceCount
  }

  /** Sorted, pair by pair. */
  lemma SortedPairs(s: seq<SceneEvent>)
    requires Sorted(s)
    ensures forall i, j :: 0 <= i < j < |s| ==> s[i].time <= s[j].time
  {
    forall i, j | 0 <= i < j < |s| ensures s[i].time <= s[j].time {
      assert FiresNoLater(s, i, j);
    }
  }

  /** DueFirst, pair by pair. */
  lemma DueFirstPairs(s: seq<SceneEvent>)
    requires DueFirst(s)
    ensures forall i, j :: 0 <= i < j < |s| && s[j].execute ==> s[i].execute
  {
    forall i, j | 0 <= i < j < |s| && s[j].execute ensures s[i].execute {
      assert DueNoLater(s, i, j);
    }
  }

  /** The distinct ids of UniqueIds, pair by pair. */
  lemma UniqueIdsPairs(s: seq<SceneEvent>, next: nat)
    requires UniqueIds(s, next)
    ensures forall i, j :: 0 <= i < j < |s| ==> s[i].sequenceCount != s[j].sequenceCount
  {
    forall i, j | 0 <= i < j < |s| ensures s[i].sequenceCount != s[j].sequenceCount {
      assert OtherIds(s, i, j);
    }
  }

  /** Dropping one event keeps the invariant and the ids (cancelEvent, and the pop at the
      front in executeEvents). */
  lemma RemoveAtKeepsInvariant(s: seq<SceneEvent>, clock: real, next: nat, k: nat)
    requires k < |s|
    ensures WellFormed(s, clock) ==> WellFormed(s[..k] + s[k + 1..], clock)
    ensures UniqueIds(s, next) ==> UniqueIds(s[..k] + s[k + 1..], next)
  {
    var r := s[..k] + s[k + 1..];
    assert forall i :: 0 <= i < |r| ==> r[i] == s[if i < k then i else i + 1];
    if WellFormed(s, clock) {
      SortedPairs(s);
      DueFirstPairs(s);
    }
    if UniqueIds(s, next) {
      UniqueIdsPairs(s, next);
    }
  }

  // ---------------------------------------------------------------------------
  // postEvent: sorted insertion after all events with an equal fire time

  /** Where postEvent links an event firing at `t`: after every event firing at or
      before `t`, before every event firing later. */
  function InsertionIndex(s: seq<SceneEvent>, t: real): (k: nat)
    requires Sorted(s)
    ensures k <= |s|
    ensures forall j :: 0 <= j < k ==> s[j].time <= t
    ensures forall j :: k <= j < |s| ==> s[j].time > t
  {
    SortedPairs(s);
    if s == [] || s[0].time > t then 0 else 1 + InsertionIndex(s[1..], t)
  }

  /** The only place in a sorted list that has every earlier event firing at or before `t`
      and the next one firing later is the insertion index. */
  lemma {:induction false} InsertionIndexUnique(s: seq<SceneEvent>, t: real, k: nat)
    requires Sorted(s) && k <= |s|
    requires forall j :: 0 <= j < k ==> s[j].time <= t
    requires k < |s| ==> s[k].time > t
    ensures k == InsertionIndex(s, t)
    decreases |s|
  {
    SortedPairs(s);
    if s != [] && s[0].time <= t {
      InsertionIndexUnique(s[1..], t, k - 1);
    }
  }

  /** The list after postEvent links `e`. */
  function Insert(s: seq<SceneEvent>, e: SceneEvent): (r: seq<SceneEvent>)
    requires Sorted(s)
    ensures |r| == |s| + 1
    ensures forall x :: x in r <==> x == e || x in s
  {
    var k := InsertionIndex(s, e.time);
    s[..k] + [e] + s[k..]
  }

  /** Element-wise view of `s[..k] + [e] + s[k..]`. */
  lemma InsertAtIndexing(s: seq<SceneEvent>, k: nat, e: SceneEvent)
    requires k <= |s|
    ensures |s[..k] + [e] + s[k..]| == |s| + 1
    ensures forall j :: 0 <= j < k ==> (s[..k] + [e] + s[k..])[j] == s[j]
    ensures (s[..k] + [e] + s[k..])[k] == e
    ensures forall j :: k < j <= |s| ==> (s[..k] + [e] + s[k..])[j] == s[j - 1]
  {
  }

  /** Sorted insertion: the result is sorted, holds exactly the old events plus `e`, the old
      events keep their relative order, and `e` comes after every event with the same fire
      time (so equal-time events stay in posting order). */
  lemma {:induction false} InsertPlacement(s: seq<SceneEvent>, e: SceneEvent) returns (k: nat)
    requires Sorted(s)
    ensures k < |Insert(s, e)| == |s| + 1
    ensures Insert(s, e)[k] == e
    ensures Insert(s, e)[..k] + Insert(s, e)[k + 1..] == s
    ensures forall j :: 0 <= j < k ==> Insert(s, e)[j].time <= e.time
    ensures forall j :: k < j < |Insert(s, e)| ==> Insert(s, e)[j].time > e.time
    ensures Sorted(Insert(s, e))
    ensures multiset(Insert(s, e)) == multiset(s) + multiset{e}
  {
    k := InsertionIndex(s, e.time);
    var r := Insert(s, e);
    InsertAtIndexing(s, k, e);
    assert r[..k] == s[..k];
    assert r[k + 1..] == s[k..];
    assert s[..k] + s[k..] == s;
    InsertSorted(s, e);
    InsertCounts(s, e);
  }

  /** Sorted insertion keeps the list sorted. */
  lemma InsertSorted(s: seq<SceneEvent>, e: SceneEvent)
    requires Sorted(s)
    ensures Sorted(Insert(s, e))
  {
    var k := InsertionIndex(s, e.time);
    var r := Insert(s, e);
    InsertAtIndexing(s, k, e);
    SortedPairs(s);
    forall i, j | 0 <= i < j < |r| ensures r[i].time <= r[j].time {
      if j < k {
        assert r[i] == s[i] && r[j] == s[j];
      } else if j == k {
        assert r[i] == s[i];
      } else if i < k {
        assert r[i] == s[i] && r[j] == s[j - 1];
      } else if i > k {
        assert r[i] == s[i - 1] && r[j] == s[j - 1];
      }
    }
  }

  /** Sorted insertion adds exactly `e` to the events of the list. */
  lemma InsertCounts(s: seq<SceneEvent>, e: SceneEvent)
    requires Sorted(s)
    ensures multiset(Insert(s, e)) == multiset(s) + multiset{e}
  {
    var k := InsertionIndex(s, e.time);
    calc {
      multiset(Insert(s, e));
      multiset(s[..k]) + multiset{e} + multiset(s[k..]);
      { assert s == s[..k] + s[k..]; }
      multiset(s) + multiset{e};
    }
  }

  /** Two posts at the same fire time: the first posted is dispatched first. The first post
      links `e1` at `k1` (taking it out there gives back `s`), the second links `e2` at `k2`
      (taking it out there gives back the list after the first post), and `k1 < k2`, so the
      copy of `e1` the first post linked is still at `k1`, ahead of `e2`. */
  lemma PostingOrder(s: seq<SceneEvent>, e1: SceneEvent, e2: SceneEvent) returns (k1: nat, k2: nat)
    requires Sorted(s) && e1.time == e2.time
    ensures Sorted(Insert(s, e1))
    ensures k1 < |Insert(s, e1)| && Insert(s, e1)[k1] == e1
    ensures Insert(s, e1)[..k1] + Insert(s, e1)[k1 + 1..] == s
    ensures k2 < |Insert(Insert(s, e1), e2)| && Insert(Insert(s, e1), e2)[k2] == e2
    ensures Insert(Insert(s, e1), e2)[..k2] + Insert(Insert(s, e1), e2)[k2 + 1..] == Insert(s, e1)
    ensures k1 < k2 && Insert(Insert(s, e1), e2)[k1] == e1
  {
    k1 := InsertPlacement(s, e1);
    var s1 := Insert(s, e1);
    k2 := InsertPlacement(s1, e2);
    var s2 := Insert(s1, e2);
    assert k1 < k2;
    assert s2[..k2] + s2[k2 + 1..] == s1;
    assert s2[k1] == s1[k1];
  }

  /** An event posted by postEvent keeps the queue invariant: it is not due, fires at or
      after the clock and was posted at the clock; its id is the counter's value. */
  lemma {:induction false} InsertKeepsInvariant(s: seq<SceneEvent>, clock: real, e: SceneEvent)
    requires WellFormed(s, clock)
    requires !e.execute && clock <= e.time && e.startTime == clock
    ensures WellFormed(Insert(s, e), clock)
  {
    var k := InsertPlacement(s, e);
    var r := Insert(s, e);
    InsertAtIndexing(s, k, e);
    DueFirstPairs(s);
    forall i | 0 <= i < |r|
      ensures r[i].startTime <= r[i].time && r[i].startTime <= clock
      ensures if r[i].execute then r[i].time <= clock else clock <= r[i].time
    {
      if i < k { assert r[i] == s[i]; } else if i > k { assert r[i] == s[i - 1]; }
    }
    forall i, j | 0 <= i < j < |r| && r[j].execute
      ensures r[i].execute
    {
      assert r[j].time <= clock;
      assert j < k;
      assert r[i] == s[i] && r[j] == s[j];
    }
  }

  /** The id postEvent hands out is the counter's value, so posting keeps ids unique
      with the counter one higher. */
  lemma {:induction false} InsertKeepsIds(s: seq<SceneEvent>, next: nat, e: SceneEvent)
    requires Sorted(s) && UniqueIds(s, next)
    requires e.sequenceCount == next && next >= 1
    ensures UniqueIds(Insert(s, e), next + 1)
  {
    var k := InsertPlacement(s, e);
    var r := Insert(s, e);
    InsertAtIndexing(s, k, e);
    UniqueIdsPairs(s, next);
    {
      forall i | 0 <= i < |r| ensures 1 <= r[i].sequenceCount < next + 1 {
        if i < k { assert r[i] == s[i]; } else if i > k { assert r[i] == s[i - 1]; }
      }
      forall i, j | 0 <= i < j < |r| ensures r[i].sequenceCount != r[j].sequenceCount {
        if j < k {
          assert r[i] == s[i] && r[j] == s[j];
        } else if j == k {
          assert r[i] == s[i];
        } else if i < k {
          assert r[i] == s[i] && r[j] == s[j - 1];
        } else if i == k {
          assert r[j] == s[j - 1];
        } else {
          assert r[i] == s[i - 1] && r[j] == s[j - 1];
        }
      }
    }
  }

  // ---------------------------------------------------------------------------
  // Lookup by id and cancelEvent

  /** Position of the first event with the given id, or |s| if there is none. */
  function EventIndex(s: seq<SceneEvent>, id: nat): (k: nat)
    ensures k <= |s|
    ensures k < |s| ==> s[k].sequenceCount == id
    ensures forall j :: 0 <= j < k ==> s[j].sequenceCount != id
  {
    if s == [] then 0
    else if s[0].sequenceCount == id then 0
    else 1 + EventIndex(s[1..], id)
  }

  /** An id is pending exactly when some event in the list carries it. */
  lemma {:induction false} EventIndexFindsAny(s: seq<SceneEvent>, id: nat)
    ensures EventIndex(s, id) < |s| <==> exists e :: e in s && e.sequenceCount == id
  {
    if EventIndex(s, id) == |s| {
      forall e | e in s ensures e.sequenceCount != id {
        var j :| 0 <= j < |s| && s[j] == e;
      }
    }
  }

  /** The list after cancelEvent: the first event with the id unlinked, if there is one. */
  function RemoveFirst(s: seq<SceneEvent>, id: nat): (r: seq<SceneEvent>)
    ensures |r| == if EventIndex(s, id) < |s| then |s| - 1 else |s|
    ensures forall x :: x in r ==> x in s
  {
    var k := EventIndex(s, id);
    if k < |s| then s[..k] + s[k + 1..] else s
  }

  /** cancelEvent removes one event, that with the id, keeps the others in order, and
      with unique ids leaves the id no longer pending while every other id keeps its event. */
  lemma {:induction false} CancelRemovesOnlyThatEvent(s: seq<SceneEvent>, next: nat, id: nat)
    requires UniqueIds(s, next)
    ensures EventIndex(s, id) == |s| ==> RemoveFirst(s, id) == s
    ensures EventIndex(s, id) < |s| ==>
      |RemoveFirst(s, id)| == |s| - 1 &&
      multiset(RemoveFirst(s, id)) == multiset(s) - multiset{s[EventIndex(s, id)]}
    ensures EventIndex(RemoveFirst(s, id), id) == |RemoveFirst(s, id)|
    ensures forall other :: other != id ==>
      (EventIndex(RemoveFirst(s, id), other) < |RemoveFirst(s, id)| <==> EventIndex(s, other) < |s|)
  {
    RemoveFirstShape(s, id);
    RemoveFirstClearsId(s, next, id);
    forall other | other != id
      ensures EventIndex(RemoveFirst(s, id), other) < |RemoveFirst(s, id)| <==> EventIndex(s, other) < |s|
    {
      RemoveFirstKeepsOthers(s, id, other);
    }
  }

  /** Cancelling drops the event found, and only it, or nothing when none has the id. */
  lemma RemoveFirstShape(s: seq<SceneEvent>, id: nat)
    ensures EventIndex(s, id) == |s| ==> RemoveFirst(s, id) == s
    ensures EventIndex(s, id) < |s| ==>
      |RemoveFirst(s, id)| == |s| - 1 &&
      multiset(RemoveFirst(s, id)) == multiset(s) - multiset{s[EventIndex(s, id)]}
  {
    var k := EventIndex(s, id);
    if k < |s| {
      CutCounts(s, k);
    }
  }

  /** Cutting the event at `k` out of a list takes exactly one copy of it away. */
  lemma CutCounts(s: seq<SceneEvent>, k: nat)
    requires k < |s|
    ensures multiset(s[..k] + s[k + 1..]) == multiset(s) - multiset{s[k]}
  {
    assert s == s[..k] + ([s[k]] + s[k + 1..]);
    assert multiset(s) == multiset(s[..k]) + (multiset{s[k]} + multiset(s[k + 1..]));
  }

  /** With unique ids, no event with the cancelled id is left. */
  lemma {:induction false} RemoveFirstClearsId(s: seq<SceneEvent>, next: nat, id: nat)
    requires UniqueIds(s, next)
    ensures EventIndex(RemoveFirst(s, id), id) == |RemoveFirst(s, id)|
  {
    var k := EventIndex(s, id);
    if k < |s| {
      var r := s[..k] + s[k + 1..];
      UniqueIdsPairs(s, next);
      assert forall i :: 0 <= i < |r| ==> r[i] == s[if i < k then i else i + 1];
      assert EventIndex(r, id) == |r|;
    }
  }

  /** Cancelling one id leaves every other id as pending as it was. */
  lemma {:induction false} RemoveFirstKeepsOthers(s: seq<SceneEvent>, id: nat, other: nat)
    requires other != id
    ensures EventIndex(RemoveFirst(s, id), other) < |RemoveFirst(s, id)| <==> EventIndex(s, other) < |s|
  {
    var k := EventIndex(s, id);
    if k < |s| {
      var r := s[..k] + s[k + 1..];
      EventIndexFindsAny(r, other);
      EventIndexFindsAny(s, other);
      if EventIndex(s, other) < |s| {
        var j := EventIndex(s, other);
        assert s[j] in r by {
          if j < k { assert r[j] == s[j]; } else { assert r[j - 1] == s[j]; }
        }
      } else {
        assert forall e :: e in r ==> e in s;
      }
    }
  }

  // ---------------------------------------------------------------------------
  // advanceToTime

  /** The list after advanceToTime(target): every event firing at or before the target is
      marked due, the others keep their mark. */
  function MarkDue(s: seq<SceneEvent>, target: real): (r: seq<SceneEvent>)
    ensures |r| == |s|
    ensures forall i :: 0 <= i < |s| ==>
      r[i].time == s[i].time && r[i].sequenceCount == s[i].sequenceCount &&
      r[i].destObject == s[i].destObject && (r[i].execute <==> s[i].execute || s[i].time <= target)
  {
    seq(|s|, i requires 0 <= i < |s| => s[i].(execute := s[i].execute || s[i].time <= target))
  }

  /** Advancing keeps the invariant with the clock moved to the target, removes and
      reorders nothing, marks exactly the events firing at or before the target (any event
      still unmarked fires strictly later), and advancing twice to one time is a no-op. */
  lemma AdvanceKeepsInvariant(s: seq<SceneEvent>, clock: real, next: nat, target: real)
    requires WellFormed(s, clock) && clock <= target
    ensures WellFormed(MarkDue(s, target), target)
    ensures UniqueIds(s, next) ==> UniqueIds(MarkDue(s, target), next)
    ensures |MarkDue(s, target)| == |s|
    ensures forall i :: 0 <= i < |s| ==>
      MarkDue(s, target)[i].(execute := s[i].execute) == s[i] &&
      (MarkDue(s, target)[i].execute <==> s[i].time <= target) &&
      (!MarkDue(s, target)[i].execute ==> target < MarkDue(s, target)[i].time)
    ensures MarkDue(MarkDue(s, target), target) == MarkDue(s, target)
  {
    var r := MarkDue(s, target);
    SortedPairs(s);
    DueFirstPairs(s);
    if UniqueIds(s, next) {
      UniqueIdsPairs(s, next);
    }
    forall i, j | 0 <= i < j < |r| && r[j].execute
      ensures r[i].execute
    {
      if !s[j].execute {
        assert s[i].time <= s[j].time;
      }
    }
  }

  // ---------------------------------------------------------------------------
  // executeEvents on one queue: the due prefix

  /** Number of due events at the front. */
  function DueCount(s: seq<SceneEvent>): (n: nat)
    ensures n <= |s|
    ensures forall i :: 0 <= i < n ==> s[i].execute
    ensures n < |s| ==> !s[n].execute
  {
    if s == [] || !s[0].execute then 0 else 1 + DueCount(s[1..])
  }

  /** The dispatch count is the only position with every event before it due and no due
      event at it. */
  lemma {:induction false} DueCountIs(s: seq<SceneEvent>, n: nat)
    requires n <= |s|
    requires forall i :: 0 <= i < n ==> s[i].execute
    requires n < |s| ==> !s[n].execute
    ensures n == DueCount(s)
    decreases |s|
  {
    if s != [] && s[0].execute {
      DueCountIs(s[1..], n - 1);
    }
  }

  /** The events one dispatch pass pops from a queue (when nothing aborts it). */
  function Due(s: seq<SceneEvent>): (r: seq<SceneEvent>)
    ensures |r| <= |s| && r == s[..|r|]
    ensures forall e :: e in r ==> e.execute
    ensures |r| < |s| ==> !s[|r|].execute
  {
    s[..DueCount(s)]
  }

  /** The events left in a queue after a dispatch pass (when nothing aborts it). */
  function Pending(s: seq<SceneEvent>): (r: seq<SceneEvent>)
    ensures |r| <= |s| && r == s[|s| - |r|..]
    ensures r == [] || !r[0].execute
    ensures forall i :: 0 <= i < |s| - |r| ==> s[i].execute
  {
    s[DueCount(s)..]
  }

  /** A pass that has popped a run of due events from the front and stopped at an event
      that is not due (or at the end) has popped exactly the due events. */
  lemma DispatchedDue(s: seq<SceneEvent>, popped: seq<SceneEvent>, rest: seq<SceneEvent>)
    requires s == popped + rest
    requires forall e :: e in popped ==> e.execute
    requires rest == [] || !rest[0].execute
    ensures popped == Due(s) && rest == Pending(s)
  {
    assert forall i :: 0 <= i < |popped| ==> s[i] == popped[i];
    DueCountIs(s, |popped|);
    assert s[..|popped|] == popped && s[|popped|..] == rest;
  }

  /** Dispatch splits a well-formed queue into its due events, in list order, and the rest:
      none of the rest is due, each fires at or after the clock, and together they are the
      old list, so every event is either popped or kept, once. */
  lemma {:induction false} DispatchSplitsQueue(s: seq<SceneEvent>, clock: real, next: nat)
    requires WellFormed(s, clock)
    ensures Due(s) + Pending(s) == s
    ensures forall e :: e in Due(s) ==> e.execute && e.time <= clock
    ensures forall e :: e in Pending(s) ==> !e.execute && clock <= e.time
    ensures WellFormed(Pending(s), clock)
    ensures UniqueIds(s, next) ==> UniqueIds(Pending(s), next)
    ensures multiset(s) == multiset(Due(s)) + multiset(Pending(s))
  {
    var n := DueCount(s);
    assert s == s[..n] + s[n..];
    SuffixKeepsInvariant(s, n, clock, next);
    DueAndPending(s, clock);
  }

  /** A suffix of a queue keeps the queue invariant and the ids. */
  lemma SuffixKeepsInvariant(s: seq<SceneEvent>, n: nat, clock: real, next: nat)
    requires n <= |s|
    ensures WellFormed(s, clock) ==> WellFormed(s[n..], clock)
    ensures UniqueIds(s, next) ==> UniqueIds(s[n..], next)
  {
    assert forall i :: 0 <= i < |s| - n ==> s[n..][i] == s[n + i];
    if WellFormed(s, clock) {
      SortedPairs(s);
      DueFirstPairs(s);
    }
    if UniqueIds(s, next) {
      UniqueIdsPairs(s, next);
    }
  }

  /** In a well-formed queue the events a pass pops are due and at or before the clock,
      and the ones it leaves are not due and at or after it. */
  lemma DueAndPending(s: seq<SceneEvent>, clock: real)
    requires WellFormed(s, clock)
    ensures forall e :: e in Due(s) ==> e.execute && e.time <= clock
    ensures forall e :: e in Pending(s) ==> !e.execute && clock <= e.time
  {
    DueAreDue(s, clock);
    PendingAreLater(s, clock);
  }

  /** The events a pass pops from a well-formed queue are due and at or before the clock. */
  lemma DueAreDue(s: seq<SceneEvent>, clock: real)
    requires WellFormed(s, clock)
    ensures forall e :: e in Due(s) ==> e.execute && e.time <= clock
  {
    var n := DueCount(s);
    forall e | e in Due(s) ensures e.execute && e.time <= clock {
      var j :| 0 <= j < n && s[..n][j] == e;
      assert s[j] == e;
    }
  }

  /** The events a pass leaves in a well-formed queue are not due and at or after the clock. */
  lemma PendingAreLater(s: seq<SceneEvent>, clock: real)
    requires WellFormed(s, clock)
    ensures forall e :: e in Pending(s) ==> !e.execute && clock <= e.time
  {
    var n := DueCount(s);
    DueFirstPairs(s);
    forall e | e in Pending(s) ensures !e.execute && clock <= e.time {
      var j :| 0 <= j < |s[n..]| && s[n..][j] == e;
      assert s[n + j] == e;
    }
  }

  // ---------------------------------------------------------------------------
  // cancelPendingEvents on a queue that the object does not own

  /** The list with every event targeting `obj` unlinked. */
  function Without(s: seq<SceneEvent>, obj: ObjId): (r: seq<SceneEvent>)
    ensures |r| <= |s|
  {
    if s == [] then [] else (if s[0].destObject == obj then [] else [s[0]]) + Without(s[1..], obj)
  }

  /** Stripping removes every copy of each event targeting `obj` and keeps every copy of
      each other event. */
  lemma {:induction false} WithoutFilters(s: seq<SceneEvent>, obj: ObjId)
    ensures forall e :: multiset(Without(s, obj))[e] == if e.destObject == obj then 0 else multiset(s)[e]
    ensures forall e :: e in Without(s, obj) <==> e in s && e.destObject != obj
    decreases |s|
  {
    if s != [] {
      WithoutFilters(s[1..], obj);
      assert s == [s[0]] + s[1..];
    }
  }

  /** Stripping never adds an event, nor a second copy of one. */
  lemma WithoutShrinks(s: seq<SceneEvent>, obj: ObjId)
    ensures multiset(Without(s, obj)) <= multiset(s)
  {
    WithoutFilters(s, obj);
  }

  /** Stripping distributes over concatenation (the in-place walk strips one suffix at a time). */
  lemma {:induction false} WithoutAppend(a: seq<SceneEvent>, b: seq<SceneEvent>, obj: ObjId)
    ensures Without(a + b, obj) == Without(a, obj) + Without(b, obj)
  {
    if a == [] {
      assert a + b == b;
    } else {
      assert (a + b)[0] == a[0];
      assert (a + b)[1..] == a[1..] + b;
      WithoutAppend(a[1..], b, obj);
      var h := if a[0].destObject == obj then [] else [a[0]];
      calc {
        Without(a + b, obj);
        h + Without(a[1..] + b, obj);
        h + (Without(a[1..], obj) + Without(b, obj));
        (h + Without(a[1..], obj)) + Without(b, obj);
        Without(a, obj) + Without(b, obj);
      }
    }
  }

  /** Stripping from position `i` decides on the event at `i`, then strips the rest. */
  lemma WithoutAt(s: seq<SceneEvent>, i: nat, obj: ObjId)
    requires i < |s|
    ensures Without(s[i..], obj) == (if s[i].destObject == obj then [] else [s[i]]) + Without(s[i + 1..], obj)
  {
    assert s[i..] == [s[i]] + s[i + 1..];
    assert s[i..][1..] == s[i + 1..];
  }

  /** One step of the in-place strip at position `i` keeps "everything before `i` is
      already stripped": unlinking a matching event shifts the rest down, stepping past
      another event extends the stripped prefix. */
  lemma WithoutStep(whole: seq<SceneEvent>, s: seq<SceneEvent>, i: nat, obj: ObjId)
    requires i < |s| && Without(whole, obj) == s[..i] + Without(s[i..], obj)
    ensures s[i].destObject == obj ==>
      Without(whole, obj) == (s[..i] + s[i + 1..])[..i] + Without((s[..i] + s[i + 1..])[i..], obj)
    ensures s[i].destObject != obj ==> Without(whole, obj) == s[..i + 1] + Without(s[i + 1..], obj)
  {
    WithoutAt(s, i, obj);
    var w := Without(s[i + 1..], obj);
    if s[i].destObject == obj {
      var r := s[..i] + s[i + 1..];
      assert r[..i] == s[..i];
      assert r[i..] == s[i + 1..];
      assert Without(whole, obj) == s[..i] + w;
    } else {
      assert s[..i] + ([s[i]] + w) == (s[..i] + [s[i]]) + w;
      assert s[..i + 1] == s[..i] + [s[i]];
    }
  }

  /** The invariant seen from the front: the tail keeps it, and the head fires no later
      than, is due no later than, and has an id unlike every event behind it. */
  lemma TailKeepsInvariant(s: seq<SceneEvent>, clock: real, next: nat)
    requires s != []
    ensures WellFormed(s, clock) ==> WellFormed(s[1..], clock)
    ensures WellFormed(s, clock) ==> forall e :: e in s[1..] ==> s[0].time <= e.time && (e.execute ==> s[0].execute)
    ensures UniqueIds(s, next) ==> UniqueIds(s[1..], next)
    ensures UniqueIds(s, next) ==> forall e :: e in s[1..] ==> e.sequenceCount != s[0].sequenceCount
  {
    var t := s[1..];
    assert forall i :: 0 <= i < |t| ==> t[i] == s[i + 1];
    if WellFormed(s, clock) {
      SortedPairs(s);
      DueFirstPairs(s);
    }
    if UniqueIds(s, next) {
      UniqueIdsPairs(s, next);
    }
    assert forall e :: e in t ==> exists i :: 0 <= i < |t| && t[i] == e;
  }

  /** The invariant rebuilt from the front: a head that is consistent with the clock and
      with every event behind it, in front of a well-formed tail. */
  lemma ConsKeepsInvariant(x: SceneEvent, w: seq<SceneEvent>, clock: real, next: nat)
    requires WellFormed(w, clock)
    requires x.startTime <= x.time && x.startTime <= clock
    requires if x.execute then x.time <= clock else clock <= x.time
    requires forall e :: e in w ==> x.time <= e.time && (e.execute ==> x.execute)
    ensures WellFormed([x] + w, clock)
    ensures (UniqueIds(w, next) && 1 <= x.sequenceCount < next &&
             forall e :: e in w ==> e.sequenceCount != x.sequenceCount) ==> UniqueIds([x] + w, next)
  {
    ConsKeepsWellFormed(x, w, clock);
    if UniqueIds(w, next) && 1 <= x.sequenceCount < next &&
       forall e :: e in w ==> e.sequenceCount != x.sequenceCount {
      ConsKeepsIds(x, w, next);
    }
  }

  /** Linking an event in front of a well-formed list that fires no earlier and is due
      only if it is keeps the list well formed. */
  lemma ConsKeepsWellFormed(x: SceneEvent, w: seq<SceneEvent>, clock: real)
    requires WellFormed(w, clock)
    requires x.startTime <= x.time && x.startTime <= clock
    requires if x.execute then x.time <= clock else clock <= x.time
    requires forall e :: e in w ==> x.time <= e.time && (e.execute ==> x.execute)
    ensures WellFormed([x] + w, clock)
  {
    var r := [x] + w;
    assert forall i :: 1 <= i < |r| ==> r[i] == w[i - 1] && r[i] in w;
    SortedPairs(w);
    DueFirstPairs(w);
  }

  /** Linking an event with a fresh id below the counter in front of a list keeps the ids. */
  lemma ConsKeepsIds(x: SceneEvent, w: seq<SceneEvent>, next: nat)
    requires UniqueIds(w, next) && 1 <= x.sequenceCount < next
    requires forall e :: e in w ==> e.sequenceCount != x.sequenceCount
    ensures UniqueIds([x] + w, next)
  {
    var r := [x] + w;
    assert forall i :: 1 <= i < |r| ==> r[i] == w[i - 1] && r[i] in w;
    UniqueIdsPairs(w, next);
  }

  /** Stripping an object's events keeps the queue invariant and the ids. */
  lemma {:induction false} WithoutKeepsInvariant(s: seq<SceneEvent>, clock: real, next: nat, obj: ObjId)
    requires WellFormed(s, clock)
    ensures WellFormed(Without(s, obj), clock)
    ensures UniqueIds(s, next) ==> UniqueIds(Without(s, obj), next)
    decreases |s|
  {
    if s != [] {
      var t := s[1..];
      TailKeepsInvariant(s, clock, next);
      WithoutKeepsInvariant(t, clock, next, obj);
      if s[0].destObject != obj {
        var w := Without(t, obj);
        WithoutFilters(t, obj);
        assert Without(s, obj) == [s[0]] + w;
        ConsKeepsInvariant(s[0], w, clock, next);
      } else {
        assert Without(s, obj) == [] + Without(t, obj) == Without(t, obj);
      }
    }
  }
}
