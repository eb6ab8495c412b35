/** The per-scene deferred-event scheduler: a registry of per-scene event queues behind a
    sentinel root, sorted posting with stable ties, lookup and cancellation by id, bulk
    teardown, and the two-phase advance / execute protocol with its global abort flag. */
module SceneEventManager {
  import opened Util
  import opened Events
  import opened Commands

  /** SceneGraphEventQueue: one scene's queue, with its scene clock and id counter. The
      linked event chain is the sequence `eventQueue`; the registry link `nextQueue` is the
      queue's position in EventManager.queues. */
  class SceneGraphEventQueue {
    const pScene: Option<ObjId>
    var eventQueue: seq<SceneEvent>
    var currentSceneTime: real
    var eventSequence: nat
    var executingEvents: bool
    /** The U32 counter has wrapped past 0xFFFFFFFF at some point. */
    ghost var wrapped: bool
    /** Creation order: each queue's number exceeds that of every queue created before it. */
    ghost const serial: nat

    /** The queue invariant, the counter within U32 range, and, until the counter wraps,
        pending ids that are non-zero, distinct and below the counter. */
    ghost predicate Valid()
      reads this`eventQueue, this`currentSceneTime, this`eventSequence, this`wrapped
    {
      WellFormed(eventQueue, currentSceneTime) && eventSequence < U32Modulus &&
      (!wrapped ==> eventSequence >= 1 && UniqueIds(eventQueue, eventSequence))
    }

    /** The sentinel root queue, built while the registry is still empty, so it is not
        appended anywhere. */
    constructor Root()
      ensures Valid() && !wrapped
      ensures pScene == None && eventQueue == [] && currentSceneTime == 0.0
      ensures eventSequence == 1 && !executingEvents
    {
      pScene := None;
      eventQueue := [];
      currentSceneTime := 0.0;
      eventSequence := 1;
      executingEvents := false;
      wrapped := false;
      serial := 0;
    }

    /** A scene's queue: empty, clock 0, counter 1, not executing, appended at the tail
        of the registry. */
    constructor (destScene: ObjId, registry: EventManager)
      requires registry.Valid()
      modifies registry
      ensures registry.Valid()
      ensures registry.queues == old(registry.queues) + [this]
      ensures registry.abortEvents == old(registry.abortEvents)
      ensures pScene == Some(destScene) && eventQueue == [] && currentSceneTime == 0.0
      ensures eventSequence == 1 && !executingEvents && !wrapped
      ensures old(registry.Idle()) ==> registry.Idle()
    {
      pScene := Some(destScene);
      eventQueue := [];
      currentSceneTime := 0.0;
      eventSequence := 1;
      executingEvents := false;
      wrapped := false;
      serial := registry.queues[|registry.queues| - 1].serial + 1;
      OrderedPairs(registry.queues);
      new;
      registry.queues := registry.queues + [this];
    }

    /** The body of postEvent once the queue is found: fire time -1 means "now", the start
        time is the clock, the id is the counter (a U32 post-increment), and the event is
        linked after every event firing at or before it. */
    method Post(destObject: ObjId, command: Command, time: real) returns (id: nat)
      requires Valid()
      requires time == -1.0 || time >= currentSceneTime
      modifies this`eventQueue, this`eventSequence, this`wrapped
      ensures Valid()
      ensures id == old(eventSequence)
      ensures eventSequence == (old(eventSequence) + 1) % U32Modulus
      ensures eventQueue == Insert(old(eventQueue), SceneEvent(command, old(currentSceneTime),
        if time == -1.0 then old(currentSceneTime) else time, id, destObject, false))
      ensures wrapped == (old(wrapped) || old(eventSequence) + 1 == U32Modulus)
      ensures !old(wrapped) ==>
        id != InvalidEventId && forall e :: e in old(eventQueue) ==> e.sequenceCount != id
    {
      var fire := if time == -1.0 then currentSceneTime else time;
      var event := SceneEvent(command, currentSceneTime, fire, eventSequence, destObject, false);
      wrapped := wrapped || eventSequence + 1 == U32Modulus;
      eventSequence := (eventSequence + 1) % U32Modulus;
      var i := 0;
      while i < |eventQueue| && eventQueue[i].time < fire
        invariant 0 <= i <= |eventQueue|
        invariant forall j :: 0 <= j < i ==> eventQueue[j].time < fire
      {
        i := i + 1;
      }
      // Equal fire times: go past them, so events are dispatched in posting order.
      while i < |eventQueue| && eventQueue[i].time == fire
        invariant 0 <= i <= |eventQueue|
        invariant forall j :: 0 <= j < i ==> eventQueue[j].time <= fire
        invariant i < |eventQueue| ==> eventQueue[i].time >= fire
      {
        if i + 1 < |eventQueue| {
          assert FiresNoLater(eventQueue, i, i + 1);
        }
        i := i + 1;
      }
      ghost var s := eventQueue;
      InsertionIndexUnique(s, fire, i);
      eventQueue := eventQueue[..i] + [event] + eventQueue[i..];
      id := event.sequenceCount;
      InsertKeepsInvariant(s, old(currentSceneTime), event);
      if !wrapped {
        InsertKeepsIds(s, old(eventSequence), event);
      }
    }

    /** Lookup by id within the queue: the position of the first event with the id, or
        the length of the list when none has it. */
    method FindEvent(id: nat) returns (k: nat)
      ensures k <= |eventQueue|
      ensures k < |eventQueue| ==> eventQueue[k].sequenceCount == id
      ensures forall j :: 0 <= j < k ==> eventQueue[j].sequenceCount != id
    {
      k := 0;
      while k < |eventQueue| && eventQueue[k].sequenceCount != id
        invariant 0 <= k <= |eventQueue|
        invariant forall j :: 0 <= j < k ==> eventQueue[j].sequenceCount != id
      {
        k := k + 1;
      }
    }

    /** The body of cancelEvent once the queue is found: unlink the first event with the id. */
    method Cancel(id: nat)
      requires Valid()
      modifies this`eventQueue
      ensures Valid()
      ensures eventQueue == RemoveFirst(old(eventQueue), id)
    {
      var i := 0;
      while i < |eventQueue|
        invariant 0 <= i <= |eventQueue| && eventQueue == old(eventQueue)
        invariant forall j :: 0 <= j < i ==> eventQueue[j].sequenceCount != id
      {
        if eventQueue[i].sequenceCount == id {
          assert i == EventIndex(eventQueue, id);
          RemoveAtKeepsInvariant(eventQueue, currentSceneTime, eventSequence, i);
          eventQueue := eventQueue[..i] + eventQueue[i + 1..];
          return;
        }
        i := i + 1;
      }
      assert EventIndex(eventQueue, id) == |eventQueue|;
    }

    /** The walk of cancelPendingEvents over a queue the object does not own: unlink every
        event whose target is the object, keep the others in order. */
    method RemoveEventsFor(obj: ObjId)
      requires Valid()
      modifies this`eventQueue
      ensures Valid()
      ensures eventQueue == Without(old(eventQueue), obj)
    {
      WithoutKeepsInvariant(eventQueue, currentSceneTime, eventSequence, obj);
      eventQueue := StripEvents(eventQueue, obj);
    }

    /** The walk of cancelPendingEvents over the object's own queue: delete every event. */
    method ClearEvents()
      requires Valid()
      modifies this`eventQueue
      ensures Valid()
      ensures eventQueue == []
    {
      while eventQueue != []
        decreases |eventQueue|
      {
        eventQueue := eventQueue[1..];
      }
    }

    /** The body of advanceToTime once the queue is found: from the front, mark due every
        event firing at or before the target (skipping those already due), moving the clock
        up to each; then set the clock to the target. */
    method AdvanceTo(targetTime: real)
      requires Valid() && targetTime >= currentSceneTime
      modifies this`eventQueue, this`currentSceneTime
      ensures Valid()
      ensures eventQueue == MarkDue(old(eventQueue), targetTime)
      ensures currentSceneTime == targetTime
    {
      ghost var s := eventQueue;
      assert WellFormed(s, currentSceneTime);
      SortedPairs(s);
      var i := 0;
      while i < |eventQueue| && eventQueue[i].time <= targetTime
        invariant 0 <= i <= |eventQueue| == |s|
        invariant forall j :: 0 <= j < i ==> eventQueue[j] == s[j].(execute := true)
        invariant forall j :: i <= j < |s| ==> eventQueue[j] == s[j]
        invariant forall j :: 0 <= j < i ==> s[j].time <= targetTime
        invariant old(currentSceneTime) <= currentSceneTime <= targetTime
        invariant forall j :: i <= j < |s| && !s[j].execute ==> currentSceneTime <= s[j].time
      {
        if !eventQueue[i].execute {
          // The fatal "cannot go back in time" check never fires.
          assert eventQueue[i].time >= currentSceneTime;
          currentSceneTime := eventQueue[i].time;
          eventQueue := eventQueue[i := eventQueue[i].(execute := true)];
        }
        i := i + 1;
      }
      currentSceneTime := targetTime;
      assert forall j :: i <= j < |s| ==> s[j].time > targetTime;
      assert eventQueue == MarkDue(s, targetTime);
      AdvanceKeepsInvariant(s, old(currentSceneTime), eventSequence, targetTime);
    }

    /** The flag executeEvents raises while it dispatches this queue. */
    method SetExecuting(b: bool)
      modifies this`executingEvents
      ensures executingEvents == b
    {
      executingEvents := b;
    }

    /** The pop at the front in executeEvents: unlink the head event and hand it back. */
    method PopFront() returns (e: SceneEvent)
      requires Valid() && eventQueue != []
      modifies this`eventQueue
      ensures Valid()
      ensures e == old(eventQueue[0]) && eventQueue == old(eventQueue[1..])
      ensures e.execute ==> e.time <= currentSceneTime
    {
      e := eventQueue[0];
      TailKeepsInvariant(eventQueue, currentSceneTime, eventSequence);
      assert WellFormed(eventQueue, currentSceneTime);
      eventQueue := eventQueue[1..];
    }
  }

  /** The unlinking walk itself: step along the list, unlinking each event whose target is
      `obj` and stepping past the others. */
  method StripEvents(events: seq<SceneEvent>, obj: ObjId) returns (list: seq<SceneEvent>)
    ensures list == Without(events, obj)
  {
    list := events;
    var i := 0;
    while i < |list|
      invariant 0 <= i <= |list|
      invariant Without(events, obj) == list[..i] + Without(list[i..], obj)
      decreases |list| - i
    {
      WithoutStep(events, list, i, obj);
      if list[i].destObject == obj {
        list := list[..i] + list[i + 1..];
      } else {
        i := i + 1;
      }
    }
    assert list[..i] == list && list[i..] == [];
  }

  /** Position of the first queue serving `scene` (the lookup every entry point starts
      with), or |qs| when there is none. */
  function FirstOwned(qs: seq<SceneGraphEventQueue>, scene: Option<ObjId>): (k: nat)
    ensures k <= |qs|
    ensures k < |qs| ==> qs[k].pScene == scene
    ensures forall j :: 0 <= j < k ==> qs[j].pScene != scene
  {
    if qs == [] then 0
    else if qs[0].pScene == scene then 0
    else 1 + FirstOwned(qs[1..], scene)
  }

  /** The lookup result is the only position with no match before it and a match at it. */
  lemma {:induction false} FirstOwnedIs(qs: seq<SceneGraphEventQueue>, scene: Option<ObjId>, k: nat)
    requires k <= |qs|
    requires forall j :: 0 <= j < k ==> qs[j].pScene != scene
    requires k < |qs| ==> qs[k].pScene == scene
    ensures FirstOwned(qs, scene) == k
    decreases |qs|
  {
    if qs != [] && qs[0].pScene != scene {
      FirstOwnedIs(qs[1..], scene, k - 1);
    }
  }

  /** The event lists of the given queues, in registry order. */
  ghost function Lists(qs: seq<SceneGraphEventQueue>): (r: seq<seq<SceneEvent>>)
    reads qs`eventQueue
    ensures |r| == |qs| && forall i :: 0 <= i < |qs| ==> r[i] == qs[i].eventQueue
  {
    if qs == [] then [] else Lists(qs[..|qs| - 1]) + [qs[|qs| - 1].eventQueue]
  }

  /** The event list of the queue at registry position `j` after cancelPendingEvents(obj),
      when the first queue obj owns is at `k` (the registry length when it owns none):
      obj's events are gone from the queues between the root and `k`, the queue at `k` is
      emptied, and the root and the queues after `k` keep their events. */
  function Cancelled(events: seq<SceneEvent>, j: nat, k: nat, obj: ObjId): (r: seq<SceneEvent>)
    ensures multiset(r) <= multiset(events)
  {
    if 1 <= j < k then WithoutShrinks(events, obj); Without(events, obj)
    else if j == k then [] else events
  }

  /** The events a dispatch pass pops from the lists at positions 1 to k - 1 (the lists
      after the root's and before position k), list by list. */
  function DueAfterRoot(ls: seq<seq<SceneEvent>>, k: nat): (r: seq<SceneEvent>)
    requires k <= |ls|
    ensures forall e :: e in r ==> e.execute
    ensures k <= 1 ==> r == []
  {
    if k <= 1 then [] else DueAfterRoot(ls, k - 1) + Due(ls[k - 1])
  }

  /** Every event held by the lists at positions 1 to k - 1, each counted as often as it
      is held. */
  function BagAfterRoot(ls: seq<seq<SceneEvent>>, k: nat): multiset<SceneEvent>
    requires k <= |ls|
  {
    if k <= 1 then multiset{} else BagAfterRoot(ls, k - 1) + multiset(ls[k - 1])
  }

  /** More lists hold every event at least as often. */
  lemma {:induction false} BagGrows(ls: seq<seq<SceneEvent>>, a: nat, b: nat)
    requires a <= b <= |ls|
    ensures BagAfterRoot(ls, a) <= BagAfterRoot(ls, b)
    decreases b - a
  {
    if a < b {
      BagGrows(ls, a, b - 1);
    }
  }

  /** Every event a dispatch pass pops from the lists at positions 1 to k - 1 is due, and
      is held by those lists at least as often as it is popped. */
  lemma {:induction false} DueAfterRootHeld(ls: seq<seq<SceneEvent>>, k: nat)
    requires k <= |ls|
    ensures forall e :: e in DueAfterRoot(ls, k) ==> e.execute
    ensures multiset(DueAfterRoot(ls, k)) <= BagAfterRoot(ls, k)
    decreases k
  {
    if k > 1 {
      DueAfterRootHeld(ls, k - 1);
      var d := Due(ls[k - 1]);
      assert ls[k - 1] == d + ls[k - 1][|d|..];
    }
  }

  /** The account the outer walk of executeEvents keeps: the events popped so far were all
      held, and held at least as often, by the queues at positions 1 to m - 1 of the
      registry when the walk started, whose lists were then `lists0`. */
  ghost predicate Held(lists0: seq<seq<SceneEvent>>, m: nat, popped: seq<SceneEvent>)
  {
    1 <= m <= |lists0| && multiset(popped) <= BagAfterRoot(lists0, m)
  }

  /** No queue of `q0` holds an event more often than its list `lists0` did. */
  ghost predicate NoneGrew(q0: seq<SceneGraphEventQueue>, lists0: seq<seq<SceneEvent>>)
    reads q0`eventQueue
  {
    NoneGrewFrom(q0, lists0, 0)
  }

  /** No queue of `q0` from position `j` on holds an event more often than its list in
      `lists0` did; stated queue by queue so that the fact is drawn out only where a proof
      asks for one position (NoneGrewAt). */
  ghost predicate NoneGrewFrom(q0: seq<SceneGraphEventQueue>, lists0: seq<seq<SceneEvent>>, j: nat)
    reads q0`eventQueue
    decreases |q0| - j
  {
    |lists0| == |q0| &&
    (j < |q0| ==> multiset(q0[j].eventQueue) <= multiset(lists0[j]) && NoneGrewFrom(q0, lists0, j + 1))
  }

  /** The queue at position `k` holds no event more often than its list in `lists0`. */
  lemma {:induction false} NoneGrewAt(q0: seq<SceneGraphEventQueue>, lists0: seq<seq<SceneEvent>>, j: nat, k: nat)
    requires NoneGrewFrom(q0, lists0, j) && j <= k < |q0|
    ensures multiset(q0[k].eventQueue) <= multiset(lists0[k])
    decreases k - j
  {
    if j < k {
      NoneGrewAt(q0, lists0, j + 1, k);
    }
  }

  /** Queues each of which holds no event more often than its list in `lists0` have not
      grown. */
  lemma {:induction false} NoneGrewOf(q0: seq<SceneGraphEventQueue>, lists0: seq<seq<SceneEvent>>, j: nat)
    requires |lists0| == |q0|
    requires forall k :: j <= k < |q0| ==> multiset(q0[k].eventQueue) <= multiset(lists0[k])
    ensures NoneGrewFrom(q0, lists0, j)
    decreases |q0| - j
  {
    if j < |q0| {
      NoneGrewOf(q0, lists0, j + 1);
    }
  }

  /** Queues that have not grown hold no event more often than their lists, one by one. */
  lemma {:induction false} NoneGrewAll(q0: seq<SceneGraphEventQueue>, lists0: seq<seq<SceneEvent>>, j: nat)
    requires NoneGrewFrom(q0, lists0, j)
    ensures forall k :: j <= k < |q0| ==> multiset(q0[k].eventQueue) <= multiset(lists0[k])
    decreases |q0| - j
  {
    if j < |q0| {
      NoneGrewAll(q0, lists0, j + 1);
    }
  }

  /** Lists that each hold no event more often than before, one of which has also lost the
      events `p`, hold every event, together with `p`, no more often than before. */
  lemma {:induction false} BagKept(now: seq<seq<SceneEvent>>, before: seq<seq<SceneEvent>>, m: nat,
                                   p: seq<SceneEvent>, k: nat)
    requires |now| == |before| && k <= |now| && 1 <= m < |now|
    requires forall j :: 0 <= j < |now| ==> multiset(now[j]) <= multiset(before[j])
    requires multiset(p) + multiset(now[m]) <= multiset(before[m])
    ensures (if m < k then multiset(p) else multiset{}) + BagAfterRoot(now, k) <= BagAfterRoot(before, k)
    decreases k
  {
    if k > 1 {
      BagKept(now, before, m, p, k - 1);
    }
  }

  /** After a turn of the outer walk that popped `p` from the queue at position `m` of `q0`,
      whose lists were `before` when the turn began and `lists0` when the walk began: no
      queue has grown since the walk began, and the events popped, together with what the
      queues hold now, are no more than they held when the turn began. */
  lemma Conserving(q0: seq<SceneGraphEventQueue>, lists0: seq<seq<SceneEvent>>,
                   before: seq<seq<SceneEvent>>, m: nat, p: seq<SceneEvent>)
    requires NoneGrew(q0, before) && |lists0| == |q0| && 1 <= m < |q0|
    requires forall j :: 0 <= j < |q0| ==> multiset(before[j]) <= multiset(lists0[j])
    requires multiset(p) + multiset(q0[m].eventQueue) <= multiset(before[m])
    ensures NoneGrew(q0, lists0)
    ensures multiset(p) + BagAfterRoot(Lists(q0), |q0|) <= BagAfterRoot(before, |q0|)
  {
    NoneGrewAll(q0, before, 0);
    NoneGrewOf(q0, lists0, 0);
    BagKept(Lists(q0), before, m, p, |q0|);
  }

  /** What the outer walk knows of the events `popped` so far: the k-th was popped from the
      queue `from[k]` at position `at[k]` after the root of the registry `q0` the walk
      started from, whose list `lists0[at[k]]` then held it. */
  ghost predicate Sourced(q0: seq<SceneGraphEventQueue>, lists0: seq<seq<SceneEvent>>, popped: seq<SceneEvent>,
                          from: seq<SceneGraphEventQueue>, at: seq<nat>)
  {
    |from| == |popped| && |at| == |popped| && |lists0| == |q0| &&
    forall k :: 0 <= k < |popped| ==> 1 <= at[k] < |q0| && from[k] == q0[at[k]] && popped[k] in lists0[at[k]]
  }

  /** A turn that popped `p` from the queue at position `m`, every event of which its list
      held when the walk started, extends what the walk knows. */
  lemma SourcedAppend(q0: seq<SceneGraphEventQueue>, lists0: seq<seq<SceneEvent>>, popped: seq<SceneEvent>,
                      from: seq<SceneGraphEventQueue>, at: seq<nat>, p: seq<SceneEvent>, m: nat)
    requires Sourced(q0, lists0, popped, from, at) && 1 <= m < |q0|
    requires forall x :: x in p ==> x in lists0[m]
    ensures Sourced(q0, lists0, popped + p, from + Repeat(q0[m], |p|), at + Repeat(m, |p|))
  {
  }

  /** The events popped, together with what the queues of `q0` hold now, are no more than
      those queues held when the walk started, with lists `lists0`. */
  ghost predicate Conserved(q0: seq<SceneGraphEventQueue>, lists0: seq<seq<SceneEvent>>, popped: seq<SceneEvent>)
    reads q0`eventQueue
  {
    |lists0| == |q0| && multiset(popped) + BagAfterRoot(Lists(q0), |q0|) <= BagAfterRoot(lists0, |q0|)
  }

  /** A turn whose pops `p`, with the lists `now` after it, are no more than the lists
      `before` it keeps the walk's balance. */
  lemma ConservedJoin(popped: seq<SceneEvent>, p: seq<SceneEvent>, lists0: seq<seq<SceneEvent>>,
                      before: seq<seq<SceneEvent>>, now: seq<seq<SceneEvent>>)
    requires |lists0| == |before| == |now|
    requires multiset(popped) + BagAfterRoot(before, |before|) <= BagAfterRoot(lists0, |lists0|)
    requires multiset(p) + BagAfterRoot(now, |now|) <= BagAfterRoot(before, |before|)
    ensures multiset(popped + p) + BagAfterRoot(now, |now|) <= BagAfterRoot(lists0, |lists0|)
  {
  }

  /** Queues that have only lost events since a state in which none had grown have still
      not grown. */
  twostate lemma {:induction false} StillNoneGrew(q0: seq<SceneGraphEventQueue>, new lists0: seq<seq<SceneEvent>>,
                                                  new j: nat)
    requires old(NoneGrewFrom(q0, lists0, j))
    requires forall k :: j <= k < |q0| ==> multiset(q0[k].eventQueue) <= multiset(old(q0[k].eventQueue))
    ensures NoneGrewFrom(q0, lists0, j)
    decreases |q0| - j
  {
    if j < |q0| {
      StillNoneGrew(q0, lists0, j + 1);
    }
  }

  /** A turn of the outer walk that pops `p` from the queue at position `m`, whose list
      `before` at the start of the turn held no more than it did when the walk started,
      keeps the account. */
  lemma RanHeld(lists0: seq<seq<SceneEvent>>, m: nat, popped: seq<SceneEvent>, p: seq<SceneEvent>,
                before: seq<SceneEvent>)
    requires Held(lists0, m, popped) && m < |lists0|
    requires multiset(p) <= multiset(before) <= multiset(lists0[m])
    ensures Held(lists0, m + 1, popped + p)
  {
  }

  /** Moving the walk's position on over queues it will not run keeps the account. */
  lemma HeldSkip(lists0: seq<seq<SceneEvent>>, m: nat, m': nat, popped: seq<SceneEvent>)
    requires Held(lists0, m, popped) && m <= m' <= |lists0|
    ensures Held(lists0, m', popped)
  {
    BagGrows(lists0, m, m');
  }

  /** `raised` is the abort flag recorded after each of `n` pops: clear after every pop but
      the last, and `abort` after the last. */
  predicate Raised(raised: seq<bool>, n: nat, abort: bool)
  {
    |raised| == n && (forall i :: 0 <= i < n - 1 ==> !raised[i]) && (n > 0 ==> raised[n - 1] == abort)
  }

  /** One more pop after a stretch that left the flag clear. */
  lemma RaisedSnoc(raised: seq<bool>, n: nat, abort: bool)
    requires Raised(raised, n, false)
    ensures Raised(raised + [abort], n + 1, abort)
  {
  }

  /** Two stretches of pops, the second of which pops nothing when the flag was already up
      after the first and leaves the flag alone when it pops nothing, record the flag as
      one stretch does. */
  lemma RaisedAppend(r1: seq<bool>, n1: nat, a0: bool, r2: seq<bool>, n2: nat, a1: bool)
    requires Raised(r1, n1, a0) && Raised(r2, n2, a1)
    requires a0 ==> n2 == 0
    requires n2 == 0 ==> a1 == a0
    ensures Raised(r1 + r2, n1 + n2, a1)
  {
    if n2 == 0 {
      assert r1 + r2 == r1;
    }
  }

  /** The console calls made for the popped events whose target is still alive, in order. */
  function Invocations(popped: seq<SceneEvent>, isDeleted: ObjId -> bool): (r: seq<Invocation>)
    ensures |r| <= |popped|
    ensures (forall e :: e in popped ==> !isDeleted(e.destObject)) ==> |r| == |popped|
  {
    if popped == [] then []
    else
      var e := popped[|popped| - 1];
      Invocations(popped[..|popped| - 1], isDeleted) + (if isDeleted(e.destObject) then [] else [Process(e)])
  }

  /** Every console call logged is the call of a popped event whose target is alive. */
  lemma {:induction false} InvocationsAreLive(popped: seq<SceneEvent>, isDeleted: ObjId -> bool)
    ensures forall c :: c in Invocations(popped, isDeleted) ==>
      exists e :: e in popped && !isDeleted(e.destObject) && c == Process(e)
    decreases |popped|
  {
    if popped != [] {
      var e := popped[|popped| - 1];
      InvocationsAreLive(popped[..|popped| - 1], isDeleted);
      assert popped == popped[..|popped| - 1] + [e];
    }
  }

  /** Logging the calls of two stretches of a pass is logging the calls of the whole pass. */
  lemma {:induction false} InvocationsAppend(a: seq<SceneEvent>, b: seq<SceneEvent>, isDeleted: ObjId -> bool)
    ensures Invocations(a + b, isDeleted) == Invocations(a, isDeleted) + Invocations(b, isDeleted)
    decreases |b|
  {
    if b == [] {
      assert a + b == a;
    } else {
      var b' := b[..|b| - 1];
      assert (a + b)[..|a + b| - 1] == a + b';
      InvocationsAppend(a, b', isDeleted);
    }
  }

  /** Logging one more popped event appends its console call when its target is alive. */
  lemma InvocationsSnoc(popped: seq<SceneEvent>, e: SceneEvent, isDeleted: ObjId -> bool)
    ensures Invocations(popped + [e], isDeleted) ==
      Invocations(popped, isDeleted) + if isDeleted(e.destObject) then [] else [Process(e)]
  {
    assert (popped + [e])[..|popped|] == popped;
  }

  /** The payload of `e` ran (its target was alive) and tore down a scene. */
  predicate TornDown(e: SceneEvent, isDeleted: ObjId -> bool, teardown: SceneEvent -> Option<ObjId>) {
    !isDeleted(e.destObject) && teardown(e).Some?
  }

  /** No payload tears down any scene. */
  ghost predicate NoTeardowns(teardown: SceneEvent -> Option<ObjId>) {
    forall e :: teardown(e) == None
  }

  /** The registry after cancelPendingEvents(obj): the first queue obj owns, if any, is
      unlinked. */
  function Unlinked(qs: seq<SceneGraphEventQueue>, obj: ObjId): (r: seq<SceneGraphEventQueue>)
    ensures |r| == if FirstOwned(qs, Some(obj)) < |qs| then |qs| - 1 else |qs|
    ensures forall q :: q in r ==> q in qs
  {
    var k := FirstOwned(qs, Some(obj));
    if k < |qs| then qs[..k] + qs[k + 1..] else qs
  }

  /** The registry after the events `popped` have been run from the registry `qs`: each one
      whose target is alive and whose payload tears down an object unlinks that object's
      first queue. */
  function RegistryAfter(qs: seq<SceneGraphEventQueue>, popped: seq<SceneEvent>,
                         isDeleted: ObjId -> bool, teardown: SceneEvent -> Option<ObjId>)
    : (r: seq<SceneGraphEventQueue>)
    ensures |r| <= |qs| && forall q :: q in r ==> q in qs
    decreases |popped|
  {
    if popped == [] then qs
    else
      var r := RegistryAfter(qs, popped[..|popped| - 1], isDeleted, teardown);
      var e := popped[|popped| - 1];
      if TornDown(e, isDeleted, teardown) then Unlinked(r, teardown(e).value) else r
  }

  /** For each event of `popped`, run in turn from the registry `qs`, whether running it
      unlinked the queue `from` says it was popped from: the destructor of a queue that is
      being dispatched is what raises the abort flag. */
  function Unlinks(qs: seq<SceneGraphEventQueue>, popped: seq<SceneEvent>, from: seq<SceneGraphEventQueue>,
                   isDeleted: ObjId -> bool, teardown: SceneEvent -> Option<ObjId>): (r: seq<bool>)
    requires |from| == |popped|
    ensures |r| == |popped|
    decreases |popped|
  {
    if popped == [] then []
    else
      Unlinks(qs, popped[..|popped| - 1], from[..|popped| - 1], isDeleted, teardown) +
        [from[|popped| - 1] !in RegistryAfter(qs, popped, isDeleted, teardown)]
  }

  /** Entry k of the trace says whether the queue the k-th event was popped from is gone
      from the registry once that event has run. */
  lemma {:induction false} UnlinksAt(qs: seq<SceneGraphEventQueue>, popped: seq<SceneEvent>,
                                     from: seq<SceneGraphEventQueue>, isDeleted: ObjId -> bool,
                                     teardown: SceneEvent -> Option<ObjId>, k: nat)
    requires |from| == |popped| && k < |popped|
    ensures Unlinks(qs, popped, from, isDeleted, teardown)[k] ==
      (from[k] !in RegistryAfter(qs, popped[..k + 1], isDeleted, teardown))
    decreases |popped|
  {
    var n := |popped|;
    if k < n - 1 {
      UnlinksAt(qs, popped[..n - 1], from[..n - 1], isDeleted, teardown, k);
      assert popped[..n - 1][..k + 1] == popped[..k + 1];
    } else {
      assert popped[..k + 1] == popped;
    }
  }

  /** Only the last pop can unlink the queue it came from: every earlier pop left its queue
      linked, and the last one unlinked it exactly when the recorded flag is up. */
  lemma OnlyLastUnlinks(qs: seq<SceneGraphEventQueue>, popped: seq<SceneEvent>, from: seq<SceneGraphEventQueue>,
                        abort: bool, isDeleted: ObjId -> bool, teardown: SceneEvent -> Option<ObjId>)
    requires |from| == |popped| && Raised(Unlinks(qs, popped, from, isDeleted, teardown), |popped|, abort)
    ensures forall k :: 0 <= k < |popped| - 1 ==>
      from[k] in RegistryAfter(qs, popped[..k + 1], isDeleted, teardown)
    ensures popped != [] ==>
      (abort <==> from[|popped| - 1] !in RegistryAfter(qs, popped, isDeleted, teardown))
  {
    forall k | 0 <= k < |popped| - 1
      ensures from[k] in RegistryAfter(qs, popped[..k + 1], isDeleted, teardown)
    {
      UnlinksAt(qs, popped, from, isDeleted, teardown, k);
    }
    if popped != [] {
      UnlinksAt(qs, popped, from, isDeleted, teardown, |popped| - 1);
      assert popped[..|popped|] == popped;
    }
  }

  /** Running one more event. */
  lemma RegistryAfterSnoc(qs: seq<SceneGraphEventQueue>, popped: seq<SceneEvent>, e: SceneEvent,
                          isDeleted: ObjId -> bool, teardown: SceneEvent -> Option<ObjId>)
    ensures RegistryAfter(qs, popped + [e], isDeleted, teardown) ==
      var r := RegistryAfter(qs, popped, isDeleted, teardown);
      if TornDown(e, isDeleted, teardown) then Unlinked(r, teardown(e).value) else r
  {
    assert (popped + [e])[..|popped|] == popped;
  }

  /** Running two stretches of events one after the other is running them together. */
  lemma {:induction false} RegistryAfterAppend(qs: seq<SceneGraphEventQueue>, a: seq<SceneEvent>,
                                               b: seq<SceneEvent>, isDeleted: ObjId -> bool,
                                               teardown: SceneEvent -> Option<ObjId>)
    ensures RegistryAfter(qs, a + b, isDeleted, teardown) ==
      RegistryAfter(RegistryAfter(qs, a, isDeleted, teardown), b, isDeleted, teardown)
    decreases |b|
  {
    if b == [] {
      assert a + b == a;
    } else {
      var b' := b[..|b| - 1];
      assert (a + b)[..|a + b| - 1] == a + b';
      RegistryAfterAppend(qs, a, b', isDeleted, teardown);
    }
  }

  /** The trace of two stretches of events is the trace of the first followed by that of
      the second, run from the registry the first left. */
  lemma {:induction false} UnlinksAppend(qs: seq<SceneGraphEventQueue>, a: seq<SceneEvent>,
                                         fa: seq<SceneGraphEventQueue>, b: seq<SceneEvent>,
                                         fb: seq<SceneGraphEventQueue>, isDeleted: ObjId -> bool,
                                         teardown: SceneEvent -> Option<ObjId>)
    requires |fa| == |a| && |fb| == |b|
    ensures Unlinks(qs, a + b, fa + fb, isDeleted, teardown) ==
      Unlinks(qs, a, fa, isDeleted, teardown) +
      Unlinks(RegistryAfter(qs, a, isDeleted, teardown), b, fb, isDeleted, teardown)
    decreases |b|
  {
    if b == [] {
      assert a + b == a && fa + fb == fa;
    } else {
      var n := |b|;
      assert (a + b)[..|a + b| - 1] == a + b[..n - 1];
      assert (fa + fb)[..|a + b| - 1] == fa + fb[..n - 1];
      UnlinksAppend(qs, a, fa, b[..n - 1], fb[..n - 1], isDeleted, teardown);
      RegistryAfterAppend(qs, a, b, isDeleted, teardown);
    }
  }

  /** One pop of the inner loop over `cur`, with the flag clear before it: the registry and
      the trace of a dispatch pass grow by that pop when the new registry `now` is what the
      payload's teardown left and the flag `abort` is up exactly when `cur` is gone. */
  lemma Traced(qs: seq<SceneGraphEventQueue>, popped: seq<SceneEvent>, e: SceneEvent,
               cur: SceneGraphEventQueue, now: seq<SceneGraphEventQueue>, abort: bool,
               isDeleted: ObjId -> bool, teardown: SceneEvent -> Option<ObjId>)
    requires Raised(Unlinks(qs, popped, Repeat(cur, |popped|), isDeleted, teardown), |popped|, false)
    requires now == var r := RegistryAfter(qs, popped, isDeleted, teardown);
      if TornDown(e, isDeleted, teardown) then Unlinked(r, teardown(e).value) else r
    requires abort == (cur !in now)
    ensures now == RegistryAfter(qs, popped + [e], isDeleted, teardown)
    ensures Raised(Unlinks(qs, popped + [e], Repeat(cur, |popped| + 1), isDeleted, teardown),
                   |popped| + 1, abort)
  {
    var n := |popped|;
    RegistryAfterSnoc(qs, popped, e, isDeleted, teardown);
    assert (popped + [e])[..n] == popped;
    assert Repeat(cur, n + 1)[..n] == Repeat(cur, n);
    RaisedSnoc(Unlinks(qs, popped, Repeat(cur, n), isDeleted, teardown), n, abort);
  }

  /** One turn of the outer walk joins the registry and the trace of the turns before it
      (run from `qs`, popping `done` from the queues `from`) with those of the turn, which
      ran from the registry `mid` they left and popped `p` from `cur`. */
  lemma TraceJoined(qs: seq<SceneGraphEventQueue>, done: seq<SceneEvent>, from: seq<SceneGraphEventQueue>,
                    a0: bool, mid: seq<SceneGraphEventQueue>, p: seq<SceneEvent>,
                    cur: SceneGraphEventQueue, now: seq<SceneGraphEventQueue>, a1: bool,
                    isDeleted: ObjId -> bool, teardown: SceneEvent -> Option<ObjId>)
    requires |from| == |done| && mid == RegistryAfter(qs, done, isDeleted, teardown)
    requires Raised(Unlinks(qs, done, from, isDeleted, teardown), |done|, a0)
    requires now == RegistryAfter(mid, p, isDeleted, teardown)
    requires Raised(Unlinks(mid, p, Repeat(cur, |p|), isDeleted, teardown), |p|, a1)
    requires a0 ==> p == []
    requires p == [] ==> a1 == a0
    ensures now == RegistryAfter(qs, done + p, isDeleted, teardown)
    ensures Raised(Unlinks(qs, done + p, from + Repeat(cur, |p|), isDeleted, teardown), |done + p|, a1)
  {
    RegistryAfterAppend(qs, done, p, isDeleted, teardown);
    UnlinksAppend(qs, done, from, p, Repeat(cur, |p|), isDeleted, teardown);
    RaisedAppend(Unlinks(qs, done, from, isDeleted, teardown), |done|, a0,
                 Unlinks(mid, p, Repeat(cur, |p|), isDeleted, teardown), |p|, a1);
  }

  /** The queues are listed in creation order (a queue is appended when it is created). */
  ghost predicate Ordered(qs: seq<SceneGraphEventQueue>) {
    forall i, j :: 0 <= i < j < |qs| ==> Older(qs, i, j)
  }

  /** The queue at position `i` was created before the one at position `j`; stated on the
      pair of positions so that the fact is drawn only where a proof names the pair. */
  ghost predicate Older(qs: seq<SceneGraphEventQueue>, i: int, j: int) {
    0 <= i < |qs| && 0 <= j < |qs| && qs[i].serial < qs[j].serial
  }

  /** Queues listed in creation order are all different. */
  lemma OrderedDistinct(qs: seq<SceneGraphEventQueue>)
    requires Ordered(qs)
    ensures Distinct(qs)
  {
    OrderedPairs(qs);
  }

  /** Ordered, pair by pair. */
  lemma OrderedPairs(qs: seq<SceneGraphEventQueue>)
    requires Ordered(qs)
    ensures forall i, j :: 0 <= i < j < |qs| ==> qs[i].serial < qs[j].serial
  {
    forall i, j | 0 <= i < j < |qs| ensures qs[i].serial < qs[j].serial {
      assert Older(qs, i, j);
    }
  }

  /** The globals of the event manager: the registry rooted at gGraphQueueRoot and the flag
      gAbortEvents. */
  class EventManager {
    const root: SceneGraphEventQueue
    var queues: seq<SceneGraphEventQueue>
    var abortEvents: bool

    /** The registry starts at the sentinel root (owner NULL), every other queue has a
        scene, no queue is linked twice, and every queue keeps the queue invariant. */
    ghost predicate Valid()
      reads this`queues, queues`eventQueue, queues`currentSceneTime, queues`eventSequence, queues`wrapped
    {
      |queues| >= 1 && queues[0] == root && root.pScene == None &&
      (forall i :: 1 <= i < |queues| ==> queues[i].pScene.Some?) &&
      Ordered(queues) &&
      (forall i :: 0 <= i < |queues| ==> queues[i].Valid())
    }

    /** No registered queue is being dispatched. */
    ghost predicate Idle()
      reads this`queues, queues`executingEvents
    {
      forall i :: 0 <= i < |queues| ==> !queues[i].executingEvents
    }

    /** Static initialisation of the globals: a registry holding only the root, abort clear. */
    constructor ()
      ensures Valid() && Idle()
      ensures queues == [root] && !abortEvents
      ensures root.eventQueue == []
    {
      root := new SceneGraphEventQueue.Root();
      queues := [root];
      abortEvents := false;
    }

    /** The scene lookup: the first registered queue whose owner is `destScene` (NULL finds
        the root), or null. */
    method FindQueue(destScene: Option<ObjId>) returns (q: SceneGraphEventQueue?)
      ensures FirstOwned(queues, destScene) < |queues| ==> q == queues[FirstOwned(queues, destScene)]
      ensures FirstOwned(queues, destScene) == |queues| ==> q == null
    {
      var i := 0;
      while i < |queues| && queues[i].pScene != destScene
        invariant 0 <= i <= |queues|
        invariant forall j :: 0 <= j < i ==> queues[j].pScene != destScene
      {
        i := i + 1;
      }
      q := if i < |queues| then queues[i] else null;
    }

    /** postEvent: with no queue for the scene, returns InvalidEventId and changes nothing;
        otherwise posts into that queue only and returns the queue's counter. */
    method PostEvent(destScene: Option<ObjId>, destObject: ObjId, command: Command, time: real)
      returns (id: nat)
      requires Valid()
      requires FirstOwned(queues, destScene) < |queues| ==>
        time == -1.0 || time >= queues[FirstOwned(queues, destScene)].currentSceneTime
      modifies queues`eventQueue, queues`eventSequence, queues`wrapped
      ensures Valid()
      ensures FirstOwned(queues, destScene) == |queues| ==>
        id == InvalidEventId && forall q :: q in queues ==> unchanged(q)
      ensures FirstOwned(queues, destScene) < |queues| ==>
        var q := queues[FirstOwned(queues, destScene)];
        id == old(q.eventSequence) &&
        q.eventSequence == (old(q.eventSequence) + 1) % U32Modulus &&
        q.eventQueue == Insert(old(q.eventQueue), SceneEvent(command, old(q.currentSceneTime),
          if time == -1.0 then old(q.currentSceneTime) else time, id, destObject, false)) &&
        forall r :: r in queues && r != q ==> unchanged(r)
      ensures Idle() == old(Idle())
    {
      var q := FindQueue(destScene);
      if q == null {
        return InvalidEventId;
      }
      id := q.Post(destObject, command, time);
    }

    /** cancelEvent: in the scene's queue, unlink the first event with the id; an unknown
        scene or id changes nothing. */
    method CancelEvent(destScene: Option<ObjId>, eventSequence: nat)
      requires Valid()
      modifies queues`eventQueue
      ensures Valid()
      ensures FirstOwned(queues, destScene) == |queues| ==> forall q :: q in queues ==> unchanged(q)
      ensures FirstOwned(queues, destScene) < |queues| ==>
        var q := queues[FirstOwned(queues, destScene)];
        q.eventQueue == RemoveFirst(old(q.eventQueue), eventSequence) &&
        forall r :: r in queues && r != q ==> unchanged(r)
      ensures Idle() == old(Idle())
    {
      var q := FindQueue(destScene);
      if q == null {
        return;
      }
      q.Cancel(eventSequence);
    }

    /** isEventPending: true exactly when the scene has a queue holding an event with the id. */
    method IsEventPending(destScene: Option<ObjId>, eventSequence: nat) returns (r: bool)
      requires Valid()
      ensures r <==> FirstOwned(queues, destScene) < |queues| &&
                     exists e :: e in queues[FirstOwned(queues, destScene)].eventQueue &&
                                 e.sequenceCount == eventSequence
    {
      var q := FindQueue(destScene);
      if q == null {
        return false;
      }
      var k := q.FindEvent(eventSequence);
      EventIndexFindsAny(q.eventQueue, eventSequence);
      assert k == EventIndex(q.eventQueue, eventSequence);
      r := k < |q.eventQueue|;
    }

    /** getEventTimeLeft: fire time minus the scene clock for the first event with the id;
        0 when the scene or the id is unknown. */
    method GetEventTimeLeft(destScene: Option<ObjId>, eventSequence: nat) returns (t: real)
      requires Valid()
      ensures var k := FirstOwned(queues, destScene);
        t == if k < |queues| && EventIndex(queues[k].eventQueue, eventSequence) < |queues[k].eventQueue|
             then queues[k].eventQueue[EventIndex(queues[k].eventQueue, eventSequence)].time - queues[k].currentSceneTime
             else 0.0
    {
      var q := FindQueue(destScene);
      if q == null {
        return 0.0;
      }
      var k := q.FindEvent(eventSequence);
      assert k == EventIndex(q.eventQueue, eventSequence);
      t := if k < |q.eventQueue| then q.eventQueue[k].time - q.currentSceneTime else 0.0;
    }

    /** getScheduleDuration: fire time minus start time for the first event with the id;
        0 when the scene or the id is unknown. */
    method GetScheduleDuration(destScene: Option<ObjId>, eventSequence: nat) returns (t: real)
      requires Valid()
      ensures var k := FirstOwned(queues, destScene);
        t == if k < |queues| && EventIndex(queues[k].eventQueue, eventSequence) < |queues[k].eventQueue|
             then queues[k].eventQueue[EventIndex(queues[k].eventQueue, eventSequence)].time -
                  queues[k].eventQueue[EventIndex(queues[k].eventQueue, eventSequence)].startTime
             else 0.0
    {
      var q := FindQueue(destScene);
      if q == null {
        return 0.0;
      }
      var k := q.FindEvent(eventSequence);
      assert k == EventIndex(q.eventQueue, eventSequence);
      t := if k < |q.eventQueue| then q.eventQueue[k].time - q.eventQueue[k].startTime else 0.0;
    }

    /** getTimeSinceStart: the scene clock minus start time for the first event with the id;
        0 when the scene or the id is unknown. */
    method GetTimeSinceStart(destScene: Option<ObjId>, eventSequence: nat) returns (t: real)
      requires Valid()
      ensures var k := FirstOwned(queues, destScene);
        t == if k < |queues| && EventIndex(queues[k].eventQueue, eventSequence) < |queues[k].eventQueue|
             then queues[k].currentSceneTime - queues[k].eventQueue[EventIndex(queues[k].eventQueue, eventSequence)].startTime
             else 0.0
    {
      var q := FindQueue(destScene);
      if q == null {
        return 0.0;
      }
      var k := q.FindEvent(eventSequence);
      assert k == EventIndex(q.eventQueue, eventSequence);
      t := if k < |q.eventQueue| then q.currentSceneTime - q.eventQueue[k].startTime else 0.0;
    }

    /** advanceToTime: mark due the scene's events firing by the target and move its clock
        to the target; an unknown scene changes nothing. */
    method AdvanceToTime(destScene: Option<ObjId>, targetTime: real)
      requires Valid()
      requires FirstOwned(queues, destScene) < |queues| ==>
        targetTime >= queues[FirstOwned(queues, destScene)].currentSceneTime
      modifies queues`eventQueue, queues`currentSceneTime
      ensures Valid()
      ensures FirstOwned(queues, destScene) == |queues| ==> forall q :: q in queues ==> unchanged(q)
      ensures FirstOwned(queues, destScene) < |queues| ==>
        var q := queues[FirstOwned(queues, destScene)];
        q.eventQueue == MarkDue(old(q.eventQueue), targetTime) &&
        q.currentSceneTime == targetTime &&
        forall r :: r in queues && r != q ==> unchanged(r)
      ensures Idle() == old(Idle())
    {
      var q := FindQueue(destScene);
      if q == null {
        return;
      }
      q.AdvanceTo(targetTime);
    }

    /** ~SceneGraphEventQueue: destroying a queue that is being dispatched raises the abort flag. */
    method DestroyQueue(q: SceneGraphEventQueue)
      modifies this`abortEvents
      ensures abortEvents == (old(abortEvents) || q.executingEvents)
    {
      if q.executingEvents {
        abortEvents := true;
      }
    }

    /** The walk of cancelPendingEvents(obj) has reached position `i` without meeting a
        queue obj owns, and has stripped obj's events from the queues after the root before
        `i`; `lists` holds the lists before the walk. */
    ghost predicate Stripping(i: nat, obj: ObjId, lists: seq<seq<SceneEvent>>)
      reads this`queues, queues`eventQueue, queues`currentSceneTime, queues`eventSequence, queues`wrapped
    {
      Valid() && 1 <= i <= |queues| && |lists| == |queues| &&
      (forall j :: 0 <= j < i ==> queues[j].pScene != Some(obj)) &&
      forall j :: 0 <= j < |queues| ==>
        queues[j].eventQueue == if 1 <= j < i then Without(lists[j], obj) else lists[j]
    }

    /** cancelPendingEvents on one queue obj does not own: strip obj's events from the
        queue at `i` and leave everything else alone. */
    method StripQueue(i: nat, obj: ObjId, ghost lists: seq<seq<SceneEvent>>)
      requires Stripping(i, obj, lists) && i < |queues| && queues[i].pScene != Some(obj)
      modifies queues`eventQueue
      ensures Stripping(i + 1, obj, lists)
    {
      OrderedPairs(queues);
      queues[i].RemoveEventsFor(obj);
    }

    /** The found branch of cancelPendingEvents, first step: delete every event of the
        queue at `i`. */
    method ClearQueue(i: nat)
      requires Valid() && 1 <= i < |queues|
      modifies queues`eventQueue
      ensures Valid()
      ensures forall j :: 0 <= j < |queues| ==>
        queues[j].eventQueue == if j == i then [] else old(queues[j].eventQueue)
    {
      OrderedPairs(queues);
      queues[i].ClearEvents();
    }

    /** The found branch of cancelPendingEvents, last step: link the predecessor of the
        queue at `i` to its successor. */
    method UnlinkAt(i: nat)
      requires Valid() && 1 <= i < |queues|
      modifies this`queues
      ensures Valid()
      ensures queues == old(queues[..i] + queues[i + 1..])
    {
      OrderedDistinct(queues);
      ghost var rest := UnlinkKeepsDistinct(queues, i);
      OrderedPairs(queues);
      queues := queues[..i] + queues[i + 1..];
    }

    /** The found branch of cancelPendingEvents: delete every event of the queue at `i`,
        run its destructor (raising abort if it is being dispatched), and link its
        predecessor to its successor. */
    method DeleteQueue(i: nat, ghost q0: seq<SceneGraphEventQueue>, ghost lists: seq<seq<SceneEvent>>,
                       ghost abort0: bool)
      requires Valid() && 1 <= i < |queues| && queues == q0 && abortEvents == abort0
      requires |lists| == |q0| && forall j :: 0 <= j < |q0| ==> q0[j].eventQueue == lists[j]
      modifies this`queues, this`abortEvents, queues`eventQueue
      ensures Valid()
      ensures queues == q0[..i] + q0[i + 1..]
      ensures abortEvents == (abort0 || q0[i].executingEvents)
      ensures forall j :: 0 <= j < |q0| ==> q0[j].eventQueue == if j == i then [] else lists[j]
    {
      var q := queues[i];
      ClearQueue(i);
      DestroyQueue(q);
      UnlinkAt(i);
    }

    /** The walk of cancelPendingEvents(obj) up to obj's own queue: strip obj's events from
        every queue after the root that obj does not own, stopping at the first queue obj
        owns, whose position is returned (the registry length when there is none). */
    method StripUntilOwned(obj: ObjId, ghost lists: seq<seq<SceneEvent>>) returns (i: nat)
      requires Valid() && |lists| == |queues|
      requires forall j :: 0 <= j < |queues| ==> queues[j].eventQueue == lists[j]
      modifies queues`eventQueue
      ensures Valid()
      ensures i == FirstOwned(queues, Some(obj)) && 1 <= i
      ensures forall j :: 0 <= j < |queues| ==>
        queues[j].eventQueue == if 1 <= j < i then Without(lists[j], obj) else lists[j]
    {
      i := 1;
      while i < |queues| && queues[i].pScene != Some(obj)
        invariant Stripping(i, obj, lists)
        decreases |lists| - i
      {
        StripQueue(i, obj, lists);
        i := i + 1;
      }
      FirstOwnedIs(queues, Some(obj), i);
    }

    /** The state after cancelPendingEvents(obj) from the registry `q0` with lists `lists0`
        and abort flag `abort0`, where `k` is the position of the first queue obj owns (the
        registry length when there is none): that queue, if any, is unlinked, and the abort
        flag raised if it was being dispatched; otherwise registry and flag are as they were;
        every queue's list is as `Cancelled` says. */
    ghost predicate CancelledAll(q0: seq<SceneGraphEventQueue>, lists0: seq<seq<SceneEvent>>,
                                 abort0: bool, obj: ObjId)
      reads this, q0
      ensures CancelledAll(q0, lists0, abort0, obj) ==>
        |lists0| == |q0| && |queues| <= |q0| && (forall q :: q in queues ==> q in q0) &&
        (|q0| > 0 ==> |queues| > 0 && queues[0] == q0[0]) &&
        (abort0 ==> abortEvents) &&
        forall j :: 0 <= j < |q0| ==> multiset(q0[j].eventQueue) <= multiset(lists0[j])
    {
      var k := FirstOwned(q0, Some(obj));
      |lists0| == |q0| && 1 <= k &&
      (k < |q0| ==> queues == q0[..k] + q0[k + 1..] && abortEvents == (abort0 || q0[k].executingEvents)) &&
      (k == |q0| ==> queues == q0 && abortEvents == abort0) &&
      forall j :: 0 <= j < |q0| ==> q0[j].eventQueue == Cancelled(lists0[j], j, k, obj)
    }

    /** cancelPendingEvents(obj): walking the registry after the root, strip obj's events
        from every queue before obj's own; if obj owns a queue, delete all its events,
        destroy it (raising abort if it is being dispatched), unlink it and stop. */
    method CancelPendingEvents(obj: ObjId)
      requires Valid()
      modifies this`queues, this`abortEvents, queues`eventQueue
      ensures Valid()
      ensures CancelledAll(old(queues), old(Lists(queues)), old(abortEvents), obj)
    {
      ghost var q0, lists, abort0 := queues, Lists(queues), abortEvents;
      var i := StripUntilOwned(obj, lists);
      if i < |queues| {
        DeleteOwned(i, obj, q0, lists, abort0);
      } else {
        StrippedIsCancelled(obj, q0, lists, abort0);
      }
    }

    /** With no queue owned by obj, stripping every queue after the root is the state
        cancelPendingEvents promises. */
    lemma StrippedIsCancelled(obj: ObjId, q0: seq<SceneGraphEventQueue>, lists0: seq<seq<SceneEvent>>,
                              abort0: bool)
      requires |q0| == FirstOwned(q0, Some(obj)) && 1 <= |q0| && |lists0| == |q0|
      requires queues == q0 && abortEvents == abort0
      requires forall j :: 0 <= j < |q0| ==>
        q0[j].eventQueue == if 1 <= j < |q0| then Without(lists0[j], obj) else lists0[j]
      ensures CancelledAll(q0, lists0, abort0, obj)
    {
      forall j | 0 <= j < |q0|
        ensures q0[j].eventQueue == Cancelled(lists0[j], j, |q0|, obj)
      {
      }
    }

    /** The found branch of cancelPendingEvents, once obj's events are stripped from the
        queues before obj's queue at `i` (`q0`, `lists0` and `abort0` being the registry, its
        lists and the abort flag before the strip). */
    method DeleteOwned(i: nat, ghost obj: ObjId, ghost q0: seq<SceneGraphEventQueue>,
                       ghost lists0: seq<seq<SceneEvent>>, ghost abort0: bool)
      requires Valid() && 1 <= i < |queues| && queues == q0 && abortEvents == abort0
      requires i == FirstOwned(q0, Some(obj)) && |lists0| == |queues|
      requires forall j :: 0 <= j < |queues| ==>
        queues[j].eventQueue == if 1 <= j < i then Without(lists0[j], obj) else lists0[j]
      modifies this`queues, this`abortEvents, queues`eventQueue
      ensures Valid() && CancelledAll(q0, lists0, abort0, obj)
    {
      ghost var mid := Lists(q0);
      DeleteQueue(i, q0, mid, abort0);
      DeletedIsCancelled(i, obj, q0, lists0, abort0, mid);
    }

    /** The state DeleteQueue leaves, from lists `mid` already stripped before position `i`,
        is the state cancelPendingEvents promises. */
    lemma DeletedIsCancelled(i: nat, obj: ObjId, q0: seq<SceneGraphEventQueue>,
                             lists0: seq<seq<SceneEvent>>, abort0: bool, mid: seq<seq<SceneEvent>>)
      requires 1 <= i < |q0| && i == FirstOwned(q0, Some(obj)) && |lists0| == |q0| && |mid| == |q0|
      requires forall j :: 0 <= j < |q0| ==> mid[j] == if 1 <= j < i then Without(lists0[j], obj) else lists0[j]
      requires queues == q0[..i] + q0[i + 1..] && abortEvents == (abort0 || q0[i].executingEvents)
      requires forall j :: 0 <= j < |q0| ==> q0[j].eventQueue == if j == i then [] else mid[j]
      ensures CancelledAll(q0, lists0, abort0, obj)
    {
      forall j | 0 <= j < |q0|
        ensures q0[j].eventQueue == Cancelled(lists0[j], j, i, obj)
      {
      }
    }

    /** The state of a dispatch pass over `cur` in which no payload has torn anything down:
        the registry is still `q0`, the abort flag is clear, the events popped so far and
        those left in `cur` make up its list `events` at the start, and every other queue
        still has its list in `lists0`. */
    ghost predicate Calm(cur: SceneGraphEventQueue, q0: seq<SceneGraphEventQueue>,
                         lists0: seq<seq<SceneEvent>>, events: seq<SceneEvent>, popped: seq<SceneEvent>)
      reads this, queues, cur
    {
      !abortEvents && queues == q0 && events == popped + cur.eventQueue && |lists0| == |queues| &&
      forall j :: 0 <= j < |queues| && queues[j] != cur ==> queues[j].eventQueue == lists0[j]
    }

    /** What the inner loop of executeEvents keeps while it dispatches `cur`, relative to the
        registry `q0`, its lists `lists0`, the abort flag `abort0` and the clock `clock0` of
        `cur` when the loop started (`events` being the list of `cur` then). */
    ghost predicate Dispatching(cur: SceneGraphEventQueue, q0: seq<SceneGraphEventQueue>,
                                lists0: seq<seq<SceneEvent>>, events: seq<SceneEvent>,
                                abort0: bool, clock0: real, popped: seq<SceneEvent>,
                                invoked: seq<Invocation>, isDeleted: ObjId -> bool,
                                teardown: SceneEvent -> Option<ObjId>)
      reads this, queues, cur, root
    {
      Valid() && (forall i :: 0 <= i < |queues| ==> queues[i] in q0) &&
      |lists0| == |q0| && cur != root && root.eventQueue == lists0[0] &&
      (forall q :: q in queues && q != cur ==> !q.executingEvents) &&
      (!abortEvents ==> cur in queues) &&
      cur.executingEvents && cur.currentSceneTime == clock0 &&
      (abort0 ==> abortEvents && popped == []) &&
      (popped == [] ==>
        queues == q0 && forall j :: 0 <= j < |queues| ==> queues[j].eventQueue == lists0[j]) &&
      (forall x :: x in popped ==> x.execute && x.time <= clock0) &&
      invoked == Invocations(popped, isDeleted) &&
      (abortEvents && !abort0 ==> popped != [] && TornDown(popped[|popped| - 1], isDeleted, teardown)) &&
      (NoTeardowns(teardown) && !abort0 ==> Calm(cur, q0, lists0, events, popped))
    }

    /** The inner loop of executeEvents on the queue `cur` (flagged as executing): while the
        abort flag is clear and the head event is due, unlink it and, when its target is
        alive, run it. The payload's console call is recorded in `invoked`; its effect on the
        scheduler is that it may cancel the pending events of the object `teardown(e)`, which
        deletes that object's queue and raises the abort flag if that queue is `cur`. The
        source leaves the loop by a break once the flag is up; here the loop test, which
        checks the flag first, does the same. */
    method DispatchQueue(cur: SceneGraphEventQueue, isDeleted: ObjId -> bool,
                         teardown: SceneEvent -> Option<ObjId>, ghost q0: seq<SceneGraphEventQueue>,
                         ghost lists: seq<seq<SceneEvent>>, ghost abort0: bool, ghost events: seq<SceneEvent>,
                         ghost wq: seq<SceneGraphEventQueue>, ghost wl: seq<seq<SceneEvent>>)
      returns (popped: seq<SceneEvent>, invoked: seq<Invocation>)
      requires Valid() && cur in queues && cur != root && cur.executingEvents
      requires q0 == queues && lists == Lists(queues) && abort0 == abortEvents && events == cur.eventQueue
      requires NoneGrew(wq, wl)
      requires forall q :: q in queues && q != cur ==> !q.executingEvents
      modifies this`queues, this`abortEvents, queues`eventQueue
      ensures Ran(cur, q0, lists, abort0, events, popped, invoked, isDeleted, teardown)
      ensures forall q :: q in queues && q != cur ==> !q.executingEvents
      ensures NoneGrew(wq, wl)
      ensures queues == RegistryAfter(q0, popped, isDeleted, teardown)
      ensures Raised(Unlinks(q0, popped, Repeat(cur, |popped|), isDeleted, teardown), |popped|, abortEvents)
      ensures abortEvents && !abort0 ==> cur !in queues && cur.eventQueue == []
    {
      popped := [];
      invoked := [];
      ghost var clock0 := cur.currentSceneTime;
      DispatchStarts(cur, isDeleted, teardown);
      while !abortEvents && cur.eventQueue != [] && cur.eventQueue[0].execute
        invariant Dispatching(cur, q0, lists, events, abort0, clock0, popped, invoked, isDeleted, teardown)
        invariant multiset(popped) + multiset(cur.eventQueue) <= multiset(events)
        invariant NoneGrew(wq, wl)
        invariant queues == RegistryAfter(q0, popped, isDeleted, teardown)
        invariant Raised(Unlinks(q0, popped, Repeat(cur, |popped|), isDeleted, teardown), |popped|, abortEvents)
        invariant abortEvents && !abort0 ==> cur !in queues && cur.eventQueue == []
        decreases |cur.eventQueue|
      {
        ghost var before := popped;
        var e;
        e, popped, invoked := DispatchHead(cur, isDeleted, teardown, q0, lists, events, abort0, clock0,
                                           popped, invoked, wq, wl);
        Traced(q0, before, e, cur, queues, abortEvents, isDeleted, teardown);
      }
      Dispatched(cur, isDeleted, teardown, q0, lists, abort0, events, clock0, popped, invoked);
    }

    /** The inner loop of executeEvents starts with nothing popped from `cur`. */
    lemma DispatchStarts(cur: SceneGraphEventQueue, isDeleted: ObjId -> bool,
                         teardown: SceneEvent -> Option<ObjId>)
      requires Valid() && cur in queues && cur != root && cur.executingEvents
      requires forall q :: q in queues && q != cur ==> !q.executingEvents
      ensures Dispatching(cur, queues, Lists(queues), cur.eventQueue, abortEvents, cur.currentSceneTime,
                          [], [], isDeleted, teardown)
    {
    }

    /** What the inner loop of executeEvents over `cur` leaves, relative to the registry
        `q0`, its lists `lists`, the abort flag `abort0` and the list `events` of `cur` when
        it started: a valid registry that only lost queues, the root untouched, `cur` still
        linked unless the abort flag went up, and the flag only raised, never cleared. The
        events popped are due ones, each fired by the clock of `cur`; the console calls are
        those of the popped events whose target is alive; a raised flag was raised by the
        teardown of the last event popped; popping nothing changes nothing; and when no
        payload tears anything down, exactly the due events of `cur` are popped, in order,
        and it keeps the pending ones. In any case `cur` loses at least the events popped. */
    ghost predicate Ran(cur: SceneGraphEventQueue, q0: seq<SceneGraphEventQueue>,
                        lists: seq<seq<SceneEvent>>, abort0: bool, events: seq<SceneEvent>,
                        popped: seq<SceneEvent>, invoked: seq<Invocation>,
                        isDeleted: ObjId -> bool, teardown: SceneEvent -> Option<ObjId>)
      reads this`queues, this`abortEvents, queues`eventQueue, queues`currentSceneTime, queues`eventSequence,
            queues`wrapped, root`eventQueue, cur`eventQueue, cur`currentSceneTime
    {
      Valid() && (forall i :: 0 <= i < |queues| ==> queues[i] in q0) &&
      |lists| == |q0| >= 1 && root.eventQueue == lists[0] &&
      (!abortEvents ==> cur in queues) &&
      (abort0 ==> abortEvents && popped == []) &&
      (popped == [] ==>
        queues == q0 && forall j :: 0 <= j < |queues| ==> queues[j].eventQueue == lists[j]) &&
      (forall e :: e in popped ==> e.execute && e.time <= cur.currentSceneTime) &&
      invoked == Invocations(popped, isDeleted) &&
      (abortEvents && !abort0 ==> popped != [] && TornDown(popped[|popped| - 1], isDeleted, teardown)) &&
      (NoTeardowns(teardown) && !abort0 ==>
        !abortEvents && queues == q0 && popped == Due(events) && cur.eventQueue == Pending(events) &&
        forall j :: 0 <= j < |queues| && queues[j] != cur ==> queues[j].eventQueue == lists[j]) &&
      multiset(popped) + multiset(cur.eventQueue) <= multiset(events)
    }

    /** Once the inner loop of executeEvents stops, it has left what Ran describes; in
        particular, when no payload tore anything down, it has popped exactly the due events
        of `cur`, left it the pending ones and left every other queue alone. */
    lemma Dispatched(cur: SceneGraphEventQueue, isDeleted: ObjId -> bool,
                     teardown: SceneEvent -> Option<ObjId>, q0: seq<SceneGraphEventQueue>,
                     lists: seq<seq<SceneEvent>>, abort0: bool, events: seq<SceneEvent>, clock0: real,
                     popped: seq<SceneEvent>, invoked: seq<Invocation>)
      requires Dispatching(cur, q0, lists, events, abort0, clock0, popped, invoked, isDeleted, teardown)
      requires multiset(popped) + multiset(cur.eventQueue) <= multiset(events)
      requires abortEvents || cur.eventQueue == [] || !cur.eventQueue[0].execute
      ensures Ran(cur, q0, lists, abort0, events, popped, invoked, isDeleted, teardown)
    {
      if NoTeardowns(teardown) && !abort0 {
        assert Calm(cur, q0, lists, events, popped);
        DispatchedDue(events, popped, cur.eventQueue);
      }
    }

    /** One step of the inner loop of executeEvents: unlink the head event of `cur` and, when
        its target is alive, run its payload: the console call, appended to `invoked`, and the
        teardown it may perform. */
    method DispatchHead(cur: SceneGraphEventQueue, isDeleted: ObjId -> bool,
                        teardown: SceneEvent -> Option<ObjId>, ghost q0: seq<SceneGraphEventQueue>,
                        ghost lists0: seq<seq<SceneEvent>>, ghost events: seq<SceneEvent>,
                        ghost abort0: bool, ghost clock0: real,
                        popped: seq<SceneEvent>, invoked: seq<Invocation>,
                        ghost wq: seq<SceneGraphEventQueue>, ghost wl: seq<seq<SceneEvent>>)
      returns (e: SceneEvent, popped': seq<SceneEvent>, invoked': seq<Invocation>)
      requires Dispatching(cur, q0, lists0, events, abort0, clock0, popped, invoked, isDeleted, teardown)
      requires !abortEvents && cur.eventQueue != [] && cur.eventQueue[0].execute
      requires multiset(popped) + multiset(cur.eventQueue) <= multiset(events)
      requires NoneGrew(wq, wl)
      modifies this`queues, this`abortEvents, queues`eventQueue
      ensures Dispatching(cur, q0, lists0, events, abort0, clock0, popped', invoked', isDeleted, teardown)
      ensures forall i :: 0 <= i < |queues| ==> queues[i] in old(queues)
      ensures |cur.eventQueue| < old(|cur.eventQueue|)
      ensures e == old(cur.eventQueue[0]) && popped' == popped + [e]
      ensures invoked' == invoked + if isDeleted(e.destObject) then [] else [Process(e)]
      ensures multiset(popped') + multiset(cur.eventQueue) <= multiset(events)
      ensures NoneGrew(wq, wl)
      ensures queues ==
        if TornDown(e, isDeleted, teardown) then Unlinked(old(queues), teardown(e).value) else old(queues)
      ensures abortEvents == (cur !in queues)
      ensures cur !in queues ==> cur.eventQueue == []
    {
      e, popped', invoked' := PopHead(cur, isDeleted, teardown, q0, lists0, events, abort0, clock0,
                                      popped, invoked, wq, wl);
      if !isDeleted(e.destObject) {
        match teardown(e)
        case Some(obj) =>
          RunTeardown(cur, obj, isDeleted, teardown, q0, lists0, events, abort0, clock0, popped', invoked',
                      wq, wl);
        case None =>
      }
    }

    /** The first half of one step of the inner loop of executeEvents: unlink the head event
        of `cur` and, when its target is alive, make its console call (logged in `invoked`). */
    method PopHead(cur: SceneGraphEventQueue, isDeleted: ObjId -> bool,
                   teardown: SceneEvent -> Option<ObjId>, ghost q0: seq<SceneGraphEventQueue>,
                   ghost lists0: seq<seq<SceneEvent>>, ghost events: seq<SceneEvent>,
                   ghost abort0: bool, ghost clock0: real,
                   popped: seq<SceneEvent>, invoked: seq<Invocation>,
                   ghost wq: seq<SceneGraphEventQueue>, ghost wl: seq<seq<SceneEvent>>)
      returns (e: SceneEvent, popped': seq<SceneEvent>, invoked': seq<Invocation>)
      requires Dispatching(cur, q0, lists0, events, abort0, clock0, popped, invoked, isDeleted, teardown)
      requires !abortEvents && cur.eventQueue != [] && cur.eventQueue[0].execute
      requires NoneGrew(wq, wl)
      modifies cur`eventQueue
      ensures NoneGrew(wq, wl)
      ensures Dispatching(cur, q0, lists0, events, abort0, clock0, popped', invoked', isDeleted, teardown)
      ensures !abortEvents && queues == old(queues)
      ensures cur.eventQueue == old(cur.eventQueue)[1..]
      ensures e == old(cur.eventQueue[0]) && popped' == popped + [e]
      ensures invoked' == invoked + if isDeleted(e.destObject) then [] else [Process(e)]
      ensures |cur.eventQueue| < old(|cur.eventQueue|)
      ensures multiset(popped') + multiset(cur.eventQueue) == multiset(popped) + multiset(old(cur.eventQueue))
    {
      e := cur.PopFront();
      popped' := popped + [e];
      invoked' := invoked + if isDeleted(e.destObject) then [] else [Process(e)];
      assert old(cur.eventQueue) == [e] + cur.eventQueue;
      StillNoneGrew(wq, wl, 0);
      Popped(cur, isDeleted, teardown, q0, lists0, events, abort0, clock0, popped, invoked, e, popped', invoked');
    }

    /** The dispatch state after the head event `e` of `cur` has been unlinked, nothing else
        having changed. */
    twostate lemma Popped(new cur: SceneGraphEventQueue, new isDeleted: ObjId -> bool,
                          new teardown: SceneEvent -> Option<ObjId>, q0: seq<SceneGraphEventQueue>,
                          new lists0: seq<seq<SceneEvent>>, new events: seq<SceneEvent>,
                          new abort0: bool, new clock0: real,
                          new popped: seq<SceneEvent>, new invoked: seq<Invocation>, new e: SceneEvent,
                          new popped': seq<SceneEvent>, new invoked': seq<Invocation>)
      requires old(allocated(cur))
      requires old(Dispatching(cur, q0, lists0, events, abort0, clock0, popped, invoked, isDeleted, teardown))
      requires old(!abortEvents && cur.eventQueue != [] && cur.eventQueue[0].execute)
      requires queues == old(queues) && abortEvents == old(abortEvents) && cur.Valid()
      requires e == old(cur.eventQueue[0]) && cur.eventQueue == old(cur.eventQueue[1..])
      requires cur.currentSceneTime == old(cur.currentSceneTime) && cur.executingEvents == old(cur.executingEvents)
      requires forall q :: q in queues && q != cur ==>
        q.eventQueue == old(q.eventQueue) && q.currentSceneTime == old(q.currentSceneTime) &&
        q.eventSequence == old(q.eventSequence) && q.wrapped == old(q.wrapped) &&
        q.executingEvents == old(q.executingEvents)
      requires popped' == popped + [e]
      requires invoked' == invoked + if isDeleted(e.destObject) then [] else [Process(e)]
      ensures Dispatching(cur, q0, lists0, events, abort0, clock0, popped', invoked', isDeleted, teardown)
    {
      InvocationsSnoc(popped, e, isDeleted);
      assert old(cur.eventQueue) == [e] + cur.eventQueue;
    }

    /** The second half of one step of the inner loop of executeEvents: the payload of the
        event just popped tears down `obj`. */
    method RunTeardown(cur: SceneGraphEventQueue, obj: ObjId, isDeleted: ObjId -> bool,
                       teardown: SceneEvent -> Option<ObjId>, ghost q0: seq<SceneGraphEventQueue>,
                       ghost lists0: seq<seq<SceneEvent>>, ghost events: seq<SceneEvent>,
                       ghost abort0: bool, ghost clock0: real,
                       ghost popped: seq<SceneEvent>, ghost invoked: seq<Invocation>,
                       ghost wq: seq<SceneGraphEventQueue>, ghost wl: seq<seq<SceneEvent>>)
      requires Dispatching(cur, q0, lists0, events, abort0, clock0, popped, invoked, isDeleted, teardown)
      requires !abortEvents && popped != [] && TornDown(popped[|popped| - 1], isDeleted, teardown)
      requires teardown(popped[|popped| - 1]) == Some(obj)
      requires NoneGrew(wq, wl)
      modifies this`queues, this`abortEvents, queues`eventQueue
      ensures NoneGrew(wq, wl)
      ensures Dispatching(cur, q0, lists0, events, abort0, clock0, popped, invoked, isDeleted, teardown)
      ensures forall i :: 0 <= i < |queues| ==> queues[i] in old(queues)
      ensures |cur.eventQueue| <= old(|cur.eventQueue|)
      ensures multiset(cur.eventQueue) <= multiset(old(cur.eventQueue))
      ensures forall q :: q in old(queues) ==> multiset(q.eventQueue) <= multiset(old(q.eventQueue))
      ensures queues == Unlinked(old(queues), obj)
      ensures abortEvents == (cur !in queues)
      ensures cur !in queues ==> cur.eventQueue == []
    {
      TearDown(cur, obj);
      StillNoneGrew(wq, wl, 0);
    }

    /** A payload's teardown of `obj` seen from the dispatch of `cur`: the registry only
        loses queues, the root keeps its events, `cur` stays linked unless the abort flag
        goes up, and its list does not grow. */
    method TearDown(cur: SceneGraphEventQueue, obj: ObjId)
      requires Valid() && cur in queues && cur.executingEvents
      requires forall q :: q in queues && q != cur ==> !q.executingEvents
      modifies this`queues, this`abortEvents, queues`eventQueue
      ensures Valid() && forall i :: 0 <= i < |queues| ==> queues[i] in old(queues)
      ensures root.eventQueue == old(root.eventQueue)
      ensures forall q :: q in queues && q != cur ==> !q.executingEvents
      ensures old(abortEvents) ==> abortEvents
      ensures !abortEvents ==> cur in queues
      ensures |cur.eventQueue| <= old(|cur.eventQueue|)
      ensures multiset(cur.eventQueue) <= multiset(old(cur.eventQueue))
      ensures forall q :: q in old(queues) ==> multiset(q.eventQueue) <= multiset(old(q.eventQueue))
      ensures queues == Unlinked(old(queues), obj)
      ensures abortEvents == (old(abortEvents) || cur !in queues)
      ensures cur !in queues ==> cur.eventQueue == []
    {
      ghost var q0, lists, abort0 := queues, Lists(queues), abortEvents;
      ghost var c := IndexOf(queues, cur);
      OrderedDistinct(q0);
      CancelPendingEvents(obj);
      TornDownEffect(cur, c, obj, q0, lists, abort0);
      forall q | q in q0 ensures multiset(q.eventQueue) <= multiset(old(q.eventQueue)) {
        var j := IndexOf(q0, q);
      }
    }

    /** What a teardown of `obj` that left the state CancelledAll describes means for the
        dispatch of `cur`, found at position `c` of the registry `q0` before it. */
    lemma TornDownEffect(cur: SceneGraphEventQueue, c: nat, obj: ObjId, q0: seq<SceneGraphEventQueue>,
                         lists: seq<seq<SceneEvent>>, abort0: bool)
      requires c < |q0| && q0[c] == cur && cur.executingEvents && q0[0] == root && root.pScene == None
      requires Distinct(q0) && |lists| == |q0| && CancelledAll(q0, lists, abort0, obj)
      requires forall q :: q in q0 && q != cur ==> !q.executingEvents
      ensures forall i :: 0 <= i < |queues| ==> queues[i] in q0
      ensures root.eventQueue == lists[0]
      ensures forall q :: q in queues && q != cur ==> !q.executingEvents
      ensures abort0 ==> abortEvents
      ensures !abortEvents ==> cur in queues
      ensures |cur.eventQueue| <= |lists[c]|
      ensures multiset(cur.eventQueue) <= multiset(lists[c])
      ensures forall j :: 0 <= j < |q0| ==> multiset(q0[j].eventQueue) <= multiset(lists[j])
      ensures queues == Unlinked(q0, obj)
      ensures abortEvents == (abort0 || cur !in queues)
      ensures cur !in queues ==> cur.eventQueue == []
    {
      var k := FirstOwned(q0, Some(obj));
      assert cur.eventQueue == Cancelled(lists[c], c, k, obj);
      if k < |q0| {
        assert forall i :: 0 <= i < |queues| ==> queues[i] == q0[if i < k then i else i + 1];
        if c != k {
          assert cur in queues by {
            if c < k {
              assert queues[c] == cur;
            } else {
              assert queues[c - 1] == cur;
            }
          }
        }
      }
    }

    /** Set or clear the executingEvents flag of `cur`; the registry invariant does not
        depend on it. */
    method Flag(cur: SceneGraphEventQueue, b: bool, ghost q0: seq<SceneGraphEventQueue>,
                ghost lists0: seq<seq<SceneEvent>>)
      requires Valid() && NoneGrew(q0, lists0)
      modifies cur`executingEvents
      ensures Valid() && NoneGrew(q0, lists0) && cur.executingEvents == b
      ensures forall q :: q in queues && q != cur ==> q.executingEvents == old(q.executingEvents)
    {
      cur.SetExecuting(b);
    }

    /** The inner loop of executeEvents with the queue's executing flag set before it:
        what DispatchQueue promises. */
    method DispatchFlagged(cur: SceneGraphEventQueue, isDeleted: ObjId -> bool,
                           teardown: SceneEvent -> Option<ObjId>, ghost q0: seq<SceneGraphEventQueue>,
                           ghost lists: seq<seq<SceneEvent>>, ghost abort0: bool, ghost events: seq<SceneEvent>,
                           ghost wq: seq<SceneGraphEventQueue>, ghost wl: seq<seq<SceneEvent>>)
      returns (popped: seq<SceneEvent>, invoked: seq<Invocation>)
      requires Valid() && Idle() && cur in queues && cur != root
      requires q0 == queues && lists == Lists(queues) && abort0 == abortEvents && events == cur.eventQueue
      requires NoneGrew(wq, wl)
      modifies this`queues, this`abortEvents, queues`eventQueue, queues`executingEvents
      ensures Ran(cur, q0, lists, abort0, events, popped, invoked, isDeleted, teardown)
      ensures forall q :: q in queues && q != cur ==> !q.executingEvents
      ensures NoneGrew(wq, wl)
      ensures queues == RegistryAfter(q0, popped, isDeleted, teardown)
      ensures Raised(Unlinks(q0, popped, Repeat(cur, |popped|), isDeleted, teardown), |popped|, abortEvents)
      ensures abortEvents && !abort0 ==> cur !in queues && cur.eventQueue == []
    {
      Flag(cur, true, wq, wl);
      popped, invoked := DispatchQueue(cur, isDeleted, teardown, q0, lists, abort0, events, wq, wl);
    }

    /** What a turn of the outer walk of executeEvents that ran the queue at position `i` and
        popped `popped` leaves, relative to the state before it: a valid registry with no queue
        executing that only lost queues, the root untouched, a raised abort flag kept up (and
        then nothing popped). The events popped are due ones, the console calls are those of
        the popped events whose target is alive, a flag raised now was raised by the teardown
        of the last event popped, and popping nothing changes nothing. When no payload tears
        anything down, the flag stays clear, the registry is the same, the events popped are
        the due events of that queue and it keeps its pending ones, and no other queue
        changes. In any case the queue loses at least the events popped. */
    twostate predicate TurnedOver(i: nat, q: SceneGraphEventQueue, popped: seq<SceneEvent>,
                                  invoked: seq<Invocation>, isDeleted: ObjId -> bool,
                                  teardown: SceneEvent -> Option<ObjId>)
      reads this, queues, root, q
    {
      old(1 <= i < |queues| && queues[i] == q) &&
      Valid() && Idle() && (forall k :: 0 <= k < |queues| ==> queues[k] in old(queues)) &&
      root.eventQueue == old(root.eventQueue) &&
      (old(abortEvents) ==> abortEvents && popped == []) &&
      (popped == [] ==>
        queues == old(queues) &&
        forall j :: 0 <= j < |queues| ==> queues[j].eventQueue == old(queues[j].eventQueue)) &&
      (forall e :: e in popped ==> e.execute) &&
      invoked == Invocations(popped, isDeleted) &&
      (abortEvents && !old(abortEvents) ==>
        popped != [] && TornDown(popped[|popped| - 1], isDeleted, teardown)) &&
      (NoTeardowns(teardown) && !old(abortEvents) ==>
        !abortEvents && queues == old(queues) && popped == Due(old(queues[i].eventQueue)) &&
        forall j :: 0 <= j < |queues| ==>
          queues[j].eventQueue ==
            if j == i then Pending(old(queues[j].eventQueue)) else old(queues[j].eventQueue)) &&
      multiset(popped) + multiset(q.eventQueue) <= multiset(old(q.eventQueue))
    }

    /** One turn of the outer walk of executeEvents: flag the queue at position `i` as
        executing, run the inner loop over it, and clear the flag again. The queue is at
        position `m` of the registry `q0` the walk started from, whose lists were `lists0`;
        `done` are the events popped by the turns before. Besides what TurnedOver says, the
        turn leaves the registry its teardowns make, unlinks the queue it runs only with its
        last pop (and then empties it and raises the flag), pops only events that queue held
        when the walk began, and leaves no queue of `q0` larger than when the turn began. */
    method RunQueue(i: nat, isDeleted: ObjId -> bool, teardown: SceneEvent -> Option<ObjId>,
                    ghost m: nat, ghost q0: seq<SceneGraphEventQueue>, ghost lists0: seq<seq<SceneEvent>>,
                    ghost done: seq<SceneEvent>)
      returns (popped: seq<SceneEvent>, invoked: seq<Invocation>)
      requires Valid() && Idle() && 1 <= i < |queues|
      requires Held(lists0, m, done) && NoneGrew(q0, lists0) && m < |q0| && q0[m] == queues[i]
      modifies this`queues, this`abortEvents, queues`eventQueue, queues`executingEvents
      ensures TurnedOver(i, old(queues[i]), popped, invoked, isDeleted, teardown)
      ensures Held(lists0, m + 1, done + popped) && NoneGrew(q0, lists0)
      ensures queues == RegistryAfter(old(queues), popped, isDeleted, teardown)
      ensures Raised(Unlinks(old(queues), popped, Repeat(q0[m], |popped|), isDeleted, teardown), |popped|,
                     abortEvents)
      ensures abortEvents && !old(abortEvents) ==> q0[m] !in queues && q0[m].eventQueue == []
      ensures old(abortEvents) ==> popped == []
      ensures popped == [] ==> abortEvents == old(abortEvents)
      ensures forall x :: x in popped ==> x in lists0[m]
      ensures multiset(popped) + BagAfterRoot(Lists(q0), |q0|) <= BagAfterRoot(old(Lists(q0)), |q0|)
    {
      var cur := queues[i];
      ghost var events := cur.eventQueue;
      ghost var q1, lists1 := queues, Lists(queues);
      ghost var tl := Lists(q0);
      NoneGrewAt(q0, lists0, 0, m);
      NoneGrewAll(q0, lists0, 0);
      assert forall j :: 0 <= j < |q0| ==> multiset(tl[j]) <= multiset(lists0[j]);
      NoneGrewOf(q0, tl, 0);
      popped, invoked := DispatchFlagged(cur, isDeleted, teardown, q1, lists1, old(abortEvents), events, q0, tl);
      Flag(cur, false, q0, tl);
      Turned(i, cur, isDeleted, teardown, q1, lists1, events, popped, invoked, m, lists0, done);
      Conserving(q0, lists0, tl, m, popped);
    }

    /** What a turn of the outer walk of executeEvents that ran the queue `cur` at position
        `i` promises, once the inner loop over `cur` has left what Ran describes and the
        flag of `cur` is cleared again; `cur` is at position `m` of the registry the walk
        started from, whose lists were `lists0`. */
    twostate lemma Turned(new i: nat, new cur: SceneGraphEventQueue, new isDeleted: ObjId -> bool,
                          new teardown: SceneEvent -> Option<ObjId>, q1: seq<SceneGraphEventQueue>,
                          new lists: seq<seq<SceneEvent>>, new events: seq<SceneEvent>,
                          new popped: seq<SceneEvent>, new invoked: seq<Invocation>,
                          new m: nat, new lists0: seq<seq<SceneEvent>>, new done: seq<SceneEvent>)
      requires old(allocated(cur))
      requires old(Valid() && 1 <= i < |queues| && queues[i] == cur)
      requires q1 == old(queues) && lists == old(Lists(queues)) && events == old(cur.eventQueue)
      requires Ran(cur, q1, lists, old(abortEvents), events, popped, invoked, isDeleted, teardown)
      requires !cur.executingEvents && forall q :: q in queues && q != cur ==> !q.executingEvents
      requires Held(lists0, m, done) && m < |lists0| && multiset(events) <= multiset(lists0[m])
      ensures TurnedOver(i, old(queues[i]), popped, invoked, isDeleted, teardown)
      ensures Held(lists0, m + 1, done + popped)
      ensures old(abortEvents) ==> popped == []
      ensures popped == [] ==> abortEvents == old(abortEvents)
      ensures forall x :: x in popped ==> x in lists0[m]
      ensures multiset(popped) + multiset(cur.eventQueue) <= multiset(events)
    {
      if NoTeardowns(teardown) && !old(abortEvents) {
        OrderedPairs(queues);
        assert forall j :: 0 <= j < |queues| && j != i ==> queues[j] != cur;
      }
      RanHeld(lists0, m, done, popped, events);
      SubBagMembers(popped, lists0[m]);
    }

    /** What the outer walk of executeEvents knows of the events `popped` so far, relative
        to the registry `q0`, its lists `lists0` and the abort flag `abort0` when the walk
        started: the registry is what their payloads' teardowns made of `q0`; each came from
        the queue `from` names (at position `at` of `q0`), whose list held it; running any of
        them but the last left the queue it came from linked, and the flag is up exactly when
        the last one unlinked it, which also emptied it; and the events popped, together with
        what the queues of `q0` hold now, are no more than those queues held. */
    ghost predicate Tracked(q0: seq<SceneGraphEventQueue>, lists0: seq<seq<SceneEvent>>, abort0: bool,
                            popped: seq<SceneEvent>, from: seq<SceneGraphEventQueue>, at: seq<nat>,
                            isDeleted: ObjId -> bool, teardown: SceneEvent -> Option<ObjId>)
      reads this`queues, this`abortEvents, q0`eventQueue, from`eventQueue
    {
      queues == RegistryAfter(q0, popped, isDeleted, teardown) &&
      Sourced(q0, lists0, popped, from, at) &&
      Raised(Unlinks(q0, popped, from, isDeleted, teardown), |popped|, abortEvents) &&
      (abortEvents && !abort0 ==> popped != [] && from[|popped| - 1].eventQueue == []) &&
      Conserved(q0, lists0, popped)
    }

    /** What the outer walk of executeEvents keeps at every turn, relative to the registry
        `q0`, its lists `lists0` and the abort flag `abort0` when the walk started. */
    ghost predicate Walked(q0: seq<SceneGraphEventQueue>, lists0: seq<seq<SceneEvent>>, abort0: bool,
                           popped: seq<SceneEvent>, invoked: seq<Invocation>,
                           isDeleted: ObjId -> bool, teardown: SceneEvent -> Option<ObjId>)
      reads this`queues, this`abortEvents, queues`eventQueue, queues`currentSceneTime, queues`eventSequence,
            queues`wrapped, queues`executingEvents, root`eventQueue
    {
      Valid() && Idle() && Ordered(q0) && (forall k :: 0 <= k < |queues| ==> queues[k] in q0) &&
      |lists0| == |q0| && root.eventQueue == lists0[0] &&
      (forall x :: x in popped ==> x.execute) &&
      invoked == Invocations(popped, isDeleted) &&
      (abort0 ==>
        abortEvents && popped == [] && queues == q0 &&
        forall j :: 0 <= j < |queues| ==> queues[j].eventQueue == lists0[j]) &&
      (abortEvents && !abort0 ==> popped != [] && TornDown(popped[|popped| - 1], isDeleted, teardown))
    }

    /** The walk when no payload tears anything down: the registry is still `q0`, and the
        queues before position `done` have been run, each losing exactly its due events,
        which are `popped`, in registry order. */
    ghost predicate Regular(done: nat, q0: seq<SceneGraphEventQueue>, lists0: seq<seq<SceneEvent>>,
                            popped: seq<SceneEvent>)
      reads this`queues, this`abortEvents, queues`eventQueue
    {
      !abortEvents && queues == q0 && 1 <= done <= |q0| && |lists0| == |q0| &&
      popped == DueAfterRoot(lists0, done) &&
      forall j :: 0 <= j < |queues| ==>
        queues[j].eventQueue == if 1 <= j < done then Pending(lists0[j]) else lists0[j]
    }

    /** The loop state of the outer walk: `walk` is the queue at position `i` still to be run
        (at position `m` of the registry `q0` the walk started from), null once the walk is over. */
    ghost predicate Walking(walk: SceneGraphEventQueue?, i: nat, m: nat, done: nat,
                            q0: seq<SceneGraphEventQueue>, lists0: seq<seq<SceneEvent>>, abort0: bool,
                            popped: seq<SceneEvent>, invoked: seq<Invocation>,
                            isDeleted: ObjId -> bool, teardown: SceneEvent -> Option<ObjId>)
      reads this`queues, this`abortEvents, queues`eventQueue, queues`currentSceneTime, queues`eventSequence,
            queues`wrapped, queues`executingEvents, root`eventQueue
    {
      Walked(q0, lists0, abort0, popped, invoked, isDeleted, teardown) &&
      (walk != null ==> 1 <= i < |queues| && queues[i] == walk && m < |q0| && q0[m] == walk) &&
      (NoTeardowns(teardown) && !abort0 ==>
        Regular(done, q0, lists0, popped) && done == (if walk == null then |q0| else i))
    }

    /** Running the queue at position `i` in a turn of the outer walk. */
    method RunStep(i: nat, ghost m: nat, ghost q0: seq<SceneGraphEventQueue>,
                   ghost lists0: seq<seq<SceneEvent>>, ghost abort0: bool,
                   popped: seq<SceneEvent>, invoked: seq<Invocation>,
                   ghost from: seq<SceneGraphEventQueue>, ghost at: seq<nat>,
                   isDeleted: ObjId -> bool, teardown: SceneEvent -> Option<ObjId>)
      returns (popped': seq<SceneEvent>, invoked': seq<Invocation>,
               ghost from': seq<SceneGraphEventQueue>, ghost at': seq<nat>)
      requires Walked(q0, lists0, abort0, popped, invoked, isDeleted, teardown) && 1 <= i < |queues|
      requires NoTeardowns(teardown) && !abort0 ==> Regular(i, q0, lists0, popped)
      requires Held(lists0, m, popped) && NoneGrew(q0, lists0) && m < |q0| && q0[m] == queues[i]
      requires Tracked(q0, lists0, abort0, popped, from, at, isDeleted, teardown)
      modifies this`queues, this`abortEvents, queues`eventQueue, queues`executingEvents
      ensures Walked(q0, lists0, abort0, popped', invoked', isDeleted, teardown)
      ensures NoTeardowns(teardown) && !abort0 ==> Regular(i + 1, q0, lists0, popped')
      ensures forall k :: 0 <= k < |queues| ==> queues[k] in old(queues)
      ensures Held(lists0, m + 1, popped') && NoneGrew(q0, lists0)
      ensures Tracked(q0, lists0, abort0, popped', from', at', isDeleted, teardown)
    {
      if abortEvents && !abort0 {
        UnlinksAt(q0, popped, from, isDeleted, teardown, |popped| - 1);
        assert popped[..|popped|] == popped;
      }
      var p, inv;
      p, inv := RunQueue(i, isDeleted, teardown, m, q0, lists0, popped);
      popped' := popped + p;
      invoked' := invoked + inv;
      from', at' := from + Repeat(q0[m], |p|), at + Repeat(m, |p|);
      Stepped(i, q0, m, lists0, abort0, popped, invoked, from, at, p, inv, isDeleted, teardown);
    }

    /** The walk state after a turn of the outer walk of executeEvents that ran the queue at
        position `i` (position `m` of `q0`) and popped `p`, given what RunQueue promises. */
    twostate lemma Stepped(new i: nat, q0: seq<SceneGraphEventQueue>, new m: nat,
                           new lists0: seq<seq<SceneEvent>>, new abort0: bool,
                           new popped: seq<SceneEvent>, new invoked: seq<Invocation>,
                           new from: seq<SceneGraphEventQueue>, new at: seq<nat>,
                           new p: seq<SceneEvent>, new inv: seq<Invocation>,
                           new isDeleted: ObjId -> bool, new teardown: SceneEvent -> Option<ObjId>)
      requires old(allocated(from))
      requires old(Walked(q0, lists0, abort0, popped, invoked, isDeleted, teardown)) && 1 <= i < old(|queues|)
      requires old(NoTeardowns(teardown) && !abort0 ==> Regular(i, q0, lists0, popped))
      requires old(Tracked(q0, lists0, abort0, popped, from, at, isDeleted, teardown))
      requires 1 <= m < |q0|
      requires TurnedOver(i, old(queues[i]), p, inv, isDeleted, teardown)
      requires queues == RegistryAfter(old(queues), p, isDeleted, teardown)
      requires Raised(Unlinks(old(queues), p, Repeat(q0[m], |p|), isDeleted, teardown), |p|, abortEvents)
      requires abortEvents && !old(abortEvents) ==> q0[m].eventQueue == []
      requires old(abortEvents) ==> p == []
      requires p == [] ==> abortEvents == old(abortEvents)
      requires forall x :: x in p ==> x in lists0[m]
      requires multiset(p) + BagAfterRoot(Lists(q0), |q0|) <= BagAfterRoot(old(Lists(q0)), |q0|)
      requires old(abortEvents) && !abort0 ==>
        from[|popped| - 1].eventQueue == old(from[|popped| - 1].eventQueue)
      ensures Walked(q0, lists0, abort0, popped + p, invoked + inv, isDeleted, teardown)
      ensures NoTeardowns(teardown) && !abort0 ==> Regular(i + 1, q0, lists0, popped + p)
      ensures Tracked(q0, lists0, abort0, popped + p, from + Repeat(q0[m], |p|), at + Repeat(m, |p|),
                      isDeleted, teardown)
    {
      TrackedTurn(q0, lists0, abort0, popped, from, at, p, m, isDeleted, teardown);
      RanWalked(i, q0, lists0, abort0, popped, invoked, p, inv, isDeleted, teardown);
      if NoTeardowns(teardown) && !abort0 {
        RanRegular(i, q0, lists0, popped, p, inv, isDeleted, teardown);
      }
    }

    /** What the walk knows of its pops after a turn that popped `p` from the queue at
        position `m` of `q0`, given what that turn promises. */
    twostate lemma TrackedTurn(new q0: seq<SceneGraphEventQueue>, new lists0: seq<seq<SceneEvent>>,
                               new abort0: bool, new popped: seq<SceneEvent>,
                               new from: seq<SceneGraphEventQueue>, new at: seq<nat>,
                               new p: seq<SceneEvent>, new m: nat,
                               new isDeleted: ObjId -> bool, new teardown: SceneEvent -> Option<ObjId>)
      requires old(allocated(q0)) && old(allocated(from))
      requires old(Tracked(q0, lists0, abort0, popped, from, at, isDeleted, teardown))
      requires 1 <= m < |q0|
      requires queues == RegistryAfter(old(queues), p, isDeleted, teardown)
      requires Raised(Unlinks(old(queues), p, Repeat(q0[m], |p|), isDeleted, teardown), |p|, abortEvents)
      requires abortEvents && !old(abortEvents) ==> q0[m].eventQueue == []
      requires old(abortEvents) ==> p == []
      requires p == [] ==> abortEvents == old(abortEvents)
      requires forall x :: x in p ==> x in lists0[m]
      requires multiset(p) + BagAfterRoot(Lists(q0), |q0|) <= BagAfterRoot(old(Lists(q0)), |q0|)
      requires old(abortEvents) && !abort0 ==>
        from[|popped| - 1].eventQueue == old(from[|popped| - 1].eventQueue)
      ensures Tracked(q0, lists0, abort0, popped + p, from + Repeat(q0[m], |p|), at + Repeat(m, |p|),
                      isDeleted, teardown)
    {
      TraceJoined(q0, popped, from, old(abortEvents), old(queues), p, q0[m], queues, abortEvents,
                  isDeleted, teardown);
      SourcedAppend(q0, lists0, popped, from, at, p, m);
      ConservedJoin(popped, p, lists0, old(Lists(q0)), Lists(q0));
    }

    /** The walk state after a turn of the outer walk of executeEvents that ran the queue at
        position `i` and popped `p`, given what that turn promises. */
    twostate lemma RanWalked(new i: nat, q0: seq<SceneGraphEventQueue>, new lists0: seq<seq<SceneEvent>>,
                             new abort0: bool, new popped: seq<SceneEvent>, new invoked: seq<Invocation>,
                             new p: seq<SceneEvent>, new inv: seq<Invocation>,
                             new isDeleted: ObjId -> bool, new teardown: SceneEvent -> Option<ObjId>)
      requires old(Walked(q0, lists0, abort0, popped, invoked, isDeleted, teardown)) && 1 <= i < old(|queues|)
      requires TurnedOver(i, old(queues[i]), p, inv, isDeleted, teardown)
      ensures Walked(q0, lists0, abort0, popped + p, invoked + inv, isDeleted, teardown)
    {
      InvocationsAppend(popped, p, isDeleted);
      if p == [] {
        assert popped + p == popped;
      } else {
        assert (popped + p)[|popped + p| - 1] == p[|p| - 1];
      }
    }

    /** With no teardowns, a turn that popped exactly the due events of the queue at position
        `i` and left it its pending rest extends the regular walk by that queue. */
    twostate lemma RanRegular(new i: nat, q0: seq<SceneGraphEventQueue>, new lists0: seq<seq<SceneEvent>>,
                              new popped: seq<SceneEvent>, new p: seq<SceneEvent>, new inv: seq<Invocation>,
                              new isDeleted: ObjId -> bool, new teardown: SceneEvent -> Option<ObjId>)
      requires old(Regular(i, q0, lists0, popped)) && 1 <= i < |q0|
      requires TurnedOver(i, old(queues[i]), p, inv, isDeleted, teardown) && NoTeardowns(teardown)
      ensures Regular(i + 1, q0, lists0, popped + p)
    {
    }

    /** One turn of the outer walk of executeEvents: remember the queue after `walk`, run
        `walk`, then go on to the remembered queue if it is still registered; the walk is
        over when there is none or it has been unlinked. */
    method WalkStep(walk: SceneGraphEventQueue, i: nat, ghost m: nat, ghost done: nat,
                    ghost q0: seq<SceneGraphEventQueue>, ghost lists0: seq<seq<SceneEvent>>,
                    ghost abort0: bool, popped: seq<SceneEvent>, invoked: seq<Invocation>,
                    ghost from: seq<SceneGraphEventQueue>, ghost at: seq<nat>,
                    isDeleted: ObjId -> bool, teardown: SceneEvent -> Option<ObjId>)
      returns (walk': SceneGraphEventQueue?, i': nat, ghost m': nat, popped': seq<SceneEvent>,
               invoked': seq<Invocation>, ghost done': nat, ghost from': seq<SceneGraphEventQueue>,
               ghost at': seq<nat>)
      requires Walking(walk, i, m, done, q0, lists0, abort0, popped, invoked, isDeleted, teardown)
      requires Held(lists0, m, popped) && NoneGrew(q0, lists0)
      requires Tracked(q0, lists0, abort0, popped, from, at, isDeleted, teardown)
      modifies this`queues, this`abortEvents, queues`eventQueue, queues`executingEvents
      ensures Walking(walk', i', m', done', q0, lists0, abort0, popped', invoked', isDeleted, teardown)
      ensures m < m' && (walk' == null ==> m' == |q0|)
      ensures Held(lists0, m', popped') && NoneGrew(q0, lists0)
      ensures Tracked(q0, lists0, abort0, popped', from', at', isDeleted, teardown)
    {
      ghost var before := queues;
      var next: SceneGraphEventQueue? := if i + 1 < |queues| then queues[i + 1] else null;
      assert Remembered(next, before, i, m, q0, NoTeardowns(teardown) && !abort0);
      popped', invoked', from', at' := RunStep(i, m, q0, lists0, abort0, popped, invoked, from, at,
                                               isDeleted, teardown);
      done' := i + 1;
      if next != null && next in queues {
        walk', i' := next, IndexOf(queues, next);
      } else {
        walk', i' := null, 0;
      }
      m' := Moved(next, before, i, m, walk', i', done', q0, lists0, abort0, popped', invoked', isDeleted, teardown);
    }

    /** Where the outer walk goes after a turn that ran the queue at position `i`: to the
        remembered queue `next` at its position `i'` when it is still linked, else nowhere.
        Returns the position of the new walk queue in the registry `q0` the walk started
        from (its length once the walk is over), which lies beyond that of the queue run. */
    lemma Moved(next: SceneGraphEventQueue?, before: seq<SceneGraphEventQueue>, i: nat, m: nat,
                walk: SceneGraphEventQueue?, i': nat, done: nat,
                q0: seq<SceneGraphEventQueue>, lists0: seq<seq<SceneEvent>>, abort0: bool,
                popped: seq<SceneEvent>, invoked: seq<Invocation>,
                isDeleted: ObjId -> bool, teardown: SceneEvent -> Option<ObjId>)
      returns (m': nat)
      requires Remembered(next, before, i, m, q0, NoTeardowns(teardown) && !abort0)
      requires Walked(q0, lists0, abort0, popped, invoked, isDeleted, teardown)
      requires NoTeardowns(teardown) && !abort0 ==> Regular(i + 1, q0, lists0, popped)
      requires Held(lists0, m + 1, popped) && done == i + 1
      requires (next != null && next in queues && walk == next && i' == IndexOf(queues, next)) ||
               ((next == null || next !in queues) && walk == null && i' == 0)
      ensures Walking(walk, i', m', done, q0, lists0, abort0, popped, invoked, isDeleted, teardown)
      ensures m < m' && (walk == null ==> m' == |q0|)
      ensures Held(lists0, m', popped)
    {
      if walk != null {
        Advanced(next, before, i, m, q0, lists0, abort0, popped, invoked, isDeleted, teardown);
        m' := IndexOf(q0, next);
      } else {
        Finished(next, before, i, m, q0, lists0, abort0, popped, invoked, isDeleted, teardown);
        m' := |q0|;
      }
    }

    /** What a turn of the outer walk remembers of the registry `before` it ran: the queue
        `next` after position `i` (null at the end), the queue at `i` being at position `m`
        of the registry `q0` the walk started from, and, when nothing has been unlinked
        (`regular`), `before` being `q0` itself. */
    ghost predicate Remembered(next: SceneGraphEventQueue?, before: seq<SceneGraphEventQueue>, i: nat,
                               m: nat, q0: seq<SceneGraphEventQueue>, regular: bool)
    {
      i < |before| && next == (if i + 1 < |before| then before[i + 1] else null) &&
      Ordered(before) && m < |q0| && q0[m] == before[i] && before[0] == root &&
      (forall k :: 0 <= k < |before| ==> before[k] in q0) &&
      (regular ==> before == q0)
    }

    /** The queue `next` remembered before a turn of the outer walk and still linked after it
        comes later in creation order, so further along the registry `q0` the walk started
        from; it is not the root, and when nothing has been unlinked it is at position i + 1. */
    lemma Advanced(next: SceneGraphEventQueue, before: seq<SceneGraphEventQueue>, i: nat, m: nat,
                   q0: seq<SceneGraphEventQueue>, lists0: seq<seq<SceneEvent>>, abort0: bool,
                   popped: seq<SceneEvent>, invoked: seq<Invocation>,
                   isDeleted: ObjId -> bool, teardown: SceneEvent -> Option<ObjId>)
      requires Remembered(next, before, i, m, q0, NoTeardowns(teardown) && !abort0)
      requires Walked(q0, lists0, abort0, popped, invoked, isDeleted, teardown)
      requires NoTeardowns(teardown) && !abort0 ==> Regular(i + 1, q0, lists0, popped)
      requires next in queues && Held(lists0, m + 1, popped)
      ensures next in q0 && m < IndexOf(q0, next)
      ensures Walking(next, IndexOf(queues, next), IndexOf(q0, next), i + 1, q0, lists0, abort0,
                      popped, invoked, isDeleted, teardown)
      ensures Held(lists0, IndexOf(q0, next), popped)
    {
      NextLater(next, before, i, m, q0, queues, NoTeardowns(teardown) && !abort0);
      HeldSkip(lists0, m + 1, IndexOf(q0, next), popped);
    }

    /** Where the queue `next` remembered before a turn of the outer walk lies when it is in
        the registry `now` after it, every queue of which is in `q0`: past the root, further
        along `q0` than the queue run, and, when nothing has been unlinked, at position i + 1. */
    lemma NextLater(next: SceneGraphEventQueue, before: seq<SceneGraphEventQueue>, i: nat, m: nat,
                    q0: seq<SceneGraphEventQueue>, now: seq<SceneGraphEventQueue>, regular: bool)
      requires Remembered(next, before, i, m, q0, regular)
      requires next in now && |now| >= 1 && now[0] == root && Ordered(q0)
      requires forall k :: 0 <= k < |now| ==> now[k] in q0
      requires regular ==> now == q0
      ensures next in q0 && m < IndexOf(q0, next) && 1 <= IndexOf(now, next)
      ensures regular ==> IndexOf(now, next) == i + 1
    {
      OrderedPairs(before);
      OrderedPairs(q0);
      assert before[0].serial < before[i + 1].serial;
      assert next in q0;
      assert q0[m].serial < q0[IndexOf(q0, next)].serial;
    }

    /** A turn of the outer walk after which the remembered queue is gone (or there was none)
        ends the walk; when nothing has been unlinked that is because the turn ran the last
        queue of the registry. */
    lemma Finished(next: SceneGraphEventQueue?, before: seq<SceneGraphEventQueue>, i: nat, m: nat,
                   q0: seq<SceneGraphEventQueue>, lists0: seq<seq<SceneEvent>>, abort0: bool,
                   popped: seq<SceneEvent>, invoked: seq<Invocation>,
                   isDeleted: ObjId -> bool, teardown: SceneEvent -> Option<ObjId>)
      requires Remembered(next, before, i, m, q0, NoTeardowns(teardown) && !abort0)
      requires Walked(q0, lists0, abort0, popped, invoked, isDeleted, teardown)
      requires NoTeardowns(teardown) && !abort0 ==> Regular(i + 1, q0, lists0, popped)
      requires next == null || next !in queues
      requires Held(lists0, m + 1, popped)
      ensures Walking(null, 0, |q0|, i + 1, q0, lists0, abort0, popped, invoked, isDeleted, teardown)
      ensures Held(lists0, |q0|, popped)
    {
      HeldSkip(lists0, m + 1, |q0|, popped);
    }

    /** executeEvents: walk the registry after the root, running each queue's due events in
        order, as long as the abort flag stays clear. The console calls of the events whose
        target is alive are returned in `invoked`; `popped` is every event unlinked, the k-th
        from the queue `from[k]`. */
    method ExecuteEvents(isDeleted: ObjId -> bool, teardown: SceneEvent -> Option<ObjId>)
      returns (popped: seq<SceneEvent>, invoked: seq<Invocation>, ghost from: seq<SceneGraphEventQueue>)
      requires Valid() && Idle()
      modifies this`queues, this`abortEvents, queues`eventQueue, queues`executingEvents
      ensures Valid() && Idle() && forall k :: 0 <= k < |queues| ==> queues[k] in old(queues)
      ensures root.eventQueue == old(root.eventQueue)
      ensures forall e :: e in popped ==> e.execute
      ensures invoked == Invocations(popped, isDeleted)
      ensures old(abortEvents) ==>
        abortEvents && popped == [] && queues == old(queues) &&
        forall j :: 0 <= j < |queues| ==> queues[j].eventQueue == old(queues[j].eventQueue)
      ensures NoTeardowns(teardown) && !old(abortEvents) ==>
        !abortEvents && queues == old(queues) && popped == DueAfterRoot(old(Lists(queues)), |old(queues)|) &&
        forall j :: 1 <= j < |queues| ==> queues[j].eventQueue == Pending(old(queues[j].eventQueue))
      ensures queues == RegistryAfter(old(queues), popped, isDeleted, teardown)
      ensures |from| == |popped| && forall k :: 0 <= k < |popped| ==>
        from[k] in old(queues) && from[k] != root && popped[k] in old(from[k].eventQueue)
      ensures Raised(Unlinks(old(queues), popped, from, isDeleted, teardown), |popped|, abortEvents)
      ensures abortEvents && !old(abortEvents) ==>
        popped != [] && TornDown(popped[|popped| - 1], isDeleted, teardown) && from[|popped| - 1].eventQueue == []
      ensures multiset(popped) + BagAfterRoot(Lists(old(queues)), |old(queues)|) <=
        BagAfterRoot(old(Lists(queues)), |old(queues)|)
    {
      ghost var lists := Lists(queues);
      var walk: SceneGraphEventQueue? := if |queues| > 1 then queues[1] else null;
      ghost var i, m, done, at;
      popped, invoked, i, m, done, from, at := Walk(walk, lists, isDeleted, teardown);
      Executed(i, m, done, lists, popped, invoked, from, at, isDeleted, teardown);
    }

    /** What executeEvents promises, from what the finished walk leaves: the walk state with
        no next queue and what the walk knows of its pops, read against the registry and
        lists when it began. */
    twostate lemma Executed(new i: nat, new m: nat, new done: nat, new lists: seq<seq<SceneEvent>>,
                            new popped: seq<SceneEvent>, new invoked: seq<Invocation>,
                            new from: seq<SceneGraphEventQueue>, new at: seq<nat>,
                            new isDeleted: ObjId -> bool, new teardown: SceneEvent -> Option<ObjId>)
      requires old(Valid()) && lists == old(Lists(queues))
      requires Walking(null, i, m, done, old(queues), lists, old(abortEvents), popped, invoked, isDeleted, teardown)
      requires Tracked(old(queues), lists, old(abortEvents), popped, from, at, isDeleted, teardown)
      ensures Valid() && Idle() && forall k :: 0 <= k < |queues| ==> queues[k] in old(queues)
      ensures root.eventQueue == old(root.eventQueue)
      ensures forall e :: e in popped ==> e.execute
      ensures invoked == Invocations(popped, isDeleted)
      ensures old(abortEvents) ==>
        abortEvents && popped == [] && queues == old(queues) &&
        forall j :: 0 <= j < |queues| ==> queues[j].eventQueue == old(queues[j].eventQueue)
      ensures NoTeardowns(teardown) && !old(abortEvents) ==>
        !abortEvents && queues == old(queues) && popped == DueAfterRoot(old(Lists(queues)), |old(queues)|) &&
        forall j :: 1 <= j < |queues| ==> queues[j].eventQueue == Pending(old(queues[j].eventQueue))
      ensures queues == RegistryAfter(old(queues), popped, isDeleted, teardown)
      ensures |from| == |popped| && forall k :: 0 <= k < |popped| ==>
        from[k] in old(queues) && from[k] != root && popped[k] in old(from[k].eventQueue)
      ensures Raised(Unlinks(old(queues), popped, from, isDeleted, teardown), |popped|, abortEvents)
      ensures abortEvents && !old(abortEvents) ==>
        popped != [] && TornDown(popped[|popped| - 1], isDeleted, teardown) && from[|popped| - 1].eventQueue == []
      ensures multiset(popped) + BagAfterRoot(Lists(old(queues)), |old(queues)|) <=
        BagAfterRoot(old(Lists(queues)), |old(queues)|)
    {
      WalkEnds(i, m, done, old(queues), lists, old(abortEvents), popped, invoked, isDeleted, teardown);
      OrderedPairs(old(queues));
    }

    /** The outer walk of executeEvents from the queue after the root: run each queue in
        turn until there is no next queue or the one remembered has been unlinked. */
    method Walk(start: SceneGraphEventQueue?, ghost lists0: seq<seq<SceneEvent>>,
                isDeleted: ObjId -> bool, teardown: SceneEvent -> Option<ObjId>)
      returns (popped: seq<SceneEvent>, invoked: seq<Invocation>, ghost i: nat, ghost m: nat,
               ghost done: nat, ghost from: seq<SceneGraphEventQueue>, ghost at: seq<nat>)
      requires Valid() && Idle() && lists0 == Lists(queues)
      requires start == if |queues| > 1 then queues[1] else null
      modifies this`queues, this`abortEvents, queues`eventQueue, queues`executingEvents
      ensures Walking(null, i, m, done, old(queues), lists0, old(abortEvents), popped, invoked,
                      isDeleted, teardown)
      ensures Held(lists0, m, popped) && m == |old(queues)|
      ensures Tracked(old(queues), lists0, old(abortEvents), popped, from, at, isDeleted, teardown)
    {
      WalkStarts(lists0, isDeleted, teardown);
      popped, invoked, from, at := [], [], [], [];
      var walk := start;
      var pos: nat := 1;
      m, done := 1, 1;
      while walk != null
        invariant Walking(walk, pos, m, done, old(queues), lists0, old(abortEvents), popped, invoked,
                          isDeleted, teardown)
        invariant Held(lists0, m, popped) && NoneGrew(old(queues), lists0) && (walk == null ==> m == |old(queues)|)
        invariant Tracked(old(queues), lists0, old(abortEvents), popped, from, at, isDeleted, teardown)
        decreases if walk == null then 0 else |old(queues)| - m
      {
        walk, pos, m, popped, invoked, done, from, at :=
          WalkStep(walk, pos, m, done, old(queues), lists0, old(abortEvents), popped, invoked, from, at,
                   isDeleted, teardown);
      }
      i := pos;
    }

    /** The outer walk of executeEvents starts at the queue after the root, with nothing
        popped yet. */
    lemma WalkStarts(lists: seq<seq<SceneEvent>>, isDeleted: ObjId -> bool,
                     teardown: SceneEvent -> Option<ObjId>)
      requires Valid() && Idle() && lists == Lists(queues)
      ensures Walking(if |queues| > 1 then queues[1] else null, 1, 1, 1, queues, lists, abortEvents,
                      [], [], isDeleted, teardown)
      ensures Held(lists, 1, []) && NoneGrew(queues, lists)
      ensures Tracked(queues, lists, abortEvents, [], [], [], isDeleted, teardown)
    {
      NoneGrewOf(queues, lists, 0);
    }

    /** What the outer walk of executeEvents has done once it is over. */
    lemma WalkEnds(i: nat, m: nat, done: nat, q0: seq<SceneGraphEventQueue>,
                   lists0: seq<seq<SceneEvent>>, abort0: bool, popped: seq<SceneEvent>,
                   invoked: seq<Invocation>, isDeleted: ObjId -> bool,
                   teardown: SceneEvent -> Option<ObjId>)
      requires Walking(null, i, m, done, q0, lists0, abort0, popped, invoked, isDeleted, teardown)
      ensures NoTeardowns(teardown) && !abort0 ==>
        !abortEvents && queues == q0 && popped == DueAfterRoot(lists0, |lists0|) &&
        forall j :: 1 <= j < |queues| ==> queues[j].eventQueue == Pending(lists0[j])
    {
    }
  }
}
