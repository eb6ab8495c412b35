# Scene event manager: a verified model

This project models Torque2D's per-scene deferred-event scheduler, `SceneEventManager`. It proves properties of that model in Dafny.

The scheduler keeps a registry of per-scene event queues. Each queue has:
- an owning scene;
- a list of scheduled events, sorted by fire time;
- a scene clock;
- a U32 id counter;
- an `executingEvents` flag.

The registry is a singly linked list. Its head is a sentinel root queue whose owner is NULL. A global abort flag, `gAbortEvents`, is raised when a queue is destroyed while its events are being dispatched.

Scripts use the scheduler in four ways:
- **Post.** An event is linked after every event with an earlier or equal fire time. Events with equal fire times are therefore dispatched in posting order.
- **Query and cancel by id.** Look an event up by id, or cancel it.
- **Bulk teardown.** `cancelPendingEvents` strips an object's events from every queue after the root and before the object's own queue. If the object owns a queue, that queue and all its events are deleted.
- **Advance, then execute.** `advanceToTime` only marks events due and moves the clock. `executeEvents` walks the registry and pops the due events at the front of each queue, as long as the abort flag is clear. It runs an event's payload only when the target object is still alive.

Nothing in the source ever clears the abort flag. Once a queue has been destroyed mid-dispatch, no later `executeEvents` call runs any event. The model keeps this behaviour: every operation either leaves the flag as it was or raises it.

## Files and modules

- **`util.dfy` (module `Util`).** An `Option` type, a distinctness predicate, a first-index lookup, a repetition function, and a sub-multiset membership lemma.
- **`events.dfy` (module `Events`).** Scene events as datatype values, and one queue's event list as a `seq<SceneEvent>`. Each list operation is specified here by a function: sorted insertion, lookup and removal by id, marking due, the due prefix, and stripping one object's events. The lemmas show that each operation keeps the queue invariant:
  - fire times non-decreasing;
  - due events form a prefix;
  - due events are at or before the clock, and the rest at or after it;
  - each event was posted at or before the clock and at or before its fire time.
- **`commands.dfy` (module `Commands`).** What `SceneEvent::process` asks the console to run. This includes splitting a function name at its first `::`.
- **`scene_event_manager.dfy` (module `SceneEventManager`).** The imperative part:
  - class `SceneGraphEventQueue` has the fields of the C++ class;
  - class `EventManager` holds the two globals: the registry `queues` (position 0 is the root) and `abortEvents`;
  - the scheduler's entry points are methods with loops that follow the source's walks. Each method is proved against the list functions of `Events`.

### How the source's external parts are represented

- **Payload.** The console call a dispatched event makes is logged as an `Invocation`. The payload's one effect on the scheduler is given as a parameter `teardown`. When `teardown(e) == Some(obj)`, the payload calls `cancelPendingEvents(obj)`.
- **Liveness.** Whether a target object has been deleted is the parameter `isDeleted`.
- **Registry link.** `nextQueue` is represented by the queue's position in `queues`.

## Model

Paths are relative to the repository root.

| member | source | states |
|---|---|---|
| Events.InsertionIndex | engine/source/2d/scene/SceneEventManager.cpp:195-201 | The link position for fire time t. Every event before it fires at or before t; every event from it on fires strictly later. |
| Events.InsertionIndexUnique | engine/source/2d/scene/SceneEventManager.cpp:195-201 | In a sorted list, that position is the only one with this property. So the two scan loops of postEvent stop exactly there. |
| Events.Insert | engine/source/2d/scene/SceneEventManager.cpp:192-204 | Sorted insertion: the list grows by one, and an event is in it exactly when it is the new event or was in the list before. |
| Events.InsertPlacement | engine/source/2d/scene/SceneEventManager.cpp:192-204 | Sorted insertion gives a sorted list that is one longer and holds the old events plus the new one (as a multiset). Taking the new event out gives back the old list in its old order. The new event comes after every event firing at or before it and before every later one. |
| Events.InsertSorted | engine/source/2d/scene/SceneEventManager.cpp:195-204 | Linking an event at the insertion index keeps the list sorted. |
| Events.InsertCounts | engine/source/2d/scene/SceneEventManager.cpp:203-204 | Linking adds exactly the new event to the list's multiset. |
| Events.PostingOrder | engine/source/2d/scene/SceneEventManager.cpp:198-204 | Two events posted with the same fire time appear in posting order. The first post links e1 at k1 and the second links e2 at k2: taking each out at its position gives back the list before that post. Then k1 < k2, and e1 is still at k1. |
| Events.InsertKeepsInvariant | engine/source/2d/scene/SceneEventManager.cpp:174-204 | An event that is not due, fires at or after the clock and was posted at the clock keeps the queue invariant when linked. |
| Events.InsertKeepsIds | engine/source/2d/scene/SceneEventManager.cpp:191 | An event taking the counter's value as its id keeps ids non-zero, pairwise distinct and below the counter once the counter is incremented. |
| Events.RemoveAtKeepsInvariant | engine/source/2d/scene/SceneEventManager.cpp:233-236 | Unlinking any one event keeps the queue invariant and the ids. |
| Events.EventIndex | engine/source/2d/scene/SceneEventManager.cpp:305-309 | The lookup by id: the position of the first event with the id, or the list length when no event has it. |
| Events.EventIndexFindsAny | engine/source/2d/scene/SceneEventManager.cpp:305-311 | The lookup finds an event exactly when some event in the list carries the id. |
| Events.RemoveFirst | engine/source/2d/scene/SceneEventManager.cpp:233-236 | Unlinking the first event with the id: the list loses one event when some event has the id and keeps its length otherwise, and it never gains an event. |
| Events.CancelRemovesOnlyThatEvent | engine/source/2d/scene/SceneEventManager.cpp:225-241 | cancelEvent takes out exactly one copy of the event found: the length drops by one and the multiset loses that event. An unknown id leaves the list as it was. With unique ids, the cancelled id is no longer pending, and every other id is pending exactly as before. |
| Events.RemoveFirstShape | engine/source/2d/scene/SceneEventManager.cpp:233-236 | Unlinking drops the event found and only it, or changes nothing. |
| Events.RemoveFirstClearsId | engine/source/2d/scene/SceneEventManager.cpp:233-236 | With unique ids, no event with the cancelled id is left. |
| Events.RemoveFirstKeepsOthers | engine/source/2d/scene/SceneEventManager.cpp:225-241 | Every other id is pending after the cancel exactly when it was pending before. |
| Events.MarkDue | engine/source/2d/scene/SceneEventManager.cpp:417-424 | The marking pass of advanceToTime: the list keeps its length, and each event keeps its fire time, id and target. An event is due afterwards exactly when it was due before or fires at or before the target. |
| Events.AdvanceKeepsInvariant | engine/source/2d/scene/SceneEventManager.cpp:415-426 | advanceToTime keeps the invariant with the clock at the target, and the ids unchanged. It removes and reorders nothing. It changes only due marks. An event is due afterwards exactly when it fires at or before the target, and every event left unmarked fires strictly later. Advancing twice to the same target is a no-op. |
| Events.DueCount | engine/source/2d/scene/SceneEventManager.cpp:440 | The inner loop's count: every event before it is due, and the event at it (if any) is not. |
| Events.DueCountIs | engine/source/2d/scene/SceneEventManager.cpp:440 | That count is the only position with this property. |
| Events.Due | engine/source/2d/scene/SceneEventManager.cpp:440-452 | The events one pass pops: a prefix of the list, every one of them due, and the event after them (if any) not due. |
| Events.Pending | engine/source/2d/scene/SceneEventManager.cpp:440-452 | The events one pass leaves: the rest of the list after a run of due events, starting with an event that is not due (or empty). |
| Events.DispatchedDue | engine/source/2d/scene/SceneEventManager.cpp:440-452 | A pass that popped a run of due events and stopped at an event that is not due (or at the end) popped exactly the due prefix. What is left is the pending rest. |
| Events.DispatchSplitsQueue | engine/source/2d/scene/SceneEventManager.cpp:440-452 | A well-formed queue splits into its due prefix and the rest. Due events are due and at or before the clock; the rest are not due and at or after it. The rest keeps the invariant and the ids. The two parts together are the old list, so every event is popped or kept exactly once. |
| Events.SuffixKeepsInvariant | engine/source/2d/scene/SceneEventManager.cpp:440-442 | What is left after popping from the front keeps the invariant and the ids. |
| Events.DueAndPending | engine/source/2d/scene/SceneEventManager.cpp:440 | Popped events are due and at or before the clock; the events left are not due and at or after it. |
| Events.DueAreDue | engine/source/2d/scene/SceneEventManager.cpp:440 | The events a pass pops from a well-formed queue are due and fire at or before the clock. |
| Events.PendingAreLater | engine/source/2d/scene/SceneEventManager.cpp:440-442 | The events a pass leaves in a well-formed queue are not due and fire at or after the clock. |
| Events.WithoutFilters | engine/source/2d/scene/SceneEventManager.cpp:274-281 | Stripping an object removes every copy of each event targeting it and keeps every copy of every other event. |
| Events.WithoutAppend | engine/source/2d/scene/SceneEventManager.cpp:274-281 | Stripping distributes over concatenation. |
| Events.WithoutAt | engine/source/2d/scene/SceneEventManager.cpp:276-281 | Stripping from position i decides on the event at i, then strips the rest. |
| Events.WithoutStep | engine/source/2d/scene/SceneEventManager.cpp:276-281 | One step of the in-place strip keeps "the prefix before the cursor is already stripped". Unlinking a match shifts the rest down; stepping past another event extends the prefix. |
| Events.TailKeepsInvariant | engine/source/2d/scene/SceneEventManager.cpp:441-442 | The tail keeps the invariant and the ids. The head fires no later than every event behind it, is due if any of them is, and has an id unlike theirs. |
| Events.ConsKeepsInvariant | engine/source/2d/scene/SceneEventManager.cpp:274-281 | A head consistent with the clock and with every event behind it, in front of a well-formed tail, gives a well-formed list. |
| Events.WithoutKeepsInvariant | engine/source/2d/scene/SceneEventManager.cpp:274-281 | Stripping keeps the queue invariant and the ids. |
| Events.Without | engine/source/2d/scene/SceneEventManager.cpp:274-281 | The list stripped of one object's events is never longer than the list. What it keeps is stated by WithoutFilters. |
| Events.ConsKeepsWellFormed | engine/source/2d/scene/SceneEventManager.cpp:274-281 | An event kept in front of a stripped, well-formed tail, firing no later than the tail and due if any of it is, gives a well-formed list. |
| Events.ConsKeepsIds | engine/source/2d/scene/SceneEventManager.cpp:274-281 | An event kept in front of the tail, with a non-zero id below the counter and unlike the tail's ids, keeps the ids unique. |
| Commands.SeparatorAt | engine/source/2d/scene/SceneEventManager.cpp:530 | dStrstr for "::": the position of the first "::" in the name, or the name's length exactly when the name contains none. |
| Commands.SplitQualified | engine/source/2d/scene/SceneEventManager.cpp:530-545 | Splitting at the first "::" gives back the namespace and the function for every namespace a split can produce. |
| Commands.Process | engine/source/2d/scene/SceneEventManager.cpp:518-555 | An event on an object runs its argument vector on the target. Otherwise, a first argument containing "::" always leads to a namespace call. The namespace is the part before the first "::"; it contains no "::" and requalified with the function gives the original name back. The namespace replaces the first argument. Without a "::", the call is a global call with the vector unchanged. |
| SceneEventManager.SceneGraphEventQueue.Root | engine/source/2d/scene/SceneEventManager.cpp:23 | The sentinel root queue: owner NULL, no events, clock 0, counter 1, not executing. It is not appended anywhere, because the registry is still empty while it is built. |
| SceneEventManager.SceneGraphEventQueue.constructor | engine/source/2d/scene/SceneEventManager.cpp:458-481 | A new queue is appended at the registry tail, with its scene, no events, clock 0, counter 1 and not executing. The registry stays valid and the abort flag is untouched. |
| SceneEventManager.SceneGraphEventQueue.Post | engine/source/2d/scene/SceneEventManager.cpp:174-208 | Fire time -1 means the clock; the start time is the clock. The id is the counter, which is post-incremented modulo 2^32. The new list is the sorted insertion of the new event. Until the counter wraps, the id is non-zero and unlike every pending id. The queue invariant is kept. |
| SceneEventManager.SceneGraphEventQueue.FindEvent | engine/source/2d/scene/SceneEventManager.cpp:305-309 | The scan by id stops at the first event with the id, or at the end. |
| SceneEventManager.SceneGraphEventQueue.Cancel | engine/source/2d/scene/SceneEventManager.cpp:225-241 | The list becomes the old list with the first event carrying the id unlinked. The invariant is kept. |
| SceneEventManager.SceneGraphEventQueue.RemoveEventsFor | engine/source/2d/scene/SceneEventManager.cpp:273-282 | The list becomes the old list stripped of the object's events. The invariant is kept. |
| SceneEventManager.SceneGraphEventQueue.ClearEvents | engine/source/2d/scene/SceneEventManager.cpp:264-267 | Every event is deleted. |
| SceneEventManager.SceneGraphEventQueue.AdvanceTo | engine/source/2d/scene/SceneEventManager.cpp:415-426 | The list becomes MarkDue of the old list, the clock ends at the target, and the invariant is kept. The "cannot go back in time" assertion inside the loop is proved never to fire. |
| SceneEventManager.SceneGraphEventQueue.SetExecuting | engine/source/2d/scene/SceneEventManager.cpp:438 | Sets the executingEvents flag. |
| SceneEventManager.SceneGraphEventQueue.PopFront | engine/source/2d/scene/SceneEventManager.cpp:441-442 | Unlinks and returns the head event. A due head fires at or before the clock. The invariant is kept. |
| SceneEventManager.StripEvents | engine/source/2d/scene/SceneEventManager.cpp:274-281 | The pointer-to-pointer strip walk computes exactly `Without` of the list. |
| SceneEventManager.FirstOwned | engine/source/2d/scene/SceneEventManager.cpp:159-170 | The scene lookup: the first queue owned by the scene, or the registry length when there is none. No earlier queue has that owner. |
| SceneEventManager.FirstOwnedIs | engine/source/2d/scene/SceneEventManager.cpp:254 | A walk that stopped at the first match, or at the end, stopped at the lookup result. |
| SceneEventManager.Cancelled | engine/source/2d/scene/SceneEventManager.cpp:254-283 | The list of the queue at a registry position after cancelPendingEvents holds no event more often than before. |
| SceneEventManager.DueAfterRootHeld | engine/source/2d/scene/SceneEventManager.cpp:434-455 | Every event a run over the queues after the root pops is due, and is held by those queues at least as often as it is popped. |
| SceneEventManager.BagGrows | engine/source/2d/scene/SceneEventManager.cpp:434-455 | Proof helper: counting over more queues after the root, every event is held at least as often. |
| SceneEventManager.NoneGrewOf | engine/source/2d/scene/SceneEventManager.cpp:431-432 | Proof helper: when every queue holds no event more often than its recorded list, no list has grown. This holds when the walk starts. |
| SceneEventManager.NoneGrewAll | engine/source/2d/scene/SceneEventManager.cpp:438-452 | Proof helper: while no list has grown, each queue holds no event more often than its recorded list. |
| SceneEventManager.NoneGrewAt | engine/source/2d/scene/SceneEventManager.cpp:438-452 | Proof helper: while no list has grown, the queue at any position of the starting registry holds no event more often than its starting list did. |
| SceneEventManager.StillNoneGrew | engine/source/2d/scene/SceneEventManager.cpp:441-446 | Proof helper: unlinking events, whether by popping or by a teardown, keeps every list no larger than at the start of the walk. |
| SceneEventManager.RanHeld | engine/source/2d/scene/SceneEventManager.cpp:438-452 | Proof helper: the events a turn pops, held by its queue at the start of the walk, extend the account of the walk by that queue. Everything popped so far was held by the queues run. |
| SceneEventManager.HeldSkip | engine/source/2d/scene/SceneEventManager.cpp:435-436 | Proof helper: moving the walk over queues it does not run keeps that account. |
| SceneEventManager.RaisedSnoc | engine/source/2d/scene/SceneEventManager.cpp:448-451 | Proof helper: a record of the flag after each pop that is clear throughout, extended by one more pop, is clear for every pop but the last and ends with the current flag. |
| SceneEventManager.RaisedAppend | engine/source/2d/scene/SceneEventManager.cpp:434-455 | Proof helper: two such records join into one when the second turn pops nothing once the flag is up, and a turn that pops nothing leaves the flag as it was. |
| SceneEventManager.OrderedPairs | engine/source/2d/scene/SceneEventManager.cpp:458-481 | Queues are linked in creation order: a queue earlier in the registry has a smaller creation number. |
| SceneEventManager.OrderedDistinct | engine/source/2d/scene/SceneEventManager.cpp:458-481 | So no queue is linked twice. |
| SceneEventManager.InvocationsAppend | engine/source/2d/scene/SceneEventManager.cpp:445-446 | The console calls for two runs of popped events are the calls of the first run followed by those of the second. |
| SceneEventManager.InvocationsSnoc | engine/source/2d/scene/SceneEventManager.cpp:445-446 | Popping one more event adds its call exactly when its target is alive. |
| SceneEventManager.DueAfterRoot | engine/source/2d/scene/SceneEventManager.cpp:434-455 | The events a run over the queues after the root pops when nothing aborts it, queue by queue: all of them due, and none for a registry with only the root. DueAfterRootHeld bounds them by the events held. |
| SceneEventManager.Invocations | engine/source/2d/scene/SceneEventManager.cpp:445-446 | The console calls of a run of popped events: no more calls than events, and one per event when every target is alive. |
| SceneEventManager.InvocationsAreLive | engine/source/2d/scene/SceneEventManager.cpp:445-446 | Each call logged is that of a popped event whose target is alive. |
| SceneEventManager.Unlinked | engine/source/2d/scene/SceneEventManager.cpp:262-271 | The registry after cancelPendingEvents(obj) unlinks obj's first queue: one queue shorter when obj owns one, unchanged otherwise, and holding no queue it did not hold. |
| SceneEventManager.RegistryAfter | engine/source/2d/scene/SceneEventManager.cpp:441-446 | The registry after the teardowns of a run of popped payloads, applied in pop order: never longer, and holding no new queue. |
| SceneEventManager.OnlyLastUnlinks | engine/source/2d/scene/SceneEventManager.cpp:441-451 | Read off the unlink record that the dispatch contracts state: every pop but the last left the queue it came from linked, and the last one unlinked it exactly when the abort flag is up. So, with the flag up, the pop whose teardown destroyed its own queue is the last pop. |
| SceneEventManager.UnlinksAt | engine/source/2d/scene/SceneEventManager.cpp:441-451 | Proof helper: the k-th entry of the unlink record says whether the queue the k-th event came from was gone once the first k + 1 teardowns had run. |
| SceneEventManager.RegistryAfterSnoc | engine/source/2d/scene/SceneEventManager.cpp:441-446 | Proof helper: one more popped payload applies its teardown, if any, to the registry. |
| SceneEventManager.RegistryAfterAppend | engine/source/2d/scene/SceneEventManager.cpp:434-455 | Proof helper: the teardowns of two runs of pops compose. The registry after both is the second run applied to the registry after the first. |
| SceneEventManager.UnlinksAppend | engine/source/2d/scene/SceneEventManager.cpp:434-455 | Proof helper: the unlink record of two runs of pops is that of the first followed by that of the second, taken from the registry the first left. |
| SceneEventManager.Traced | engine/source/2d/scene/SceneEventManager.cpp:441-451 | Proof helper: one more pop from the queue being dispatched, while it is still linked, extends both the registry and the unlink record. The record says the flag is up exactly when that pop unlinked the queue. |
| SceneEventManager.TraceJoined | engine/source/2d/scene/SceneEventManager.cpp:434-455 | Proof helper: the registry and the unlink record of the walk so far join with those of one more turn, given that a raised flag stops the walk from popping. |
| SceneEventManager.BagKept | engine/source/2d/scene/SceneEventManager.cpp:441-446 | Proof helper: a turn whose pops plus its queue's list are no more than that list held, while no other list grew, keeps the events counted over the queues after the root no larger. |
| SceneEventManager.Conserving | engine/source/2d/scene/SceneEventManager.cpp:434-455 | Proof helper: the events a turn popped, together with what the registry's queues hold after it, are no more than what those queues held before it. No list has grown since the walk began. |
| SceneEventManager.SourcedAppend | engine/source/2d/scene/SceneEventManager.cpp:434-455 | Proof helper: a turn that popped events held by its queue's list when the walk began extends the record of where each popped event came from. |
| SceneEventManager.ConservedJoin | engine/source/2d/scene/SceneEventManager.cpp:434-455 | Proof helper: the walk's balance of popped against held events extends by that of one more turn. |
| SceneEventManager.EventManager.constructor | engine/source/2d/scene/SceneEventManager.cpp:23-24 | Start-up state: the registry holds only the empty root, and the abort flag is clear. |
| SceneEventManager.EventManager.FindQueue | engine/source/2d/scene/SceneEventManager.cpp:159-170 | The lookup walk returns the first queue owned by the scene (NULL finds the root), or null. |
| SceneEventManager.EventManager.PostEvent | engine/source/2d/scene/SceneEventManager.cpp:155-209 | With no queue for the scene, it returns InvalidEventId and changes nothing. Otherwise it returns that queue's counter and increments it modulo 2^32. It links the event by sorted insertion with the clock as start time (and as fire time for -1). Every other queue is unchanged. |
| SceneEventManager.EventManager.CancelEvent | engine/source/2d/scene/SceneEventManager.cpp:211-243 | An unknown scene changes nothing. Otherwise only the scene's list changes: its first event with the id is unlinked (nothing changes when no event has the id). |
| SceneEventManager.EventManager.IsEventPending | engine/source/2d/scene/SceneEventManager.cpp:288-312 | True exactly when the scene has a queue holding an event with the id. Reads only. |
| SceneEventManager.EventManager.GetEventTimeLeft | engine/source/2d/scene/SceneEventManager.cpp:314-341 | Fire time minus the scene clock for the first event with the id. Returns 0 when the scene or the id is unknown. Reads only. |
| SceneEventManager.EventManager.GetScheduleDuration | engine/source/2d/scene/SceneEventManager.cpp:343-369 | Fire time minus start time for the first event with the id. Returns 0 when the scene or the id is unknown. Reads only. |
| SceneEventManager.EventManager.GetTimeSinceStart | engine/source/2d/scene/SceneEventManager.cpp:371-397 | The scene clock minus start time for the first event with the id. Returns 0 when the scene or the id is unknown. Reads only. |
| SceneEventManager.EventManager.AdvanceToTime | engine/source/2d/scene/SceneEventManager.cpp:399-427 | An unknown scene changes nothing. Otherwise the scene's list becomes MarkDue of the old list and its clock the target. Every other queue is unchanged. |
| SceneEventManager.EventManager.DestroyQueue | engine/source/2d/scene/SceneEventManager.cpp:483-486 | Destroying a queue raises the abort flag exactly when the queue is executing. Otherwise the flag is left as it was. |
| SceneEventManager.EventManager.StripQueue | engine/source/2d/scene/SceneEventManager.cpp:273-282 | One turn of the cancelPendingEvents walk over a queue the object does not own. That queue is stripped, and the walk state moves on one position. |
| SceneEventManager.EventManager.ClearQueue | engine/source/2d/scene/SceneEventManager.cpp:264-267 | Empties the queue at the position; every other list is unchanged. |
| SceneEventManager.EventManager.UnlinkAt | engine/source/2d/scene/SceneEventManager.cpp:270 | The predecessor is linked to the successor: the registry loses exactly that queue. |
| SceneEventManager.EventManager.DeleteQueue | engine/source/2d/scene/SceneEventManager.cpp:262-271 | Deleting the owned queue: the registry loses it, its list is emptied, every other list is unchanged, and abort is raised exactly when the queue was executing. |
| SceneEventManager.EventManager.StripUntilOwned | engine/source/2d/scene/SceneEventManager.cpp:254-283 | The walk strips the object's events from each queue after the root until the first queue the object owns. It returns that position (or the length). |
| SceneEventManager.EventManager.CancelPendingEvents | engine/source/2d/scene/SceneEventManager.cpp:245-286 | With k the first queue the object owns, each queue between the root and k loses exactly the object's events. If k exists, it is emptied and unlinked, and abort is raised exactly when k was executing. Otherwise the registry and the flag are unchanged. The root and the queues after k are untouched, and the root is never unlinked. |
| SceneEventManager.EventManager.CancelledAll | engine/source/2d/scene/SceneEventManager.cpp:245-286 | The state cancelPendingEvents promises. When it holds, the registry has only lost queues (at most one) and keeps the root first, a raised abort flag stays up, and no queue of the old registry holds any event more often than before. |
| SceneEventManager.EventManager.StrippedIsCancelled | engine/source/2d/scene/SceneEventManager.cpp:254-283 | When the object owns no queue, stripping every queue after the root is the full effect of cancelPendingEvents. |
| SceneEventManager.EventManager.DeleteOwned | engine/source/2d/scene/SceneEventManager.cpp:262-271 | Deleting the owned queue after the strip completes cancelPendingEvents as stated above. |
| SceneEventManager.EventManager.DeletedIsCancelled | engine/source/2d/scene/SceneEventManager.cpp:262-271 | The state left by deleting the owned queue is the state cancelPendingEvents promises. |
| SceneEventManager.EventManager.DispatchQueue | engine/source/2d/scene/SceneEventManager.cpp:440-452 | The inner loop; its result is Ran. It pops only due events from the front, each firing at or before the clock, and logs the call of each live target. A queue it starts with abort raised is left alone. If it raises abort, the last event it popped ran a teardown. With no teardowns, it pops exactly the due prefix, leaves the pending rest and changes no other queue. In every case the queue loses each popped event, once per pop (a multiset bound). The registry is RegistryAfter of the starting one over the events popped. The queue stays linked after every pop but the last. The flag is raised by the loop exactly when the last pop unlinked the queue, and the queue is then empty. So the pop that raises abort is the last one. |
| SceneEventManager.EventManager.DispatchStarts | engine/source/2d/scene/SceneEventManager.cpp:438-440 | Proof helper: the inner loop starts in the dispatch state with nothing popped and nothing called. |
| SceneEventManager.EventManager.Dispatched | engine/source/2d/scene/SceneEventManager.cpp:440-452 | When the inner loop stops, its result is Ran. With no teardowns the loop popped exactly the due events of the queue, in order, left it the pending ones and changed no other queue. |
| SceneEventManager.EventManager.DispatchHead | engine/source/2d/scene/SceneEventManager.cpp:441-451 | One turn: the head is unlinked and popped. Its call is logged only when its target is alive. The list shrinks, so the loop ends. The registry loses the queue of the payload's teardown object, if any. The flag is up exactly when the queue being dispatched is no longer linked, and that queue is then empty. |
| SceneEventManager.EventManager.PopHead | engine/source/2d/scene/SceneEventManager.cpp:441-446 | Unlinks the head and makes its call when the target is alive. The registry and flag are unchanged. The list loses exactly its head, which joins the popped events, so popped plus list is the same multiset as before. |
| SceneEventManager.EventManager.Popped | engine/source/2d/scene/SceneEventManager.cpp:441-446 | Unlinking the head event and logging its call keeps the dispatch state. The popped events and the list left still make up the list the loop started with. |
| SceneEventManager.EventManager.RunTeardown | engine/source/2d/scene/SceneEventManager.cpp:446-449 | A payload's teardown keeps the dispatch invariant and does not grow any list. The registry becomes Unlinked by the torn-down object. The flag is up exactly when the queue being dispatched was unlinked, and that queue is then empty. |
| SceneEventManager.EventManager.TearDown | engine/source/2d/scene/SceneEventManager.cpp:245-286 | Seen from a dispatch, a teardown unlinks the object's first queue (Unlinked) and keeps the root's events. No list grows. The flag is up afterwards exactly when it was up before or the queue being dispatched was unlinked, and that queue is then empty. |
| SceneEventManager.EventManager.TornDownEffect | engine/source/2d/scene/SceneEventManager.cpp:483-486 | Derives those facts from the cancelPendingEvents contract. Unlinking the executing queue is what raises abort, and an unlinked queue has been emptied. |
| SceneEventManager.EventManager.Flag | engine/source/2d/scene/SceneEventManager.cpp:438 | Proof helper around SetExecuting: setting or clearing executingEvents keeps the registry valid, and no other queue's flag changes. |
| SceneEventManager.EventManager.DispatchFlagged | engine/source/2d/scene/SceneEventManager.cpp:438-452 | The inner loop with the queue's executing flag set before it: what DispatchQueue promises, with no other queue executing. |
| SceneEventManager.EventManager.RunQueue | engine/source/2d/scene/SceneEventManager.cpp:435-454 | One outer turn: flag, dispatch, unflag. It ends idle with the guarantees of DispatchQueue stated per registry position (TurnedOver). The registry is RegistryAfter of the old one over the events popped. The queue run stays linked after every pop but the last. The flag goes up exactly when the last pop unlinked it, and the queue is then empty. A flag already up means nothing is popped; popping nothing leaves the flag as it was. Every event popped was in that queue's list when the walk began. The events popped, together with what the queues hold afterwards, are no more than what they held before the turn. |
| SceneEventManager.EventManager.Turned | engine/source/2d/scene/SceneEventManager.cpp:435-454 | What the inner loop left, with the flag cleared again, is the promise of a turn (TurnedOver). The walk's account grows by the events popped, each of them held by the queue's list when the walk began. A flag already up means nothing was popped, and popping nothing leaves the flag. |
| SceneEventManager.EventManager.RunStep | engine/source/2d/scene/SceneEventManager.cpp:438-454 | Running the queue at position i extends the walk state and what the walk knows of its pops (Tracked). With no teardowns, the queues before i+1 have each lost exactly their due events, in registry order. |
| SceneEventManager.EventManager.TrackedTurn | engine/source/2d/scene/SceneEventManager.cpp:434-455 | Proof helper: what the walk knows of where its pops came from, the registry and the flag, and its balance of popped against held events, extends by one turn as RunQueue states it. |
| SceneEventManager.EventManager.Stepped | engine/source/2d/scene/SceneEventManager.cpp:434-455 | Proof helper: given what RunQueue promises, one turn extends the walk state, the regular walk when nothing tears down, and what the walk knows of its pops. |
| SceneEventManager.EventManager.RanWalked | engine/source/2d/scene/SceneEventManager.cpp:434-455 | A turn keeps the walk state: the registry only loses queues, the root is untouched, popped events are due, calls match live targets, and a raised flag comes from the last teardown. |
| SceneEventManager.EventManager.RanRegular | engine/source/2d/scene/SceneEventManager.cpp:434-455 | With no teardowns, a turn that popped the due events of the queue at position i extends the regular walk by that queue. |
| SceneEventManager.EventManager.WalkStep | engine/source/2d/scene/SceneEventManager.cpp:434-455 | The source saves the next queue, then runs the current one. The walk goes on to the saved queue if it is still linked. That queue lies strictly further along the registry the walk started from. Otherwise the walk ends. What the walk knows of its pops is kept. |
| SceneEventManager.EventManager.Moved | engine/source/2d/scene/SceneEventManager.cpp:434-436 | After a turn, the walk goes on to the saved next queue if it is still linked, further along the starting registry; otherwise it is over. Either way the account is kept. |
| SceneEventManager.EventManager.NextLater | engine/source/2d/scene/SceneEventManager.cpp:435-436 | A saved next queue that is still linked lies past the root and further along the starting registry than the queue run. With nothing unlinked, it is at position i + 1. |
| SceneEventManager.EventManager.Advanced | engine/source/2d/scene/SceneEventManager.cpp:435-436 | A saved next queue that is still linked lies later in the original registry. With no teardowns it is at the next position. |
| SceneEventManager.EventManager.Finished | engine/source/2d/scene/SceneEventManager.cpp:434 | The walk ends when the saved queue is gone. With no teardowns that happens only after the last queue. |
| SceneEventManager.EventManager.Walk | engine/source/2d/scene/SceneEventManager.cpp:434-455 | The outer loop runs queues in registry order until there is no next queue. It keeps what the walk knows of its pops (Tracked). |
| SceneEventManager.EventManager.WalkStarts | engine/source/2d/scene/SceneEventManager.cpp:431-432 | The walk starts at the queue after the root, with nothing popped, the registry as it is and nothing recorded. |
| SceneEventManager.EventManager.WalkEnds | engine/source/2d/scene/SceneEventManager.cpp:434-456 | With no teardowns, a finished walk has popped exactly the due prefixes of all queues after the root, in registry order, and left each its pending rest. |
| SceneEventManager.EventManager.Executed | engine/source/2d/scene/SceneEventManager.cpp:429-456 | Proof helper: the finished walk, together with what it knows of its pops, gives every clause of ExecuteEvents' contract. In particular, each event popped came from a queue other than the root that was linked at the start and whose list held it then. |
| SceneEventManager.EventManager.ExecuteEvents | engine/source/2d/scene/SceneEventManager.cpp:429-456 | These hold in every case. The registry only loses queues, and it is RegistryAfter of the old registry over the events popped, in pop order. The root's events are never run. Every popped event was due, and calls are logged exactly for the popped events whose target is alive. The k-th event popped came from a queue from[k] after the root, linked at the start, whose list held it then. Running any popped event but the last left its queue linked. The events popped, together with what the old queues hold afterwards, are no more than what those queues held (a multiset bound), so no event is popped twice. With abort already raised, nothing is popped and nothing changes. If it raises abort, the last event popped ran a teardown that unlinked and emptied its own queue. Every earlier pop left its own queue linked, so the pop that raises abort is the last one. With no teardowns, it pops the due prefixes in registry order and leaves each queue its pending events. |

## Left out

- **Console layer.** The ConsoleMethod wrappers and `sceneSchedule` (SceneEventManager.cpp:32-154) are console glue around the scheduler. This includes sceneSchedule's clamp of the delay to zero and its argument reshuffling.
- **Console calls.** `Con::execute`, `Namespace::find`, `Namespace::lookup` and the entry's `execute` are foreign calls. `Process` names the call that would be made. Whether the namespace or function exists, and what the call does, is not modelled.
- **Logging.** `Con::errorf` is a side channel; the error paths are modelled by their return values.
- **Timestamps.** F32 times are exact reals. The code only compares and subtracts them.
- **Memory management.** `new`/`delete` and the packed argv buffer of the SceneEvent constructor (SceneEventManager.cpp:488-516) are not modelled. The argument vector is a `seq<string>` copied verbatim: the `Command` datatype.
- **`delete queueCurrent` in cancelPendingEvents.** The loop condition then reads the freed queue (SceneEventManager.cpp:254). The model ends the walk there, which is the evident intent.
- **The executingEvents write at SceneEventManager.cpp:454.** It may hit a queue that a payload deleted. The model writes it to the unlinked object, which nothing reads afterwards.
- **A deleted saved next queue.** If a payload deletes the queue that executeEvents has saved as the next one, the source follows a dangling pointer (SceneEventManager.cpp:436). The model ends the walk instead.
- **The NULL destObject branch** of postEvent (SceneEventManager.cpp:186-190). It is unreachable behind the assertion at line 157; object ids are never NULL.
- **Fatal assertions.** The checks at SceneEventManager.cpp:175-176 and 416 are preconditions of PostEvent and AdvanceToTime. The one at lines 420-421 is proved never to fire.
- **Static-initialisation order.** The root is built while the registry is empty, which is why it is not appended to itself.
- **Counter wrap.** The U32 counter wraps modulo 2^32. Ids are proved non-zero and distinct only until it wraps, which the ghost flag `wrapped` records.
- **Empty argument vector.** `SceneEvent::process` with an empty vector on a non-object event reads past the vector (SceneEventManager.cpp:530). The model treats it as a global call with the empty vector.
- **Other payload effects.** A payload's only modelled effect is one teardown through `cancelPendingEvents`. Posting, cancelling or advancing from inside a payload is not modelled.
- **Liveness during a call.** `isDeleted` is fixed for one `executeEvents` call, so an object deleted by a payload during that call is not reflected.
- **The `nextQueue` link.** It is the queue's position in the registry sequence. The walk keeps the saved next queue as an object and finds its position again.
- **The `break` at SceneEventManager.cpp:450-451.** It is folded into the inner loop's test, which checks the abort flag first.
- **The ghost `serial` of each queue.** This creation number is a proof device for the termination of the outer walk.
- SceneEventManager.EventManager.ExecuteEvents: when a payload tears queues down, the contract bounds what is popped but does not give the exact popped sequence or the order of pops across queues. The bounds are: due events, each from a named queue after the root that held it, no more often than held, the registry each teardown leaves, and the flag. The no-teardown case gives both exactly.
- SceneEventManager.EventManager.ExecuteEvents: clocks and counters staying unchanged is implied by the modifies clause, not stated.
- SceneEventManager.EventManager.TearDown: states only what the dispatch needs. The full effect is CancelPendingEvents' contract.
