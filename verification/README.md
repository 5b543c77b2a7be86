# Reactive publishers and temperature iterators, modelled in Dafny

This project models the hand-written Reactive Streams runtime of the
`com.reactive.functional` package and the custom iterators of
`com.reactive.iterator.TemperatureCollection`, and proves properties of the
model. It covers four classes:

- **BufferedPublisher** is a bounded FIFO buffer shared by all of its
  subscriptions. `publish` drops the new item when the buffer is full.
  Otherwise it appends the item and lets every subscription try to
  dispatch. Dispatch polls items off the head of the buffer while the
  subscription has demand, so each item goes to at most one subscriber.
- **ThrottlingPublisher** combines demand accounting with a timing gate.
  `publish` emits at once when `minInterval` has passed since the last
  emission; otherwise it schedules one emission for later. An emission
  reaches only the subscriptions that are not cancelled and have demand.
- **FunctionalPublisher** broadcasts every value, completion and error to
  all of its subscribers, in registration order. `map` and `filter` build a
  new publisher fed by an adapter subscriber. `request` does nothing.
- **TemperatureCollection** is an append-only list of readings with a
  bounds-checked `getTemperature`, a plain iterator, and an iterator over
  the readings above a threshold. That iterator caches one look-ahead
  reading so that `hasNext` consumes nothing.

Every operation is a pure function. It takes the state and returns the new
state together with the callbacks it made on subscribers, in order
(`Signals.Signal`: onSubscribe, onNext, onError, onComplete). The
publishers' mutable objects become immutable records:

- A subscription is a demand counter plus a cancelled flag, addressed by
  the index at which it was created.
- `Subscriptions.Registry.active` is the publisher's `subscriptions` list.
- The throttling publisher's clock is a parameter (`now`, in milliseconds).
  Its scheduler is an explicit list of pending `(fireTime, item)` tasks.
  `Throttling.RunDue` plays the scheduler thread up to a given time: it
  fires the earliest task first, and the one scheduled first among tasks
  due at the same time.
- All functional publishers of a program form one `Functional.Network`.
  Each publisher's subscriber list holds external subscribers (by id) and
  adapters. An adapter always feeds a publisher created after the one it
  listens to.

Files:

| file | module(s) | content |
|---|---|---|
| `signals.dfy` | `Signals` | callbacks, traces and what a trace delivers to whom |
| `subscriptions.dfy` | `Subscriptions` | demand/cancel ledger and active list shared by the buffered and throttling publishers |
| `buffered.dfy` | `Buffered`, `BufferedProperties` | BufferedPublisher and its laws: conservation, demand, drop-newest, first-ready hand-off |
| `throttling.dfy` | `Throttling`, `ThrottlingProperties` | ThrottlingPublisher, the delay computation, the scheduler, timing scenarios |
| `functional.dfy` | `Functional`, `FunctionalProperties` | FunctionalPublisher networks, broadcast order, cancel, map/filter against a reference pipeline |
| `temperatures.dfy` | `Temperatures` | TemperatureCollection, its two iterators, and the threshold iterator against a reference filter |

## Model

| member | source | states |
|---|---|---|
| Subscriptions.Subscribe | src/main/java/com/reactive/functional/BufferedPublisher.java:21-25 | a new subscription starts with zero demand, not cancelled; its handle is new and goes at the end of the active list; registry validity is kept |
| Subscriptions.RemoveFirst | src/main/java/com/reactive/functional/BufferedPublisher.java:64 | `List.remove(Object)`: an absent value leaves the list alone; a present one is taken out once, at its first occurrence, and the rest keep their order |
| Subscriptions.Cancel | src/main/java/com/reactive/functional/BufferedPublisher.java:62-65 | sets the cancelled flag and keeps the demand of `h`; every other subscription is unchanged; the active list loses exactly `h` and stays in registration order |
| Subscriptions.CancelIdempotent | src/main/java/com/reactive/functional/ThrottlingPublisher.java:73-77 | cancelling twice has the same effect as cancelling once |
| Buffered.New | src/main/java/com/reactive/functional/BufferedPublisher.java:12-18 | a new publisher is valid, keeps the given capacity, and has an empty buffer and an empty registry: no subscriptions, nothing active |
| Buffered.Subscribe | src/main/java/com/reactive/functional/BufferedPublisher.java:21-25 | the only callback is onSubscribe and no item is delivered; the buffer is untouched; the new subscription is active with no demand |
| Buffered.Drain | src/main/java/com/reactive/functional/BufferedPublisher.java:74-80 | the dispatch loop delivers the first k = min(demand, buffer length) items in FIFO order, removes exactly them, and lowers demand by k |
| Buffered.TryDispatch | src/main/java/com/reactive/functional/BufferedPublisher.java:67-81 | a cancelled subscription gets nothing and nothing changes; otherwise it gets the buffer's first min(demand, length) items, and afterwards its demand is 0 or the buffer is empty |
| Buffered.DispatchAll | src/main/java/com/reactive/functional/BufferedPublisher.java:36-38 | the items handed out, in order, followed by what stays buffered, are exactly the buffer before: no item reaches two subscriptions |
| Buffered.DispatchAllAccounted | src/main/java/com/reactive/functional/BufferedPublisher.java:36-38 | over the dispatch loop each subscription's demand drops by exactly what it received; cancelled subscriptions and ones outside the list receive nothing; only onNext is called |
| Buffered.Publish | src/main/java/com/reactive/functional/BufferedPublisher.java:27-39 | a full buffer drops the item and nothing changes or is delivered; below capacity, delivered items then buffer equal old buffer plus the item; demand accounting; only active subscriptions receive; capacity is never exceeded |
| Buffered.Request | src/main/java/com/reactive/functional/BufferedPublisher.java:51-59 | n <= 0 calls onError and changes nothing; n > 0 adds n to the demand and then dispatches the first min(demand + n, length) buffered items |
| Buffered.Cancel | src/main/java/com/reactive/functional/BufferedPublisher.java:62-65 | the buffer is untouched; the subscription is marked cancelled and is no longer active |
| Buffered.CancelIdempotent | src/main/java/com/reactive/functional/BufferedPublisher.java:62-65 | cancelling twice has the same effect as cancelling once |
| BufferedProperties.TryDispatchIdle | src/main/java/com/reactive/functional/BufferedPublisher.java:69-74 | a dispatch attempt by a cancelled or demand-less subscription, or on an empty buffer, changes nothing and delivers nothing |
| BufferedProperties.DispatchAllSingle | src/main/java/com/reactive/functional/BufferedPublisher.java:36-38 | with one buffered item, the first subscription in list order that is live and has demand takes it and no other subscription gets anything |
| BufferedProperties.DispatchAllSingleAt | src/main/java/com/reactive/functional/BufferedPublisher.java:36-38 | when position i holds the first ready subscription, the single buffered item goes to it and to nobody else, and its demand drops by one |
| BufferedProperties.PublishFirstReady | src/main/java/com/reactive/functional/BufferedPublisher.java:27-38 | from a state where no subscription with demand waits on buffered items, publish either queues the item behind others, or gives it to the first active subscription with demand, or buffers it; that state is restored |
| BufferedProperties.RequestKeepsQuiescent | src/main/java/com/reactive/functional/BufferedPublisher.java:51-59 | after request no subscription with demand is left waiting while items are buffered |
| BufferedProperties.SubscribeKeepsQuiescent | src/main/java/com/reactive/functional/BufferedPublisher.java:21-25 | subscribing keeps that state |
| BufferedProperties.CancelKeepsQuiescent | src/main/java/com/reactive/functional/BufferedPublisher.java:62-65 | cancelling keeps that state |
| BufferedProperties.DropNewestScenario | src/main/java/com/reactive/functional/BufferedPublisher.java:27-31 | capacity 3: A, B, C are buffered and D is dropped; a later subscriber requesting 2 gets A then B, and C stays buffered |
| BufferedProperties.Step | src/main/java/com/reactive/functional/BufferedPublisher.java:21-65 | any single call keeps the publisher valid, conserves items, and delivers to a subscription no more than its demand plus what the call granted |
| BufferedProperties.RequestConserves | src/main/java/com/reactive/functional/BufferedPublisher.java:51-59 | request conserves items, and each subscription's demand plus its deliveries grows by exactly n for the requester and by 0 for the others |
| BufferedProperties.RunConserves | src/main/java/com/reactive/functional/BufferedPublisher.java:27-80 | over any sequence of calls, items delivered in order followed by the buffer equal the initial buffer followed by every accepted item: nothing is lost or duplicated, and delivery is FIFO |
| BufferedProperties.RunRespectsDemand | src/main/java/com/reactive/functional/BufferedPublisher.java:74-80 | over any sequence of calls, a subscription never receives more than its initial demand plus all it requested |
| BufferedProperties.StepExact | src/main/java/com/reactive/functional/BufferedPublisher.java:21-80 | for a handle already issued, one call leaves demand plus deliveries exactly equal to the demand before plus what the call granted: nothing is lost or invented |
| BufferedProperties.RunExactDemand | src/main/java/com/reactive/functional/BufferedPublisher.java:21-80 | over any sequence of calls, for a handle already issued, remaining demand plus everything delivered to it equals its initial demand plus all it requested |
| BufferedProperties.StepKeepsQuiescent | src/main/java/com/reactive/functional/BufferedPublisher.java:21-80 | no call leaves a subscription with demand waiting while items are buffered, if none was before |
| BufferedProperties.RunKeepsQuiescent | src/main/java/com/reactive/functional/BufferedPublisher.java:21-80 | that state holds after any sequence of calls from a state where it holds |
| BufferedProperties.ReachableQuiescent | src/main/java/com/reactive/functional/BufferedPublisher.java:12-80 | every state reachable from a new publisher has no subscription with demand waiting on buffered items |
| BufferedProperties.DeliveredPrefixOfAccepted | src/main/java/com/reactive/functional/BufferedPublisher.java:33-38 | starting from an empty buffer, the delivered items are a prefix of the accepted items |
| Throttling.New | src/main/java/com/reactive/functional/ThrottlingPublisher.java:13-21 | a new publisher is valid, keeps the given interval, and has last emission time 0, nothing scheduled and an empty registry |
| Throttling.Subscribe | src/main/java/com/reactive/functional/ThrottlingPublisher.java:23-28 | the only callback is onSubscribe; timing state and schedule are unchanged; the new subscription is active with no demand |
| Throttling.Delay | src/main/java/com/reactive/functional/ThrottlingPublisher.java:31-33 | the delay is never negative; it is zero exactly when minInterval has elapsed; a positive delay ends exactly one interval after the last emission; with the clock not behind the last emission it is at most minInterval |
| Throttling.EmitTo | src/main/java/com/reactive/functional/ThrottlingPublisher.java:83-88 | with demand, onNext is called once and demand drops by one; without demand nothing happens |
| Throttling.EmitEachEffect | src/main/java/com/reactive/functional/ThrottlingPublisher.java:47-51 | each listed subscription that is not cancelled and has demand receives the item once, and its demand drops by one; all others receive nothing and are unchanged |
| Throttling.IsActive | src/main/java/com/reactive/functional/ThrottlingPublisher.java:79-81 | a subscription takes part in an emission when it is not cancelled and has demand; EmitEachEffect and SoleSubscriberEmit state what that means for delivery |
| Throttling.EmitEach | src/main/java/com/reactive/functional/ThrottlingPublisher.java:47-51 | the loop over the subscriptions keeps the number of subscriptions and the active list; its delivery is stated by EmitEachEffect |
| Throttling.Emit | src/main/java/com/reactive/functional/ThrottlingPublisher.java:44-52 | stamps the last emission time with the emission time; delivery as in EmitEachEffect over the active list; the schedule is untouched |
| Throttling.Publish | src/main/java/com/reactive/functional/ThrottlingPublisher.java:30-42 | a positive delay schedules one task at last emission + minInterval, with no delivery and nothing else changed; a zero delay emits at `now` |
| Throttling.Earliest | src/main/java/com/reactive/functional/ThrottlingPublisher.java:37 | the task run first has the smallest fire time, and among equals it was scheduled first |
| Throttling.RunDue | src/main/java/com/reactive/functional/ThrottlingPublisher.java:35-38 | after running the scheduler up to `now`, exactly the tasks not yet due remain, in order; if none was due nothing changes; the interval is kept |
| Throttling.Request | src/main/java/com/reactive/functional/ThrottlingPublisher.java:63-71 | n <= 0 calls onError and changes nothing; n > 0 adds n to the demand and delivers nothing |
| Throttling.Cancel | src/main/java/com/reactive/functional/ThrottlingPublisher.java:73-77 | the subscription is marked cancelled and is no longer active; nothing else changes |
| Throttling.CancelIdempotent | src/main/java/com/reactive/functional/ThrottlingPublisher.java:73-77 | cancelling twice has the same effect as cancelling once |
| ThrottlingProperties.SoleSubscriberEmit | src/main/java/com/reactive/functional/ThrottlingPublisher.java:44-51 | with one subscription, an emission reaches it exactly when it is not cancelled and has demand, and its demand drops by one; otherwise only the emission time is stamped |
| ThrottlingProperties.RunDueAccounted | src/main/java/com/reactive/functional/ThrottlingPublisher.java:44-51 | however many scheduled emissions fire, each subscription's demand drops by exactly what it received, and cancelled subscriptions receive nothing |
| ThrottlingProperties.FireSole | src/main/java/com/reactive/functional/ThrottlingPublisher.java:35-51 | the one scheduled emission, run at its fire time for a sole live subscriber with demand, delivers the item once, lowers the demand by one, stamps the fire time and empties the schedule |
| ThrottlingProperties.IntervalScenario | src/main/java/com/reactive/functional/ThrottlingPublisher.java:30-45 | interval 1000: publishing at 10000 emits at once; publishing at 10200 waits until 11000; publishing at 11100 waits until 12000 |
| ThrottlingProperties.SameInstantScenario | src/main/java/com/reactive/functional/ThrottlingPublisher.java:30-40 | two publishes within one interval are both scheduled for the same instant, so emissions are not kept minInterval apart |
| ThrottlingProperties.FirstPublishDeferred | src/main/java/com/reactive/functional/ThrottlingPublisher.java:17-37 | for every interval, with the initial last emission time 0, a first publish at a time from 0 up to the interval is deferred to time minInterval, with nothing delivered |
| ThrottlingProperties.ZeroDemandMisses | src/main/java/com/reactive/functional/ThrottlingPublisher.java:79-88 | a subscription without demand misses an emission: the item is neither delivered nor kept |
| ThrottlingProperties.RequestThenEmit | src/main/java/com/reactive/functional/ThrottlingPublisher.java:63-71 | after request(n > 0), the next emission delivers the item once to that live subscription and leaves it n - 1 more demand; every other subscription fares as without the request |
| ThrottlingProperties.FiredOrder | src/main/java/com/reactive/functional/ThrottlingPublisher.java:35-38 | the scheduler fires only due, scheduled tasks, in non-decreasing fire time, and for every due instant exactly the tasks scheduled for it, in scheduling order |
| ThrottlingProperties.FiredHasDue | src/main/java/com/reactive/functional/ThrottlingPublisher.java:35-38 | every task due at `now` is fired |
| ThrottlingProperties.RunDueConserves | src/main/java/com/reactive/functional/ThrottlingPublisher.java:35-38 | running the scheduler loses and duplicates no task: the tasks fired plus the tasks left pending are, as a multiset, the tasks scheduled |
| ThrottlingProperties.RunDueDelivers | src/main/java/com/reactive/functional/ThrottlingPublisher.java:35-51 | a live subscription whose demand covers the due tasks receives their items exactly once each, earliest fire time first, scheduling order on ties |
| ThrottlingProperties.RunDueDeliversPrefix | src/main/java/com/reactive/functional/ThrottlingPublisher.java:35-51 | a live subscription with any demand d receives the first min(d, number due) due items, once each, in firing order; the due items beyond its demand are missed |
| ThrottlingProperties.RunDueStamps | src/main/java/com/reactive/functional/ThrottlingPublisher.java:35-45 | after the scheduler runs, the last emission time is the fire time of the last task fired, or unchanged when none fired |
| ThrottlingProperties.RunDueLastEmit | src/main/java/com/reactive/functional/ThrottlingPublisher.java:35-45 | after the scheduler runs, the last emission time is the largest due fire time, and is one of them; with nothing due it is unchanged |
| ThrottlingProperties.FiredExample | src/main/java/com/reactive/functional/ThrottlingPublisher.java:35-38 | tasks for 12000, 11000 and 11000 run at 12000 fire as the two 11000 tasks in scheduling order, then the 12000 one |
| Functional.NewPublisher | src/main/java/com/reactive/functional/FunctionalPublisher.java:27-28 | a new publisher has no subscribers; existing publishers are unchanged |
| Functional.Subscribe | src/main/java/com/reactive/functional/FunctionalPublisher.java:31-44 | the subscriber goes at the end of the list and the only callback is onSubscribe; every other publisher is unchanged |
| Functional.Request | src/main/java/com/reactive/functional/FunctionalPublisher.java:35-37 | request changes nothing and calls nothing |
| Functional.Cancel | src/main/java/com/reactive/functional/FunctionalPublisher.java:40-42 | removes the first occurrence of that subscriber from its publisher's list; other publishers are unchanged |
| Functional.Map | src/main/java/com/reactive/functional/FunctionalPublisher.java:47-77 | returns a new, empty publisher, and appends a mapping adapter feeding it to the source's list |
| Functional.Filter | src/main/java/com/reactive/functional/FunctionalPublisher.java:80-112 | returns a new, empty publisher, and appends a filtering adapter feeding it to the source's list |
| Functional.Broadcast | src/main/java/com/reactive/functional/FunctionalPublisher.java:115-133 | the callbacks of one event on a publisher: its subscriber list in order; LeafBroadcast, SubscribeAppends and CancelRemovesOne state them |
| Functional.FanOut | src/main/java/com/reactive/functional/FunctionalPublisher.java:116-118 | the for-each loop over a subscriber list: each subscriber's callbacks, in list order; LeafBroadcast states them for external subscribers |
| Functional.Visit | src/main/java/com/reactive/functional/FunctionalPublisher.java:55-109 | one subscriber receiving an event: an external one gets one callback; an adapter forwards the transformed event or nothing, as AdapterForwards and SoleAdapter state |
| Functional.Emit | src/main/java/com/reactive/functional/FunctionalPublisher.java:115-119 | `emit(v)`: each subscriber once, in order, gets onNext (LeafBroadcast); through adapters the pipeline output arrives (ChainEmitAll) |
| Functional.EmitAll | src/main/java/com/reactive/functional/FunctionalPublisher.java:115-119 | emitting a stream of values in turn; ChainEmitAll states what a chain's tail subscribers receive |
| Functional.CompleteAll | src/main/java/com/reactive/functional/FunctionalPublisher.java:122-126 | `complete()`: each subscriber once, in order, gets onComplete (LeafBroadcast), and it reaches every downstream subscriber (TerminalReachesAll) |
| Functional.ErrorAll | src/main/java/com/reactive/functional/FunctionalPublisher.java:129-133 | `error(e)`: each subscriber once, in order, gets onError (LeafBroadcast), and it reaches every downstream subscriber (TerminalReachesAll) |
| FunctionalProperties.LeafBroadcast | src/main/java/com/reactive/functional/FunctionalPublisher.java:115-133 | for a publisher whose subscribers are all external (no map or filter adapter): emit, complete and error call each subscriber exactly once, in registration order, whatever it requested |
| FunctionalProperties.SubscribeAppends | src/main/java/com/reactive/functional/FunctionalPublisher.java:31-33 | after subscribe, every broadcast is the old one plus one callback on the new subscriber at the end (no replay); later publishers are unaffected |
| FunctionalProperties.CancelRemovesOne | src/main/java/com/reactive/functional/FunctionalPublisher.java:40-42 | after cancel, a broadcast is the old one without exactly the cancelled subscriber's callback; the others keep their order |
| FunctionalProperties.CancelSkips | src/main/java/com/reactive/functional/FunctionalPublisher.java:40-42 | after cancel, a broadcast makes one callback fewer on the cancelled subscriber |
| FunctionalProperties.AdapterForwards | src/main/java/com/reactive/functional/FunctionalPublisher.java:55-110 | at an adapter's place in the list, the source's broadcast contains the derived publisher's broadcast: f(x) for map, x or nothing by keep(x) for filter, completion and errors unchanged |
| FunctionalProperties.SoleAdapter | src/main/java/com/reactive/functional/FunctionalPublisher.java:55-109 | a publisher whose only subscriber is an adapter broadcasts exactly what the adapter forwards: the derived publisher's broadcast of the transformed event, or nothing when a filter rejects a value |
| FunctionalProperties.TerminalReachesAll | src/main/java/com/reactive/functional/FunctionalPublisher.java:122-133 | complete and error reach every subscriber downstream of the publisher, through map and filter alike, and call nothing else |
| FunctionalProperties.ChainEmit | src/main/java/com/reactive/functional/FunctionalPublisher.java:47-95 | one value emitted at the head of a map/filter chain reaches the subscribers at its end exactly as the reference pipeline on value streams says |
| FunctionalProperties.ChainStep | src/main/java/com/reactive/functional/FunctionalPublisher.java:55-95 | the first stage of a chain turns one value into at most one, and emitting the value at the head is emitting that result at the next publisher |
| FunctionalProperties.ChainEmitAll | src/main/java/com/reactive/functional/FunctionalPublisher.java:47-119 | emitting a stream at the head of a chain hands every subscriber at its end exactly the reference pipeline's output, in order |
| FunctionalProperties.SoleSubscriberReceives | src/main/java/com/reactive/functional/FunctionalPublisher.java:47-112 | a single subscriber at the end of a chain receives exactly the pipeline's output as onNext calls |
| FunctionalProperties.SquaresOfEvensPipeline | src/main/java/com/reactive/functional/FRPDemo.java:27-30 | squaring 1..5 and keeping even values gives 4, 16 |
| FunctionalProperties.SquaresChainEmits | src/main/java/com/reactive/functional/FRPDemo.java:22-40 | in a network shaped like the demo's, emitting 1..5 at the source hands the subscriber exactly 4 and 16 |
| FunctionalProperties.SquaresOfEvensDemo | src/main/java/com/reactive/functional/FRPDemo.java:22-62 | map(n*n), filter(even), one subscriber, emit 1..5, complete: the subscriber sees onSubscribe, 4, 16, onComplete |
| Temperatures.New | src/main/java/com/reactive/iterator/TemperatureCollection.java:15-17 | a new collection is empty |
| Temperatures.Size | src/main/java/com/reactive/iterator/TemperatureCollection.java:25-27 | the number of readings; New, AddTemperature and GetTemperature state their results in terms of it |
| Temperatures.AddTemperature | src/main/java/com/reactive/iterator/TemperatureCollection.java:20-22 | size grows by one, earlier readings are unchanged, and the new reading is last |
| Temperatures.GetTemperature | src/main/java/com/reactive/iterator/TemperatureCollection.java:30-35 | fails with IndexOutOfBounds(index, size) exactly when index < 0 or index >= size; otherwise returns the reading at index |
| Temperatures.GetAfterAdd | src/main/java/com/reactive/iterator/TemperatureCollection.java:20-35 | after adding, earlier indexes read as before, the old size reads the new reading, and other indexes fail |
| Temperatures.Iterator | src/main/java/com/reactive/iterator/TemperatureCollection.java:39-45 | a fresh iterator has all readings still to return |
| Temperatures.HasNext | src/main/java/com/reactive/iterator/TemperatureCollection.java:48-50 | true exactly when readings remain |
| Temperatures.Next | src/main/java/com/reactive/iterator/TemperatureCollection.java:53-58 | returns the first remaining reading and consumes it; on an exhausted iterator, NoSuchElement and no change |
| Temperatures.ForEach | src/main/java/com/reactive/iterator/TemperatureCollection.java:44-58 | iterating to the end yields all readings in insertion order |
| Temperatures.AboveThresholdIterator | src/main/java/com/reactive/iterator/TemperatureCollection.java:62-65 | a fresh threshold iterator has exactly the readings above the threshold still to return |
| Temperatures.Scan | src/main/java/com/reactive/iterator/TemperatureCollection.java:73-78 | the search stops just after the first reading above the threshold and returns it, or at the end of the list; every reading skipped is at most the threshold |
| Temperatures.ScanKeepsPending | src/main/java/com/reactive/iterator/TemperatureCollection.java:68-79 | the search moves the found reading into the cache and loses no reading above the threshold |
| Temperatures.FindNext | src/main/java/com/reactive/iterator/TemperatureCollection.java:68-79 | position only grows and never passes the end; with nothing found, position is at the end and nothing is pending |
| Temperatures.HasNextAbove | src/main/java/com/reactive/iterator/TemperatureCollection.java:82-87 | true exactly when a reading is pending; what remains to be returned is unchanged; a cached reading is kept |
| Temperatures.NextAbove | src/main/java/com/reactive/iterator/TemperatureCollection.java:90-97 | returns the first pending reading, which is then no longer pending; with none left, NoSuchElement; position only grows and stays within the list |
| Temperatures.HasNextAboveIdempotent | src/main/java/com/reactive/iterator/TemperatureCollection.java:82-87 | a second hasNext in a row gives the same answer and changes nothing |
| Temperatures.PendingAfterAdd | src/main/java/com/reactive/iterator/TemperatureCollection.java:73-74 | a reading added while the iterator is open is returned after the others, if it is above the threshold |
| Temperatures.ForEachAbove | src/main/java/com/reactive/iterator/TemperatureCollection.java:62-99 | the hasNext/next loop yields exactly the readings strictly above the threshold, in original order |
| Temperatures.ThresholdExample | src/main/java/com/reactive/iterator/IteratorPatternDemo.java:21-59 | readings 18.4, 18.5, 18.7, 18.8, 18.6 above 18.6 are 18.7 and 18.8 (in tenths of a degree) |

## Left out

- Buffered.Request: does not model the 64-bit wrap-around of `AtomicLong.addAndGet`. Demand is an unbounded `nat`, so no saturation is claimed either.
- Throttling.Request: does not model the 64-bit wrap-around of `AtomicLong.addAndGet`. The reason is the same.
- Concurrency is not modelled: `ConcurrentLinkedQueue`, the atomics, the scheduler thread and any race between them. The model is sequential. In a sequential run `buffer.poll()` never returns null, so that check in `tryDispatch` has no counterpart.
- Reentrant callbacks are not modelled, for example a subscriber calling `request` or `cancel` from inside `onNext`, or a list changed while a publisher iterates it. Callbacks are recorded in the trace and do not run subscriber code.
- Clock and scheduler: `System.currentTimeMillis()` is the parameter `now`. A scheduled emission stamps its own fire time as the emission time. Scheduler time passes only through `Throttling.RunDue`.
- `ThrottlingPublisher.shutdown()` is not modelled. After it, the executor rejects newly scheduled emissions and the publisher has no handling for that. Under the executor's default policy, already scheduled emissions still run.
- Spacing of throttled emissions is not claimed. Delays are computed from a last emission time that pending tasks have not yet updated, so several publishes within one interval all fire at the same instant (`ThrottlingProperties.SameInstantScenario`).
- Throttling timing: the delay is the interval minus the time since the last emission, at least 0. That time is stamped by immediate emissions and by fired tasks, and starts at 0. With interval 1000, publishes at 10000, 10200 and 11100 emit at 10000, then at 11000, then at 12000: the emission at 11000 moved the stamp, so the third publish waits 900 ms (`ThrottlingProperties.IntervalScenario`). A first publish before time 1000 is deferred to 1000 (`ThrottlingProperties.FirstPublishDeferred`).
- Late scheduler thread: nothing makes a caller run `Throttling.RunDue(p, now)` before `Throttling.Publish(p, item, now)`. A call sequence that leaves a task due at `now` unfired models a scheduler thread that is late. Such sequences are allowed, so the model over-approximates the timing of the scheduler thread.
- Throttling.RunDue: the program computes a delay from `currentTimeMillis()` in whole milliseconds, and the executor fires at `nanoTime()` plus that delay. Two tasks the model gives the same millisecond fire time may therefore fire in either order in the program. Scheduling order on ties (`ThrottlingProperties.FiredOrder`, `ThrottlingProperties.RunDueDelivers`) holds on the model's millisecond clock only.
- Buffered.Publish: items are non-null. Below capacity, `publish(null)` makes `ConcurrentLinkedQueue.add` throw NullPointerException; that error path is not modelled.
- Functional.Map: the mapper has type `T -> T`, not `T -> R`. All publishers of one network share one item type.
- Functional.Map: the mapper is applied once per subscriber of the derived publisher, and not at all when it has none. Mappers are pure functions here, so this cannot be observed.
- Subscriber identity: an external subscriber is its id. Subscribing the same id twice is subscribing the same object twice, and its `cancel` removes the first occurrence, as `List.remove` does.
- Readings: `double` temperatures are integers. NaN, signed zero and rounding are out of scope, and the demo's readings are taken in tenths of a degree. `nextElement == null` as "no cached reading" becomes `Option`. This is exact, because `addTemperature` takes a primitive `double` and a reading is never null.
- `getTemperature` and `size` use unbounded integers. A list longer than `Integer.MAX_VALUE` is out of scope.
- The demo `main` methods, the observer classes, SafePublisher, TemperatureProcessor, the value classes and the Project Reactor examples and tests are not part of this model.
