/**
 ThrottlingPublisher: demand accounting plus a timing gate. `publish`
 computes how long ago the last emission was; if at least `minInterval`
 ago the item is emitted at once, otherwise one emission is scheduled for
 when the interval has passed. An emission stamps the emission time and
 hands the item to every active subscription that has demand; the others
 miss it.

 The clock is a parameter (`now`, in milliseconds). The scheduler's delayed
 tasks are the list `pending` of (fire time, item); `RunDue` plays the
 scheduler thread, firing every task whose time has come.
 */
module Throttling {
  import opened Signals
  import Subscriptions

  type Registry = Subscriptions.Registry

  /** An emission scheduled for `fireTime`. */
  datatype Task<T> = Task(fireTime: int, item: T)

  datatype Publisher<T> = Publisher(minInterval: int, lastEmitTime: int, reg: Registry, pending: seq<Task<T>>)

  predicate Valid<T>(p: Publisher<T>)
  {
    Subscriptions.Valid(p.reg)
  }

  /** A new publisher: no emission yet (last emission time 0), no subscriptions. */
  function New<T>(minInterval: int): (p: Publisher<T>)
    ensures Valid(p) && p.minInterval == minInterval && p.lastEmitTime == 0 && p.pending == []
    ensures p.reg == Subscriptions.Empty() && p.reg.active == []
  {
    Publisher(minInterval, 0, Subscriptions.Empty(), [])
  }

  /**
   `subscribe`: registers a subscription with no demand and calls onSubscribe;
   earlier emissions are not replayed.
   */
  function Subscribe<T>(p: Publisher<T>): (r: (Publisher<T>, nat, seq<Signal<T>>))
    ensures r.1 == |p.reg.subs| && r.1 in r.0.reg.active
    ensures r.0.reg.subs == p.reg.subs + [Subscriptions.Sub(0, false)]
    ensures r.0 == p.(reg := r.0.reg)
    ensures r.2 == [OnSubscribe(r.1)] && Items(r.2) == []
    ensures Valid(p) ==> Valid(r.0)
  {
    var (reg, h) := Subscriptions.Subscribe(p.reg);
    (p.(reg := reg), h, [OnSubscribe(h)])
  }

  /**
   How long `publish` at time `now` waits: `max(0, minInterval - elapsed)`
   with `elapsed = now - lastEmitTime`. It is never negative, it is zero
   exactly when the interval has passed, a positive wait ends exactly one
   interval after the last emission, and when the clock has not gone
   backwards it is at most the interval.
   */
  function Delay(minInterval: int, lastEmitTime: int, now: int): (d: int)
    ensures d >= 0
    ensures d == 0 <==> now - lastEmitTime >= minInterval
    ensures d > 0 ==> now + d == lastEmitTime + minInterval
    ensures now >= lastEmitTime ==> d == 0 || d <= minInterval
  {
    var elapsed := now - lastEmitTime;
    if minInterval - elapsed > 0 then minInterval - elapsed else 0
  }

  /** `isActive()`: not cancelled and some demand left. */
  predicate IsActive(s: Subscriptions.Sub)
  {
    !s.cancelled && s.requested > 0
  }

  /**
   The subscription's own `emitItem`: with demand left, onNext is called
   and the demand drops by one; otherwise nothing happens.
   */
  function EmitTo<T>(reg: Registry, h: nat, item: T): (r: (Registry, seq<Signal<T>>))
    requires h < |reg.subs|
    ensures reg.subs[h].requested > 0 ==>
              r == (Subscriptions.WithDemand(reg, h, reg.subs[h].requested - 1), [OnNext(h, item)])
    ensures reg.subs[h].requested == 0 ==> r == (reg, [])
  {
    var s := reg.subs[h];
    if s.requested > 0 then
      (Subscriptions.WithDemand(reg, h, s.requested - 1), [OnNext(h, item)])
    else
      (reg, [])
  }

  /** The loop of the publisher's `emitItem` over the subscriptions `hs`. */
  function EmitEach<T>(reg: Registry, hs: seq<nat>, item: T): (r: (Registry, seq<Signal<T>>))
    requires Subscriptions.Handles(reg, hs)
    ensures |r.0.subs| == |reg.subs| && r.0.active == reg.active
    decreases |hs|
  {
    if |hs| == 0 then (reg, [])
    else
      var first := if IsActive(reg.subs[hs[0]]) then EmitTo(reg, hs[0], item) else (reg, []);
      var rest := EmitEach(first.0, hs[1..], item);
      (rest.0, first.1 + rest.1)
  }

  /**
   The effect of emitting `item` to the subscriptions `hs`: each active one
   in `hs` receives it exactly once and its demand drops by one; every
   other subscription receives nothing and is unchanged.
   */
  ghost predicate EmittedTo<T>(reg: Registry, reg': Registry, hs: seq<nat>, item: T, trace: seq<Signal<T>>)
  {
    && |reg'.subs| == |reg.subs| && reg'.active == reg.active
    && (forall g :: 0 <= g < |reg.subs| ==>
          if g in hs && IsActive(reg.subs[g]) then
            reg'.subs[g] == Subscriptions.Sub(reg.subs[g].requested - 1, false) && Delivered(trace, g) == [item]
          else
            reg'.subs[g] == reg.subs[g] && Delivered(trace, g) == [])
    && (forall i :: 0 <= i < |trace| ==> trace[i].OnNext? && trace[i].item == item && trace[i].to in hs)
  }

  lemma {:induction false} EmitEachEffect<T>(reg: Registry, hs: seq<nat>, item: T)
    requires Subscriptions.Handles(reg, hs) && Subscriptions.Distinct(hs)
    ensures var r := EmitEach(reg, hs, item); EmittedTo(reg, r.0, hs, item, r.1)
    decreases |hs|
  {
    if |hs| > 0 {
      var h := hs[0];
      var first := if IsActive(reg.subs[h]) then EmitTo(reg, h, item) else (reg, []);
      assert Subscriptions.Distinct(hs[1..]);
      EmitEachEffect(first.0, hs[1..], item);
      var rest := EmitEach(first.0, hs[1..], item);
      assert h !in hs[1..];
      assert EmittedTo(reg, first.0, [h], item, first.1);
      EmittedCompose(reg, first.0, rest.0, hs, item, first.1, rest.1);
    }
  }

  lemma EmittedCompose<T>(reg: Registry, reg1: Registry, reg2: Registry, hs: seq<nat>, item: T,
                          t1: seq<Signal<T>>, t2: seq<Signal<T>>)
    requires |hs| > 0 && hs[0] !in hs[1..]
    requires EmittedTo(reg, reg1, [hs[0]], item, t1) && EmittedTo(reg1, reg2, hs[1..], item, t2)
    ensures EmittedTo(reg, reg2, hs, item, t1 + t2)
  {
    forall g | 0 <= g < |reg.subs|
      ensures Delivered(t1 + t2, g) == Delivered(t1, g) + Delivered(t2, g)
    {
      DeliveredConcat(t1, t2, g);
    }
    forall g | 0 <= g < |reg.subs| && g != hs[0]
      ensures g in hs <==> g in hs[1..]
    {
      assert hs == [hs[0]] + hs[1..];
    }
  }

  /**
   The publisher's `emitItem`: stamps `lastEmitTime` with the emission
   time, then hands the item to each subscription of its list that is
   active, in registration order.
   */
  function Emit<T>(p: Publisher<T>, item: T, time: int): (r: (Publisher<T>, seq<Signal<T>>))
    requires Valid(p)
    ensures r.0.lastEmitTime == time
    ensures r.0.minInterval == p.minInterval && r.0.pending == p.pending
    ensures EmittedTo(p.reg, r.0.reg, p.reg.active, item, r.1)
    ensures Valid(r.0)
  {
    EmitEachEffect(p.reg, p.reg.active, item);
    var (reg, trace) := EmitEach(p.reg, p.reg.active, item);
    EmitKeepsValid(p.reg, reg, item, trace);
    (p.(lastEmitTime := time, reg := reg), trace)
  }

  lemma EmitKeepsValid<T>(reg: Registry, reg': Registry, item: T, trace: seq<Signal<T>>)
    requires Subscriptions.Valid(reg) && EmittedTo(reg, reg', reg.active, item, trace)
    ensures Subscriptions.Valid(reg')
  {
    forall h | 0 <= h < |reg'.subs|
      ensures reg'.subs[h].cancelled == reg.subs[h].cancelled
    {
    }
  }

  /**
   `publish(item)` at time `now`: with no wait the item is emitted now;
   otherwise one emission is scheduled one interval after the last
   emission, and nothing else changes (in particular not `lastEmitTime`).
   */
  function Publish<T>(p: Publisher<T>, item: T, now: int): (r: (Publisher<T>, seq<Signal<T>>))
    requires Valid(p)
    ensures var d := Delay(p.minInterval, p.lastEmitTime, now);
            && (d > 0 ==> r == (p.(pending := p.pending + [Task(p.lastEmitTime + p.minInterval, item)]), []))
            && (d == 0 ==> && r.0.lastEmitTime == now
                           && r.0.pending == p.pending
                           && EmittedTo(p.reg, r.0.reg, p.reg.active, item, r.1))
    ensures Valid(r.0) && r.0.minInterval == p.minInterval
  {
    var delay := Delay(p.minInterval, p.lastEmitTime, now);
    if delay > 0 then
      (p.(pending := p.pending + [Task(now + delay, item)]), [])
    else
      Emit(p, item, now)
  }

  /**
   The position of the task the scheduler runs first: the earliest fire
   time, and among equal fire times the one scheduled first.
   */
  function Earliest<T>(pending: seq<Task<T>>): (i: nat)
    requires |pending| > 0
    ensures i < |pending|
    ensures forall j :: 0 <= j < |pending| ==> pending[i].fireTime <= pending[j].fireTime
    ensures forall j :: 0 <= j < i ==> pending[j].fireTime > pending[i].fireTime
  {
    if |pending| == 1 then 0
    else
      var k := 1 + Earliest(pending[1..]);
      if pending[0].fireTime <= pending[k].fireTime then 0 else k
  }

  /** The tasks of `pending` that are not yet due at `now`, in order. */
  function NotDue<T>(pending: seq<Task<T>>, now: int): (r: seq<Task<T>>)
    ensures |r| <= |pending|
    ensures forall j :: 0 <= j < |r| ==> r[j].fireTime > now
  {
    if |pending| == 0 then []
    else (if pending[0].fireTime > now then [pending[0]] else []) + NotDue(pending[1..], now)
  }

  lemma {:induction false} NotDueConcat<T>(a: seq<Task<T>>, b: seq<Task<T>>, now: int)
    ensures NotDue(a + b, now) == NotDue(a, now) + NotDue(b, now)
    decreases |a|
  {
    if |a| == 0 {
      assert a + b == b;
    } else {
      assert (a + b)[1..] == a[1..] + b;
      NotDueConcat(a[1..], b, now);
    }
  }

  /** Taking a due task out of the list leaves the not-yet-due tasks as they were. */
  lemma RemoveDue<T>(pending: seq<Task<T>>, i: nat, now: int)
    requires i < |pending| && pending[i].fireTime <= now
    ensures NotDue(pending[..i] + pending[i + 1..], now) == NotDue(pending, now)
  {
    assert pending == pending[..i] + ([pending[i]] + pending[i + 1..]);
    NotDueConcat(pending[..i], [pending[i]] + pending[i + 1..], now);
    NotDueConcat([pending[i]], pending[i + 1..], now);
    NotDueConcat(pending[..i], pending[i + 1..], now);
  }

  /**
   The scheduler thread up to time `now`: while some task is due, the
   earliest one runs `emitItem` at its fire time. Exactly the tasks that
   are not yet due remain, in their order; if none was due nothing changes.
   */
  function RunDue<T>(p: Publisher<T>, now: int): (r: (Publisher<T>, seq<Signal<T>>))
    requires Valid(p)
    ensures r.0.pending == NotDue(p.pending, now)
    ensures (forall j :: 0 <= j < |p.pending| ==> p.pending[j].fireTime > now) ==> r == (p, [])
    ensures Valid(r.0) && r.0.minInterval == p.minInterval
    decreases |p.pending|
  {
    if |p.pending| == 0 then (p, [])
    else
      var i := Earliest(p.pending);
      var task := p.pending[i];
      if task.fireTime > now then
        NoneDue(p.pending, now);
        (p, [])
      else
        var rest := p.pending[..i] + p.pending[i + 1..];
        RemoveDue(p.pending, i, now);
        var fired := Emit(p.(pending := rest), task.item, task.fireTime);
        var later := RunDue(fired.0, now);
        (later.0, fired.1 + later.1)
  }

  lemma {:induction false} NoneDue<T>(pending: seq<Task<T>>, now: int)
    requires forall j :: 0 <= j < |pending| ==> pending[j].fireTime > now
    ensures NotDue(pending, now) == pending
    decreases |pending|
  {
    if |pending| > 0 {
      NoneDue(pending[1..], now);
      assert pending == [pending[0]] + pending[1..];
    }
  }

  /**
   `request(n)`: for n <= 0 onError is called and nothing changes;
   otherwise the demand grows by n. Nothing is delivered either way.
   */
  function Request<T>(p: Publisher<T>, h: nat, n: int): (r: (Publisher<T>, seq<Signal<T>>))
    requires h < |p.reg.subs|
    ensures n <= 0 ==> r == (p, [OnError(h, NonPositiveRequest)])
    ensures n > 0 ==> r.1 == [] && r.0 == p.(reg := r.0.reg)
    ensures n > 0 ==> r.0.reg == Subscriptions.WithDemand(p.reg, h, p.reg.subs[h].requested + n)
    ensures Valid(p) ==> Valid(r.0)
  {
    if n <= 0 then
      (p, [OnError(h, NonPositiveRequest)])
    else
      (p.(reg := Subscriptions.WithDemand(p.reg, h, p.reg.subs[h].requested + n)), [])
  }

  /** `cancel()`: marks `h` cancelled and removes it from the list. */
  function Cancel<T>(p: Publisher<T>, h: nat): (r: Publisher<T>)
    requires h < |p.reg.subs|
    ensures r == p.(reg := Subscriptions.Cancel(p.reg, h))
    ensures Valid(p) ==> Valid(r) && h !in r.reg.active && r.reg.subs[h].cancelled
  {
    p.(reg := Subscriptions.Cancel(p.reg, h))
  }

  lemma CancelIdempotent<T>(p: Publisher<T>, h: nat)
    requires Valid(p) && h < |p.reg.subs|
    ensures Cancel(Cancel(p, h), h) == Cancel(p, h)
  {
    Subscriptions.CancelIdempotent(p.reg, h);
  }
}

module ThrottlingProperties {
  import opened Signals
  import Subscriptions
  import opened Throttling

  /**
   With a single subscription, an emission reaches it exactly when it is
   live (not cancelled, with demand); otherwise only the time is stamped.
   */
  lemma SoleSubscriberEmit<T>(p: Publisher<T>, item: T, time: int)
    requires Valid(p) && |p.reg.subs| == 1
    ensures IsActive(p.reg.subs[0]) ==>
              Emit(p, item, time)
              == (p.(lastEmitTime := time,
                     reg := Subscriptions.Registry([Subscriptions.Sub(p.reg.subs[0].requested - 1, false)], [0])),
                  [OnNext(0, item)])
    ensures !IsActive(p.reg.subs[0]) ==> Emit(p, item, time) == (p.(lastEmitTime := time), [])
  {
    var r := Emit(p, item, time);
    var s := p.reg.subs[0];
    assert forall i :: 0 <= i < |p.reg.active| ==> p.reg.active[i] == 0;
    if s.cancelled {
      assert 0 !in p.reg.active;
      assert p.reg.active == [];
      assert |r.1| == 0;
      assert r.0.reg.subs == p.reg.subs;
    } else {
      assert 0 in p.reg.active;
      Subscriptions.IncreasingBelow(p.reg.active, 1);
      assert |p.reg.active| == 1;
      assert p.reg.active == [0];
      DeliveredAll(r.1, 0);
      if s.requested > 0 {
        assert Deliveries(0, [item]) == [OnNext(0, item)];
        assert r.0.reg.subs == [Subscriptions.Sub(s.requested - 1, false)];
      } else {
        assert r.0.reg.subs == p.reg.subs;
      }
    }
  }

  /** One round of the scheduler: the earliest task, when due, fires first. */
  lemma RunDueStep<T>(p: Publisher<T>, now: int)
    requires Valid(p) && |p.pending| > 0
    requires p.pending[Earliest(p.pending)].fireTime <= now
    ensures var i := Earliest(p.pending);
            var fired := Emit(p.(pending := p.pending[..i] + p.pending[i + 1..]),
                              p.pending[i].item, p.pending[i].fireTime);
            var later := RunDue(fired.0, now);
            RunDue(p, now) == (later.0, fired.1 + later.1)
  {
  }

  /** `RunDueStep` for a given first emission. */
  lemma RunDueStepAt<T>(p: Publisher<T>, now: int, q: Publisher<T>, fired: (Publisher<T>, seq<Signal<T>>))
    requires Valid(p) && |p.pending| > 0
    requires p.pending[Earliest(p.pending)].fireTime <= now
    requires var i := Earliest(p.pending);
             && q == p.(pending := p.pending[..i] + p.pending[i + 1..])
             && fired == Emit(q, p.pending[i].item, p.pending[i].fireTime)
    ensures Valid(fired.0)
    ensures RunDue(p, now) == (RunDue(fired.0, now).0, fired.1 + RunDue(fired.0, now).1)
  {
    RunDueStep(p, now);
  }

  /** With a single task due, `RunDue` fires it at its fire time. */
  lemma RunDueSingle<T>(p: Publisher<T>, now: int)
    requires Valid(p) && |p.pending| == 1 && p.pending[0].fireTime <= now
    ensures RunDue(p, now) == Emit(p.(pending := []), p.pending[0].item, p.pending[0].fireTime)
  {
    assert Earliest(p.pending) == 0;
    assert p.pending[..0] + p.pending[1..] == [];
    var fired := Emit(p.(pending := []), p.pending[0].item, p.pending[0].fireTime);
    RunDueStepAt(p, now, p.(pending := []), fired);
    assert RunDue(fired.0, now) == (fired.0, []);
    assert fired.1 + [] == fired.1;
  }

  /**
   Interval 1000 ms, one subscriber with ample demand, clock well past the
   initial `lastEmitTime` of 0. Item 1 published at 10000 goes out at once;
   item 2 at 10200 is scheduled for 11000 and goes out then; item 3 at
   11100 is only 100 ms after that emission, so it is scheduled for 12000
   rather than emitted at once.
   */
  lemma IntervalScenario()
    ensures var (p1, h, _) := Subscribe(New<int>(1000));
            var p2 := Request(p1, h, 10).0;
            var (p3, t1) := Publish(p2, 1, 10000);
            var (p4, t2) := Publish(p3, 2, 10200);
            var (p5, t3) := RunDue(p4, 11000);
            var (p6, t4) := Publish(p5, 3, 11100);
            var (p7, t5) := RunDue(p6, 12000);
            && t1 == [OnNext(0, 1)] && p3.lastEmitTime == 10000
            && t2 == [] && p4.pending == [Task(11000, 2)] && p4.lastEmitTime == 10000
            && t3 == [OnNext(0, 2)] && p5.lastEmitTime == 11000 && p5.pending == []
            && t4 == [] && p6.pending == [Task(12000, 3)]
            && t5 == [OnNext(0, 3)] && p7.lastEmitTime == 12000 && p7.pending == []
  {
    IntervalEarly();
    IntervalLate(Publisher(1000, 10000, Subscriptions.Registry([Subscriptions.Sub(9, false)], [0]), [Task(11000, 2)]));
  }

  /** The first two publishes of the interval example: 1 goes out, 2 is deferred to 11000. */
  lemma IntervalEarly()
    ensures var (p1, h, _) := Subscribe(New<int>(1000));
            var p2 := Request(p1, h, 10).0;
            var (p3, t1) := Publish(p2, 1, 10000);
            var (p4, t2) := Publish(p3, 2, 10200);
            && t1 == [OnNext(0, 1)] && t2 == []
            && p3.lastEmitTime == 10000
            && p4 == Publisher(1000, 10000, Subscriptions.Registry([Subscriptions.Sub(9, false)], [0]), [Task(11000, 2)])
  {
    var (p1, h, _) := Subscribe(New<int>(1000));
    var p2 := Request(p1, h, 10).0;
    assert p2.reg == Subscriptions.Registry([Subscriptions.Sub(10, false)], [0]);
    var (p3, t1) := Publish(p2, 1, 10000);
    SoleSubscriberEmit(p2, 1, 10000);
    var (p4, t2) := Publish(p3, 2, 10200);
    assert p4.pending == [Task(11000, 2)];
  }

  /** The rest of the interval example, from the state after the first two publishes. */
  lemma IntervalLate(p4: Publisher<int>)
    requires p4 == Publisher(1000, 10000, Subscriptions.Registry([Subscriptions.Sub(9, false)], [0]), [Task(11000, 2)])
    ensures RunDue(p4, 11000)
            == (Publisher(1000, 11000, Subscriptions.Registry([Subscriptions.Sub(8, false)], [0]), []), [OnNext(0, 2)])
    ensures Publish(Publisher(1000, 11000, Subscriptions.Registry([Subscriptions.Sub(8, false)], [0]), []), 3, 11100)
            == (Publisher(1000, 11000, Subscriptions.Registry([Subscriptions.Sub(8, false)], [0]), [Task(12000, 3)]), [])
    ensures RunDue(Publisher(1000, 11000, Subscriptions.Registry([Subscriptions.Sub(8, false)], [0]), [Task(12000, 3)]), 12000)
            == (Publisher(1000, 12000, Subscriptions.Registry([Subscriptions.Sub(7, false)], [0]), []), [OnNext(0, 3)])
  {
    FireSole(p4, 9, 2, 11000);
    LatePublish(Publisher(1000, 11000, Subscriptions.Registry([Subscriptions.Sub(8, false)], [0]), []));
    FireSole(Publisher(1000, 11000, Subscriptions.Registry([Subscriptions.Sub(8, false)], [0]), [Task(12000, 3)]), 8, 3, 12000);
  }

  /** A publish 100 ms after an emission, with a 1000 ms interval, is deferred to 1000 ms after it. */
  lemma LatePublish(p5: Publisher<int>)
    requires p5 == Publisher(1000, 11000, Subscriptions.Registry([Subscriptions.Sub(8, false)], [0]), [])
    ensures Publish(p5, 3, 11100) == (p5.(pending := [Task(12000, 3)]), [])
  {
    assert Delay(1000, 11000, 11100) == 900;
    assert p5.pending + [Task(12000, 3)] == [Task(12000, 3)];
  }

  /** The one pending emission of a sole subscriber with demand, run at its fire time. */
  lemma FireSole<T>(p: Publisher<T>, n: nat, item: T, t: int)
    requires p.reg == Subscriptions.Registry([Subscriptions.Sub(n, false)], [0]) && n > 0
    requires p.pending == [Task(t, item)]
    ensures RunDue(p, t)
            == (p.(lastEmitTime := t, reg := Subscriptions.Registry([Subscriptions.Sub(n - 1, false)], [0]), pending := []),
                [OnNext(0, item)])
  {
    assert Valid(p);
    RunDueSingle(p, t);
    SoleSubscriberEmit(p.(pending := []), item, t);
  }

  /**
   Between registries `reg` and `reg'` every subscription kept its cancelled
   flag and its demand dropped by exactly what it received in `trace`;
   cancelled ones received nothing.
   */
  ghost predicate Accounted<T>(reg: Registry, reg': Registry, trace: seq<Signal<T>>)
  {
    && |reg'.subs| == |reg.subs|
    && forall g :: 0 <= g < |reg.subs| ==>
         && reg'.subs[g].cancelled == reg.subs[g].cancelled
         && reg'.subs[g].requested + |Delivered(trace, g)| == reg.subs[g].requested
         && (reg.subs[g].cancelled ==> Delivered(trace, g) == [])
  }

  lemma AccountedCompose<T>(reg: Registry, reg1: Registry, reg2: Registry,
                            t1: seq<Signal<T>>, t2: seq<Signal<T>>)
    requires Accounted(reg, reg1, t1) && Accounted(reg1, reg2, t2)
    ensures Accounted(reg, reg2, t1 + t2)
  {
    forall g | 0 <= g < |reg.subs|
      ensures Delivered(t1 + t2, g) == Delivered(t1, g) + Delivered(t2, g)
    {
      DeliveredConcat(t1, t2, g);
    }
  }

  lemma EmitAccounted<T>(p: Publisher<T>, item: T, time: int)
    requires Valid(p)
    ensures Accounted(p.reg, Emit(p, item, time).0.reg, Emit(p, item, time).1)
  {
  }

  /**
   However many scheduled emissions fire, a subscription never receives
   more than its demand, and a cancelled one receives nothing.
   */
  lemma {:induction false} RunDueAccounted<T>(p: Publisher<T>, now: int)
    requires Valid(p)
    ensures Accounted(p.reg, RunDue(p, now).0.reg, RunDue(p, now).1)
    decreases |p.pending|, 1
  {
    if |p.pending| > 0 && p.pending[Earliest(p.pending)].fireTime <= now {
      RunDueAccountedDue(p, now);
    } else {
      assert RunDue(p, now) == (p, []);
      AccountedNothing<T>(p.reg);
    }
  }

  lemma {:induction false} RunDueAccountedDue<T>(p: Publisher<T>, now: int)
    requires Valid(p) && |p.pending| > 0 && p.pending[Earliest(p.pending)].fireTime <= now
    ensures Accounted(p.reg, RunDue(p, now).0.reg, RunDue(p, now).1)
    decreases |p.pending|, 0
  {
    var i := Earliest(p.pending);
    var q := p.(pending := p.pending[..i] + p.pending[i + 1..]);
    var fired := Emit(q, p.pending[i].item, p.pending[i].fireTime);
    EmitAccounted(q, p.pending[i].item, p.pending[i].fireTime);
    RunDueAccounted(fired.0, now);
    var later := RunDue(fired.0, now);
    RunDueStep(p, now);
    AccountedCompose(q.reg, fired.0.reg, later.0.reg, fired.1, later.1);
  }

  lemma AccountedNothing<T>(reg: Registry)
    ensures Accounted<T>(reg, reg, [])
  {
    var none: seq<Signal<T>> := [];
    assert forall g :: 0 <= g < |reg.subs| ==> Delivered(none, g) == [];
  }

  // ---------------------------------------------------------------
  // The order in which the scheduler fires due tasks
  // ---------------------------------------------------------------

  /** The tasks of `tasks` scheduled for time `t`, in scheduling order. */
  function AtTime<T>(tasks: seq<Task<T>>, t: int): seq<Task<T>>
  {
    if |tasks| == 0 then []
    else (if tasks[0].fireTime == t then [tasks[0]] else []) + AtTime(tasks[1..], t)
  }

  /** The tasks of one fire time are drawn from the scheduled tasks. */
  lemma {:induction false} AtTimeIn<T>(tasks: seq<Task<T>>, t: int, k: nat)
    requires k < |AtTime(tasks, t)|
    ensures AtTime(tasks, t)[k] in tasks && AtTime(tasks, t)[k].fireTime == t
    decreases |tasks|
  {
    var head := if tasks[0].fireTime == t then [tasks[0]] else [];
    var tail := AtTime(tasks[1..], t);
    assert AtTime(tasks, t) == head + tail;
    if k >= |head| {
      AtTimeIn(tasks[1..], t, k - |head|);
      var x := tail[k - |head|];
      assert AtTime(tasks, t)[k] == x;
      var m :| 0 <= m < |tasks[1..]| && tasks[1..][m] == x;
      assert tasks[m + 1] == x;
    }
  }

  lemma {:induction false} AtTimeConcat<T>(a: seq<Task<T>>, b: seq<Task<T>>, t: int)
    ensures AtTime(a + b, t) == AtTime(a, t) + AtTime(b, t)
    decreases |a|
  {
    if |a| == 0 {
      assert a + b == b;
    } else {
      var head := if a[0].fireTime == t then [a[0]] else [];
      assert (a + b)[0] == a[0];
      assert (a + b)[1..] == a[1..] + b;
      assert AtTime(a + b, t) == head + AtTime(a[1..] + b, t);
      AtTimeConcat(a[1..], b, t);
      assert AtTime(a, t) == head + AtTime(a[1..], t);
    }
  }

  lemma {:induction false} AtTimeNone<T>(tasks: seq<Task<T>>, t: int)
    requires forall k :: 0 <= k < |tasks| ==> tasks[k].fireTime != t
    ensures AtTime(tasks, t) == []
    decreases |tasks|
  {
    if |tasks| > 0 {
      AtTimeNone(tasks[1..], t);
    }
  }

  /** Every task is among the tasks of its own fire time. */
  lemma {:induction false} AtTimeHas<T>(tasks: seq<Task<T>>, j: nat)
    requires j < |tasks|
    ensures tasks[j] in AtTime(tasks, tasks[j].fireTime)
    decreases j
  {
    var t := tasks[j].fireTime;
    var head := if tasks[0].fireTime == t then [tasks[0]] else [];
    assert AtTime(tasks, t) == head + AtTime(tasks[1..], t);
    if j > 0 {
      assert tasks[1..][j - 1] == tasks[j];
      AtTimeHas(tasks[1..], j - 1);
    }
  }

  /**
   Taking out the task at `i`, when every task before it fires strictly
   later, keeps the other tasks of every fire time in their order.
   */
  lemma AtTimeRemove<T>(pending: seq<Task<T>>, i: nat, t: int)
    requires i < |pending|
    requires forall j :: 0 <= j < i ==> pending[j].fireTime > pending[i].fireTime
    ensures AtTime(pending, t) == AtTime([pending[i]], t) + AtTime(pending[..i] + pending[i + 1..], t)
  {
    var x, pre, post := pending[i], pending[..i], pending[i + 1..];
    assert pending == pre + ([x] + post);
    AtTimeConcat(pre, [x] + post, t);
    AtTimeConcat([x], post, t);
    AtTimeConcat(pre, post, t);
    var a, b, c := AtTime(pre, t), AtTime([x], t), AtTime(post, t);
    assert AtTime(pending, t) == a + (b + c);
    if t == x.fireTime {
      AtTimeNone(pre, t);
      assert a == [];
      assert a + (b + c) == b + (a + c);
    } else {
      assert b == [] + AtTime([x][1..], t);
      assert [x][1..] == [];
      assert a + (b + c) == b + (a + c);
    }
  }

  /**
   The due tasks of `pending` in the order the scheduler runs them. They
   are all due and all scheduled, in non-decreasing fire time, and for
   every due instant they are exactly the tasks scheduled for it, in the
   order they were scheduled: each due task fires once, earliest first,
   ties in scheduling order.
   */
  function Fired<T>(pending: seq<Task<T>>, now: int): seq<Task<T>>
    decreases |pending|
  {
    if |pending| == 0 then []
    else
      var i := Earliest(pending);
      if pending[i].fireTime > now then []
      else [pending[i]] + Fired(pending[..i] + pending[i + 1..], now)
  }

  lemma {:induction false} FiredOrder<T>(pending: seq<Task<T>>, now: int)
    ensures forall k :: 0 <= k < |Fired(pending, now)| ==>
              Fired(pending, now)[k] in pending && Fired(pending, now)[k].fireTime <= now
    ensures forall k, l :: 0 <= k < l < |Fired(pending, now)| ==>
              Fired(pending, now)[k].fireTime <= Fired(pending, now)[l].fireTime
    ensures forall t :: t <= now ==> AtTime(Fired(pending, now), t) == AtTime(pending, t)
    decreases |pending|
  {
    if |pending| > 0 {
      var i := Earliest(pending);
      if pending[i].fireTime > now {
        forall t | t <= now
          ensures AtTime(pending, t) == []
        {
          AtTimeNone(pending, t);
        }
      } else {
        var rest := pending[..i] + pending[i + 1..];
        var f := Fired(rest, now);
        FiredOrder(rest, now);
        FiredStep(pending, i, f, now);
      }
    }
  }

  lemma FiredStep<T>(pending: seq<Task<T>>, i: nat, f: seq<Task<T>>, now: int)
    requires i < |pending| && pending[i].fireTime <= now
    requires forall j :: 0 <= j < |pending| ==> pending[i].fireTime <= pending[j].fireTime
    requires forall j :: 0 <= j < i ==> pending[j].fireTime > pending[i].fireTime
    requires var rest := pending[..i] + pending[i + 1..];
             && (forall k :: 0 <= k < |f| ==> f[k] in rest && f[k].fireTime <= now)
             && (forall k, l :: 0 <= k < l < |f| ==> f[k].fireTime <= f[l].fireTime)
             && (forall t :: t <= now ==> AtTime(f, t) == AtTime(rest, t))
    ensures var g := [pending[i]] + f;
            && (forall k :: 0 <= k < |g| ==> g[k] in pending && g[k].fireTime <= now)
            && (forall k, l :: 0 <= k < l < |g| ==> g[k].fireTime <= g[l].fireTime)
            && (forall t :: t <= now ==> AtTime(g, t) == AtTime(pending, t))
  {
    var rest := pending[..i] + pending[i + 1..];
    var g := [pending[i]] + f;
    forall k | 0 <= k < |f|
      ensures f[k] in pending && pending[i].fireTime <= f[k].fireTime
    {
      assert f[k] in rest;
      var m :| 0 <= m < |rest| && rest[m] == f[k];
      var j := if m < i then m else m + 1;
      assert pending[j] == f[k];
    }
    forall k | 0 <= k < |g|
      ensures g[k] in pending && g[k].fireTime <= now
    {
      if k > 0 { assert g[k] == f[k - 1]; }
    }
    forall k, l | 0 <= k < l < |g|
      ensures g[k].fireTime <= g[l].fireTime
    {
      assert g[l] == f[l - 1];
      if k > 0 { assert g[k] == f[k - 1]; }
    }
    forall t | t <= now
      ensures AtTime(g, t) == AtTime(pending, t)
    {
      AtTimeConcat([pending[i]], f, t);
      AtTimeRemove(pending, i, t);
    }
  }

  /** Every task due at `now` is among the fired ones. */
  lemma FiredHasDue<T>(pending: seq<Task<T>>, now: int, j: nat)
    requires j < |pending| && pending[j].fireTime <= now
    ensures pending[j] in Fired(pending, now)
  {
    var t := pending[j].fireTime;
    FiredOrder(pending, now);
    AtTimeHas(pending, j);
    var at := AtTime(Fired(pending, now), t);
    var k :| 0 <= k < |at| && at[k] == pending[j];
    AtTimeIn(Fired(pending, now), t, k);
  }

  /** Each scheduled task is either fired or still pending, exactly once. */
  lemma {:induction false} FiredPartition<T>(pending: seq<Task<T>>, now: int)
    ensures multiset(Fired(pending, now)) + multiset(NotDue(pending, now)) == multiset(pending)
    decreases |pending|
  {
    if |pending| > 0 {
      var i := Earliest(pending);
      if pending[i].fireTime > now {
        NoneDue(pending, now);
      } else {
        var rest := pending[..i] + pending[i + 1..];
        FiredPartition(rest, now);
        RemoveDue(pending, i, now);
        FiredUnfold(pending, now);
        TakeOut(pending, i);
        assert multiset(Fired(pending, now)) == multiset{pending[i]} + multiset(Fired(rest, now));
      }
    }
  }

  lemma TakeOut<T>(s: seq<T>, i: nat)
    requires i < |s|
    ensures multiset(s) == multiset(s[..i] + s[i + 1..]) + multiset{s[i]}
  {
    assert s == s[..i] + [s[i]] + s[i + 1..];
  }

  /**
   Running the scheduler neither loses nor duplicates a task: the fired
   tasks and the tasks left pending are together the tasks scheduled.
   */
  lemma RunDueConserves<T>(p: Publisher<T>, now: int)
    requires Valid(p)
    ensures multiset(Fired(p.pending, now)) + multiset(RunDue(p, now).0.pending) == multiset(p.pending)
  {
    FiredPartition(p.pending, now);
  }

  /** The items of `tasks`, in order. */
  function TaskItems<T>(tasks: seq<Task<T>>): (r: seq<T>)
    ensures |r| == |tasks|
  {
    if |tasks| == 0 then [] else [tasks[0].item] + TaskItems(tasks[1..])
  }

  /** With a task due, the earliest one fires first, then the rest. */
  lemma FiredUnfold<T>(pending: seq<Task<T>>, now: int)
    requires |pending| > 0 && pending[Earliest(pending)].fireTime <= now
    ensures Fired(pending, now)
            == [pending[Earliest(pending)]]
               + Fired(pending[..Earliest(pending)] + pending[Earliest(pending) + 1..], now)
  {
  }

  /** Emitting to a live subscription with demand delivers the item once and uses one unit of demand. */
  lemma {:induction false} EmitToLive<T>(q: Publisher<T>, item: T, time: int, h: nat)
    requires Valid(q) && h < |q.reg.subs| && h in q.reg.active && q.reg.subs[h].requested > 0
    ensures |Emit(q, item, time).0.reg.subs| == |q.reg.subs| && Emit(q, item, time).0.reg.active == q.reg.active
    ensures Emit(q, item, time).0.reg.subs[h].requested == q.reg.subs[h].requested - 1
    ensures Delivered(Emit(q, item, time).1, h) == [item]
  {
    assert IsActive(q.reg.subs[h]);
  }

  /** `RunDue` with nothing due fires nothing. */
  lemma RunDueIdle<T>(p: Publisher<T>, now: int)
    requires Valid(p)
    requires |p.pending| == 0 || p.pending[Earliest(p.pending)].fireTime > now
    ensures RunDue(p, now) == (p, []) && Fired(p.pending, now) == []
  {
  }

  /**
   A live subscription whose demand covers every due task receives the
   due items exactly once each, in firing order.
   */
  lemma RunDueDelivers<T>(p: Publisher<T>, now: int, h: nat)
    requires Valid(p) && h < |p.reg.subs| && h in p.reg.active
    requires |Fired(p.pending, now)| <= p.reg.subs[h].requested
    ensures Delivered(RunDue(p, now).1, h) == TaskItems(Fired(p.pending, now))
  {
    RunDueDeliversPrefix(p, now, h);
    assert TaskItems(Fired(p.pending, now))[..|Fired(p.pending, now)|] == TaskItems(Fired(p.pending, now));
  }

  lemma {:induction false} TaskItemsConsPrefix<T>(task: Task<T>, rest: seq<Task<T>>, k: nat)
    requires k <= |rest|
    ensures TaskItems([task] + rest)[..k + 1] == [task.item] + TaskItems(rest)[..k]
  {
    var a := TaskItems(rest);
    assert ([task] + rest)[1..] == rest;
    assert TaskItems([task] + rest) == [task.item] + a;
    assert ([task.item] + a)[..k + 1] == [task.item] + a[..k];
  }

  /** Emitting to a live subscription without demand delivers nothing to it and leaves it as it was. */
  lemma {:induction false} EmitToIdle<T>(q: Publisher<T>, item: T, time: int, h: nat)
    requires Valid(q) && h < |q.reg.subs| && q.reg.subs[h].requested == 0
    ensures |Emit(q, item, time).0.reg.subs| == |q.reg.subs| && Emit(q, item, time).0.reg.active == q.reg.active
    ensures Emit(q, item, time).0.reg.subs[h] == q.reg.subs[h]
    ensures Delivered(Emit(q, item, time).1, h) == []
  {
    assert !IsActive(q.reg.subs[h]);
  }

  /**
   A live subscription receives the first `min(demand, due)` due items,
   once each, in firing order; the due items beyond its demand are missed.
   */
  lemma {:induction false} RunDueDeliversPrefix<T>(p: Publisher<T>, now: int, h: nat)
    requires Valid(p) && h < |p.reg.subs| && h in p.reg.active
    ensures Delivered(RunDue(p, now).1, h)
            == TaskItems(Fired(p.pending, now))[..Min(p.reg.subs[h].requested, |Fired(p.pending, now)|)]
    decreases |p.pending|, 3
  {
    if |p.pending| > 0 && p.pending[Earliest(p.pending)].fireTime <= now {
      RunDueDeliversDue(p, now, h);
    } else {
      RunDueIdle(p, now);
    }
  }

  /** `RunDueDeliversPrefix` when a task is due: the earliest fires, then the rest of the run. */
  lemma {:induction false} RunDueDeliversDue<T>(p: Publisher<T>, now: int, h: nat)
    requires Valid(p) && h < |p.reg.subs| && h in p.reg.active
    requires |p.pending| > 0 && p.pending[Earliest(p.pending)].fireTime <= now
    ensures Delivered(RunDue(p, now).1, h)
            == TaskItems(Fired(p.pending, now))[..Min(p.reg.subs[h].requested, |Fired(p.pending, now)|)]
    decreases |p.pending|, 2
  {
    var next, trace := RunDueFirst(p, now, h);
    FiredUnfold(p.pending, now);
    RunDueDeliversAfter(next, now, h, trace, p.pending[Earliest(p.pending)], p.reg.subs[h].requested,
                        RunDue(p, now).1, Fired(p.pending, now));
  }

  /**
   The first step of a `RunDue` with a task due, as seen by a live
   subscription `h`: the earliest task's emission `trace` and the
   publisher `next` that the rest of the run starts from.
   */
  lemma {:induction false} RunDueFirst<T>(p: Publisher<T>, now: int, h: nat) returns (next: Publisher<T>, trace: seq<Signal<T>>)
    requires Valid(p) && h < |p.reg.subs| && h in p.reg.active
    requires |p.pending| > 0 && p.pending[Earliest(p.pending)].fireTime <= now
    ensures Valid(next) && h < |next.reg.subs| && h in next.reg.active
    ensures next.pending == p.pending[..Earliest(p.pending)] + p.pending[Earliest(p.pending) + 1..]
    ensures RunDue(p, now).1 == trace + RunDue(next, now).1
    ensures p.reg.subs[h].requested > 0 ==>
              next.reg.subs[h].requested == p.reg.subs[h].requested - 1
              && Delivered(trace, h) == [p.pending[Earliest(p.pending)].item]
    ensures p.reg.subs[h].requested == 0 ==> next.reg.subs[h].requested == 0 && Delivered(trace, h) == []
  {
    var i := Earliest(p.pending);
    var task := p.pending[i];
    var q := p.(pending := p.pending[..i] + p.pending[i + 1..]);
    var fired := Emit(q, task.item, task.fireTime);
    RunDueStepAt(p, now, q, fired);
    EmitToSub(q, task.item, task.fireTime, h);
    next, trace := fired.0, fired.1;
  }

  /** Emitting to a live subscription: with demand it gets the item once, without demand nothing. */
  lemma {:induction false} EmitToSub<T>(q: Publisher<T>, item: T, time: int, h: nat)
    requires Valid(q) && h < |q.reg.subs| && h in q.reg.active
    ensures Valid(Emit(q, item, time).0) && h < |Emit(q, item, time).0.reg.subs| && h in Emit(q, item, time).0.reg.active
    ensures q.reg.subs[h].requested > 0 ==>
              Emit(q, item, time).0.reg.subs[h].requested == q.reg.subs[h].requested - 1
              && Delivered(Emit(q, item, time).1, h) == [item]
    ensures q.reg.subs[h].requested == 0 ==>
              Emit(q, item, time).0.reg.subs[h].requested == 0 && Delivered(Emit(q, item, time).1, h) == []
  {
    if q.reg.subs[h].requested > 0 {
      EmitToLive(q, item, time, h);
    } else {
      EmitToIdle(q, item, time, h);
    }
  }

  /**
   The step of `RunDueDeliversPrefix` once the earliest task has been
   emitted: `trace` is that emission and `next` the publisher after it,
   whose subscription `h` had demand `n` before; `whole` and `fired` are
   the whole run's trace and firing order.
   */
  lemma {:induction false} RunDueDeliversAfter<T>(next: Publisher<T>, now: int, h: nat, trace: seq<Signal<T>>, task: Task<T>, n: nat,
                                                  whole: seq<Signal<T>>, fired: seq<Task<T>>)
    requires Valid(next) && h < |next.reg.subs| && h in next.reg.active
    requires n > 0 ==> next.reg.subs[h].requested == n - 1 && Delivered(trace, h) == [task.item]
    requires n == 0 ==> next.reg.subs[h].requested == 0 && Delivered(trace, h) == []
    requires whole == trace + RunDue(next, now).1 && fired == [task] + Fired(next.pending, now)
    ensures Delivered(whole, h) == TaskItems(fired)[..Min(n, |fired|)]
    decreases |next.pending| + 1, 1
  {
    RunDueDeliversPrefix(next, now, h);
    PrefixStep(trace, RunDue(next, now).1, h, task, Fired(next.pending, now), n);
  }

  /**
   What one emission and the rest of the run deliver together: the item,
   when there was demand, followed by what the rest delivers.
   */
  lemma {:induction false} PrefixStep<T>(trace: seq<Signal<T>>, later: seq<Signal<T>>, h: nat, task: Task<T>, f: seq<Task<T>>, n: nat)
    requires n > 0 ==> Delivered(trace, h) == [task.item]
    requires n == 0 ==> Delivered(trace, h) == []
    requires Delivered(later, h) == TaskItems(f)[..Min(if n > 0 then n - 1 else 0, |f|)]
    ensures Delivered(trace + later, h) == TaskItems([task] + f)[..Min(n, |f| + 1)]
  {
    DeliveredConcat(trace, later, h);
    if n > 0 {
      TaskItemsConsPrefix(task, f, Min(n - 1, |f|));
      assert Min(n, |f| + 1) == Min(n - 1, |f|) + 1;
    }
  }

  /** After `RunDue`, the last emission time is the fire time of the last task fired. */
  lemma {:induction false} RunDueStamps<T>(p: Publisher<T>, now: int)
    requires Valid(p)
    ensures RunDue(p, now).0.lastEmitTime
            == if |Fired(p.pending, now)| == 0 then p.lastEmitTime
               else Fired(p.pending, now)[|Fired(p.pending, now)| - 1].fireTime
    decreases |p.pending|, 2
  {
    if |p.pending| > 0 && p.pending[Earliest(p.pending)].fireTime <= now {
      RunDueStampsDue(p, now);
    } else {
      RunDueIdle(p, now);
    }
  }

  lemma {:induction false} RunDueStampsDue<T>(p: Publisher<T>, now: int)
    requires Valid(p) && |p.pending| > 0 && p.pending[Earliest(p.pending)].fireTime <= now
    ensures |Fired(p.pending, now)| > 0
    ensures RunDue(p, now).0.lastEmitTime == Fired(p.pending, now)[|Fired(p.pending, now)| - 1].fireTime
    decreases |p.pending|, 1
  {
    var i := Earliest(p.pending);
    var q := p.(pending := p.pending[..i] + p.pending[i + 1..]);
    var fired := Emit(q, p.pending[i].item, p.pending[i].fireTime);
    RunDueStepAt(p, now, q, fired);
    RunDueStampsAfter(p, now, fired.0);
  }

  /** The step of `RunDueStampsDue` once the earliest task has been emitted, giving `next`. */
  lemma {:induction false} RunDueStampsAfter<T>(p: Publisher<T>, now: int, next: Publisher<T>)
    requires Valid(p) && |p.pending| > 0 && p.pending[Earliest(p.pending)].fireTime <= now
    requires Valid(next) && next.lastEmitTime == p.pending[Earliest(p.pending)].fireTime
    requires next.pending == p.pending[..Earliest(p.pending)] + p.pending[Earliest(p.pending) + 1..]
    requires RunDue(p, now).0.lastEmitTime == RunDue(next, now).0.lastEmitTime
    ensures |Fired(p.pending, now)| > 0
    ensures RunDue(p, now).0.lastEmitTime == Fired(p.pending, now)[|Fired(p.pending, now)| - 1].fireTime
    decreases |p.pending|, 0
  {
    var task := p.pending[Earliest(p.pending)];
    RunDueStamps(next, now);
    var rest := Fired(next.pending, now);
    StampsCons(task, rest, RunDue(next, now).0.lastEmitTime);
    FiredUnfold(p.pending, now);
  }

  lemma StampsCons<T>(task: Task<T>, rest: seq<Task<T>>, last: int)
    requires last == if |rest| == 0 then task.fireTime else rest[|rest| - 1].fireTime
    ensures last == ([task] + rest)[|rest|].fireTime
  {
    if |rest| > 0 {
      assert ([task] + rest)[|rest|] == rest[|rest| - 1];
    }
  }

  /** No due task fires later than the last task `RunDue` fires. */
  lemma DueBeforeLastEmit<T>(p: Publisher<T>, now: int, j: nat)
    requires Valid(p) && j < |p.pending| && p.pending[j].fireTime <= now
    ensures p.pending[j].fireTime <= RunDue(p, now).0.lastEmitTime
  {
    var f := Fired(p.pending, now);
    RunDueStamps(p, now);
    FiredHasDue(p.pending, now, j);
    FiredOrder(p.pending, now);
    var k :| 0 <= k < |f| && f[k] == p.pending[j];
    assert k <= |f| - 1;
    if k < |f| - 1 {
      assert f[k].fireTime <= f[|f| - 1].fireTime;
    }
  }

  /** When a task is due, the last task `RunDue` fires is one of the due tasks. */
  lemma LastEmitIsDue<T>(p: Publisher<T>, now: int, j: nat)
    requires Valid(p) && j < |p.pending| && p.pending[j].fireTime <= now
    ensures exists m :: 0 <= m < |p.pending| && p.pending[m].fireTime <= now
                        && p.pending[m].fireTime == RunDue(p, now).0.lastEmitTime
  {
    var f := Fired(p.pending, now);
    RunDueStamps(p, now);
    FiredHasDue(p.pending, now, j);
    var m := FiredLastAt(p.pending, now);
  }

  /** The position among the scheduled tasks of the last task fired. */
  lemma FiredLastAt<T>(pending: seq<Task<T>>, now: int) returns (m: nat)
    requires |Fired(pending, now)| > 0
    ensures m < |pending| && pending[m] == Fired(pending, now)[|Fired(pending, now)| - 1]
    ensures pending[m].fireTime <= now
  {
    var f := Fired(pending, now);
    var g := f[|f| - 1];
    FiredOrder(pending, now);
    assert g in pending;
    m :| 0 <= m < |pending| && pending[m] == g;
  }

  /**
   After `RunDue`, the last emission time is the latest fire time among
   the tasks that were due, or unchanged when none was.
   */
  lemma RunDueLastEmit<T>(p: Publisher<T>, now: int)
    requires Valid(p)
    ensures var r := RunDue(p, now);
            && (forall j :: 0 <= j < |p.pending| && p.pending[j].fireTime <= now ==>
                  p.pending[j].fireTime <= r.0.lastEmitTime)
            && ((exists j :: 0 <= j < |p.pending| && p.pending[j].fireTime <= now) ==>
                  exists j :: 0 <= j < |p.pending| && p.pending[j].fireTime <= now
                              && p.pending[j].fireTime == r.0.lastEmitTime)
            && ((forall j :: 0 <= j < |p.pending| ==> p.pending[j].fireTime > now) ==>
                  r.0.lastEmitTime == p.lastEmitTime)
  {
    forall j | 0 <= j < |p.pending| && p.pending[j].fireTime <= now
      ensures p.pending[j].fireTime <= RunDue(p, now).0.lastEmitTime
    {
      DueBeforeLastEmit(p, now, j);
    }
    if exists j :: 0 <= j < |p.pending| && p.pending[j].fireTime <= now {
      var j :| 0 <= j < |p.pending| && p.pending[j].fireTime <= now;
      LastEmitIsDue(p, now, j);
    }
  }

  /** Tasks due at the same instant fire in scheduling order; an earlier instant fires first. */
  lemma FiredExample()
    ensures Fired([Task(12000, 1), Task(11000, 2), Task(11000, 3)], 12000)
            == [Task(11000, 2), Task(11000, 3), Task(12000, 1)]
  {
    var pending := [Task(12000, 1), Task(11000, 2), Task(11000, 3)];
    assert Earliest(pending) == 1;
    var r1 := [Task(12000, 1), Task(11000, 3)];
    assert pending[..1] + pending[2..] == r1;
    assert Earliest(r1) == 1;
    var r2 := [Task(12000, 1)];
    assert r1[..1] + r1[2..] == r2;
    assert Fired(r2, 12000) == [Task(12000, 1)] + Fired([], 12000);
  }

  /**
   Two items published within one interval are both scheduled for the same
   instant, one interval after the last emission, and both go out then:
   consecutive emissions are not kept `minInterval` apart.
   */
  lemma SameInstantScenario()
    ensures var (p1, h, _) := Subscribe(New<int>(1000));
            var p2 := Request(p1, h, 10).0;
            var p3 := Publish(p2, 1, 10000).0;
            var (p4, t2) := Publish(p3, 2, 10200);
            var (p5, t3) := Publish(p4, 3, 10300);
            && t2 == [] && t3 == []
            && p5.pending == [Task(11000, 2), Task(11000, 3)]
  {
    var (p1, h, _) := Subscribe(New<int>(1000));
    var p2 := Request(p1, h, 10).0;
    var p3 := Publish(p2, 1, 10000).0;
    assert p3.lastEmitTime == 10000;
  }

  /**
   The first publish of a new publisher, at a time less than one interval
   after 0, is deferred to time `minInterval`.
   */
  lemma FirstPublishDeferred(minInterval: int, now: int)
    requires 0 <= now < minInterval
    ensures Publish(New<int>(minInterval), 7, now).1 == []
    ensures Publish(New<int>(minInterval), 7, now).0.pending == [Task(minInterval, 7)]
    ensures Publish(New<int>(minInterval), 7, now).0.lastEmitTime == 0
  {
  }

  /**
   A subscription that has not requested anything misses an emission: the
   item is neither delivered nor kept for later.
   */
  lemma ZeroDemandMisses()
    ensures var (p1, h, _) := Subscribe(New<int>(1000));
            var (p2, t) := Publish(p1, 1, 10000);
            t == [] && p2.pending == [] && p2.reg == p1.reg && p2.lastEmitTime == 10000
  {
    var (p1, h, _) := Subscribe(New<int>(1000));
    assert p1.reg.subs == [Subscriptions.Sub(0, false)] && p1.reg.active == [0];
    SoleSubscriberEmit(p1, 1, 10000);
  }

  /**
   Demand granted by `request(n)` is spent by the next emission: a live
   subscription receives the item once and keeps n - 1 of the new demand.
   Every other subscription fares as if nothing had been requested.
   */
  lemma {:induction false} RequestThenEmit<T>(p: Publisher<T>, h: nat, n: int, item: T, time: int)
    requires Valid(p) && h < |p.reg.subs| && h in p.reg.active && n > 0
    ensures Delivered(Emit(Request(p, h, n).0, item, time).1, h) == [item]
    ensures Emit(Request(p, h, n).0, item, time).0.reg.subs[h].requested == p.reg.subs[h].requested + n - 1
    ensures forall g :: 0 <= g < |p.reg.subs| && g != h ==>
              && Emit(Request(p, h, n).0, item, time).0.reg.subs[g] == Emit(p, item, time).0.reg.subs[g]
              && Delivered(Emit(Request(p, h, n).0, item, time).1, g) == Delivered(Emit(p, item, time).1, g)
  {
    var q := Request(p, h, n).0;
    assert q.reg.subs[h].requested == p.reg.subs[h].requested + n;
    EmitToLive(q, item, time, h);
    EmitFrame(q.reg, p.reg, h, item, Emit(q, item, time).0.reg, Emit(q, item, time).1,
              Emit(p, item, time).0.reg, Emit(p, item, time).1);
  }

  /** Two registries that differ only at `h` see the same emission everywhere else. */
  lemma {:induction false} EmitFrame<T>(a: Registry, b: Registry, h: nat, item: T,
                                        a': Registry, ta: seq<Signal<T>>, b': Registry, tb: seq<Signal<T>>)
    requires |a.subs| == |b.subs| && a.active == b.active
    requires forall g :: 0 <= g < |a.subs| && g != h ==> a.subs[g] == b.subs[g]
    requires EmittedTo(a, a', a.active, item, ta) && EmittedTo(b, b', b.active, item, tb)
    ensures forall g :: 0 <= g < |b.subs| && g != h ==> a'.subs[g] == b'.subs[g] && Delivered(ta, g) == Delivered(tb, g)
  {
  }
}
