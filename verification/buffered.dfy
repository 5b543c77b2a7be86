/**
 BufferedPublisher: a bounded FIFO buffer shared by all subscriptions.
 `publish` drops the new item when the buffer is full and otherwise appends
 it and lets every subscription try to dispatch; a subscription's dispatch
 polls items off the head of the buffer while it has demand. Because
 polling removes the item, the subscriptions compete for the items: the
 publisher distributes work, it does not broadcast.
 */
module Buffered {
  import opened Signals
  import Subscriptions

  type Registry = Subscriptions.Registry

  datatype Publisher<T> = Publisher(buffer: seq<T>, maxBufferSize: int, reg: Registry)

  /**
   The buffer never holds more than `maxBufferSize` items, and the
   subscription registry is consistent.
   */
  predicate Valid<T>(p: Publisher<T>)
  {
    && Subscriptions.Valid(p.reg)
    && (|p.buffer| == 0 || |p.buffer| <= p.maxBufferSize)
  }

  /** A new publisher: empty buffer, no subscriptions. */
  function New<T>(maxBufferSize: int): (p: Publisher<T>)
    ensures Valid(p) && p.buffer == [] && p.maxBufferSize == maxBufferSize
    ensures p.reg == Subscriptions.Empty() && p.reg.active == []
  {
    Publisher([], maxBufferSize, Subscriptions.Empty())
  }

  /**
   `subscribe`: registers a subscription with no demand and calls the
   subscriber's onSubscribe. No buffered item is delivered by this.
   */
  function Subscribe<T>(p: Publisher<T>): (r: (Publisher<T>, nat, seq<Signal<T>>))
    ensures r.1 == |p.reg.subs| && r.1 in r.0.reg.active
    ensures r.0.reg.subs == p.reg.subs + [Subscriptions.Sub(0, false)]
    ensures r.0.buffer == p.buffer && r.0.maxBufferSize == p.maxBufferSize
    ensures r.2 == [OnSubscribe(r.1)] && Items(r.2) == []
    ensures Valid(p) ==> Valid(r.0)
  {
    var (reg, h) := Subscriptions.Subscribe(p.reg);
    (p.(reg := reg), h, [OnSubscribe(h)])
  }

  /**
   The dispatch loop of subscription `h`: while its demand is positive and
   the buffer is not empty, poll the head item, hand it to onNext and lower
   the demand by one. Returns the remaining buffer, the remaining demand and
   the callbacks made.
   */
  function Drain<T>(buffer: seq<T>, requested: nat, h: nat): (r: (seq<T>, nat, seq<Signal<T>>))
    ensures var k := Min(requested, |buffer|);
            && r.0 == buffer[k..]
            && r.1 == requested - k
            && r.2 == Deliveries(h, buffer[..k])
    decreases |buffer|
  {
    if requested > 0 && |buffer| > 0 then
      var (rest, left, trace) := Drain(buffer[1..], requested - 1, h);
      var k := Min(requested, |buffer|);
      assert buffer[1..][Min(requested - 1, |buffer| - 1)..] == buffer[k..];
      assert buffer[..k][1..] == buffer[1..][..k - 1];
      assert Deliveries(h, buffer[..k]) == [OnNext(h, buffer[0])] + trace;
      (rest, left, [OnNext(h, buffer[0])] + trace)
    else
      (buffer, requested, [])
  }

  /**
   `tryDispatch` of subscription `h`: nothing when it is cancelled;
   otherwise it receives the first min(demand, |buffer|) buffered items in
   FIFO order, they leave the buffer, and its demand drops by their number.
   */
  function TryDispatch<T>(p: Publisher<T>, h: nat): (r: (Publisher<T>, seq<Signal<T>>))
    requires h < |p.reg.subs|
    ensures var s := p.reg.subs[h];
            var k := if s.cancelled then 0 else Min(s.requested, |p.buffer|);
            && r.1 == Deliveries(h, p.buffer[..k])
            && r.0.buffer == p.buffer[k..]
            && r.0.maxBufferSize == p.maxBufferSize
            && r.0.reg == Subscriptions.WithDemand(p.reg, h, s.requested - k)
    ensures !p.reg.subs[h].cancelled ==> r.0.reg.subs[h].requested == 0 || r.0.buffer == []
  {
    var s := p.reg.subs[h];
    if s.cancelled then
      assert p.reg.subs[h := s] == p.reg.subs;
      (p, [])
    else
      var (rest, left, trace) := Drain(p.buffer, s.requested, h);
      (p.(buffer := rest, reg := Subscriptions.WithDemand(p.reg, h, left)), trace)
  }

  /**
   Between `p` and `q` the trace `trace` of onNext callbacks moved items to
   subscriptions: every subscription keeps its cancelled flag and its demand
   dropped by exactly the number of items it received; cancelled ones and
   those outside `hs` received nothing.
   */
  ghost predicate Accounted<T>(p: Publisher<T>, q: Publisher<T>, hs: seq<nat>, trace: seq<Signal<T>>)
  {
    && q.maxBufferSize == p.maxBufferSize && q.reg.active == p.reg.active
    && |q.reg.subs| == |p.reg.subs|
    && (forall g :: 0 <= g < |p.reg.subs| ==>
          && q.reg.subs[g].cancelled == p.reg.subs[g].cancelled
          && q.reg.subs[g].requested + |Delivered(trace, g)| == p.reg.subs[g].requested)
    && (forall g :: g !in hs ==> Delivered(trace, g) == [])
    && (forall g :: 0 <= g < |p.reg.subs| && p.reg.subs[g].cancelled ==> Delivered(trace, g) == [])
    && (forall i :: 0 <= i < |trace| ==> trace[i].OnNext?)
  }

  lemma TryDispatchAccounted<T>(p: Publisher<T>, h: nat)
    requires h < |p.reg.subs|
    ensures Accounted(p, TryDispatch(p, h).0, [h], TryDispatch(p, h).1)
  {
    var (q, t) := TryDispatch(p, h);
    forall g | g !in [h] ensures Delivered(t, g) == [] {
      assert g != h;
    }
  }

  lemma TryDispatchConserves<T>(p: Publisher<T>, h: nat)
    requires h < |p.reg.subs|
    ensures Items(TryDispatch(p, h).1) + TryDispatch(p, h).0.buffer == p.buffer
  {
    var s := p.reg.subs[h];
    var k := if s.cancelled then 0 else Min(s.requested, |p.buffer|);
    assert p.buffer[..k] + p.buffer[k..] == p.buffer;
  }

  lemma AccountedCompose<T>(p: Publisher<T>, p1: Publisher<T>, p2: Publisher<T>, hs: seq<nat>,
                            t1: seq<Signal<T>>, t2: seq<Signal<T>>)
    requires |hs| > 0
    requires Accounted(p, p1, [hs[0]], t1) && Accounted(p1, p2, hs[1..], t2)
    ensures Accounted(p, p2, hs, t1 + t2)
  {
    forall g ensures Delivered(t1 + t2, g) == Delivered(t1, g) + Delivered(t2, g) {
      DeliveredConcat(t1, t2, g);
    }
    forall g | g !in hs ensures Delivered(t1 + t2, g) == [] {
      assert g != hs[0] && g !in hs[1..];
    }
  }

  /**
   Runs `tryDispatch` on the subscriptions `hs`, in order. The items handed
   out, in trace order, followed by what stays buffered, are exactly the
   buffer before: every item goes to at most one subscription, in FIFO
   order. Each subscription's demand drops by what it received.
   */
  function DispatchAll<T>(p: Publisher<T>, hs: seq<nat>): (r: (Publisher<T>, seq<Signal<T>>))
    requires Subscriptions.Handles(p.reg, hs)
    ensures Items(r.1) + r.0.buffer == p.buffer
    ensures |r.0.reg.subs| == |p.reg.subs|
    decreases |hs|
  {
    if |hs| == 0 then
      (p, [])
    else
      var first := TryDispatch(p, hs[0]);
      TryDispatchConserves(p, hs[0]);
      var rest := DispatchAll(first.0, hs[1..]);
      ConservesChain(first.1, rest.1, p.buffer, first.0.buffer, rest.0.buffer);
      (rest.0, first.1 + rest.1)
  }

  /** Handing out `t1` then `t2` conserves the items when each step does. */
  lemma ConservesChain<T>(t1: seq<Signal<T>>, t2: seq<Signal<T>>, b0: seq<T>, b1: seq<T>, b2: seq<T>)
    requires Items(t1) + b1 == b0 && Items(t2) + b2 == b1
    ensures Items(t1 + t2) + b2 == b0
  {
    ItemsConcat(t1, t2);
  }

  lemma {:induction false} DispatchAllAccounted<T>(p: Publisher<T>, hs: seq<nat>)
    requires Subscriptions.Handles(p.reg, hs)
    ensures Accounted(p, DispatchAll(p, hs).0, hs, DispatchAll(p, hs).1)
    decreases |hs|
  {
    if |hs| > 0 {
      var first := TryDispatch(p, hs[0]);
      TryDispatchAccounted(p, hs[0]);
      DispatchAllAccounted(first.0, hs[1..]);
      var rest := DispatchAll(first.0, hs[1..]);
      AccountedCompose(p, first.0, rest.0, hs, first.1, rest.1);
    }
  }

  /**
   `publish(item)`: when the buffer already holds `maxBufferSize` items the
   new item is dropped and nothing changes; otherwise it is appended and
   every active subscription, in registration order, tries to dispatch.
   */
  function Publish<T>(p: Publisher<T>, item: T): (r: (Publisher<T>, seq<Signal<T>>))
    requires Subscriptions.Handles(p.reg, p.reg.active)
    ensures |p.buffer| >= p.maxBufferSize ==> r == (p, [])
    ensures |p.buffer| < p.maxBufferSize ==> Items(r.1) + r.0.buffer == p.buffer + [item]
    ensures r.0.maxBufferSize == p.maxBufferSize && r.0.reg.active == p.reg.active
    ensures |r.0.reg.subs| == |p.reg.subs|
    ensures forall g :: 0 <= g < |p.reg.subs| ==>
              && r.0.reg.subs[g].cancelled == p.reg.subs[g].cancelled
              && r.0.reg.subs[g].requested + |Delivered(r.1, g)| == p.reg.subs[g].requested
    ensures forall g :: g !in p.reg.active ==> Delivered(r.1, g) == []
    ensures forall i :: 0 <= i < |r.1| ==> r.1[i].OnNext?
    ensures Valid(p) ==> Valid(r.0)
  {
    if |p.buffer| >= p.maxBufferSize then
      (p, [])
    else
      var appended := p.(buffer := p.buffer + [item]);
      DispatchAllAccounted(appended, p.reg.active);
      DispatchAll(appended, p.reg.active)
  }

  /**
   `request(n)` on subscription `h`: for n <= 0 the subscriber's onError is
   called and nothing else happens; otherwise the demand grows by n and the
   subscription tries to dispatch.
   */
  function Request<T>(p: Publisher<T>, h: nat, n: int): (r: (Publisher<T>, seq<Signal<T>>))
    requires h < |p.reg.subs|
    ensures n <= 0 ==> r == (p, [OnError(h, NonPositiveRequest)])
    ensures n > 0 ==>
              var s := p.reg.subs[h];
              var k := if s.cancelled then 0 else Min(s.requested + n, |p.buffer|);
              && r.1 == Deliveries(h, p.buffer[..k])
              && r.0.buffer == p.buffer[k..]
              && r.0.maxBufferSize == p.maxBufferSize
              && r.0.reg == Subscriptions.WithDemand(p.reg, h, s.requested + n - k)
    ensures n > 0 && !p.reg.subs[h].cancelled ==> r.0.reg.subs[h].requested == 0 || r.0.buffer == []
    ensures Valid(p) ==> Valid(r.0)
  {
    if n <= 0 then
      (p, [OnError(h, NonPositiveRequest)])
    else
      var s := p.reg.subs[h];
      var p1 := p.(reg := Subscriptions.WithDemand(p.reg, h, s.requested + n));
      assert Subscriptions.WithDemand(p1.reg, h, s.requested + n - (if s.cancelled then 0 else Min(s.requested + n, |p.buffer|)))
          == Subscriptions.WithDemand(p.reg, h, s.requested + n - (if s.cancelled then 0 else Min(s.requested + n, |p.buffer|)));
      TryDispatch(p1, h)
  }

  /**
   `cancel()` of subscription `h`: marks it cancelled and removes it from
   the active list; the buffer is untouched and nothing is delivered.
   */
  function Cancel<T>(p: Publisher<T>, h: nat): (r: Publisher<T>)
    requires h < |p.reg.subs|
    ensures r.buffer == p.buffer && r.maxBufferSize == p.maxBufferSize
    ensures r.reg == Subscriptions.Cancel(p.reg, h)
    ensures Valid(p) ==> Valid(r) && h !in r.reg.active && r.reg.subs[h].cancelled
  {
    p.(reg := Subscriptions.Cancel(p.reg, h))
  }

  lemma CancelIdempotent<T>(p: Publisher<T>, h: nat)
    requires Valid(p) && h < |p.reg.subs|
    ensures Cancel(Cancel(p, h), h) == Cancel(p, h)
  {
    Subscriptions.CancelIdempotent(p.reg, h);
  }
}

module BufferedProperties {
  import opened Signals
  import Subscriptions
  import opened Buffered

  /** A subscription that would take an item if one were buffered. */
  predicate Ready(s: Subscriptions.Sub)
  {
    !s.cancelled && s.requested > 0
  }

  /**
   No live subscription has demand while items wait in the buffer: a
   subscription with demand would already have taken them.
   */
  predicate Quiescent<T>(p: Publisher<T>)
  {
    forall h :: 0 <= h < |p.reg.subs| && Ready(p.reg.subs[h]) ==> p.buffer == []
  }

  /** The position in `hs` of the first ready subscription, or |hs|. */
  function FirstReady(reg: Subscriptions.Registry, hs: seq<nat>): (i: nat)
    requires Subscriptions.Handles(reg, hs)
    ensures i <= |hs|
    ensures i < |hs| ==> Ready(reg.subs[hs[i]])
    ensures forall j :: 0 <= j < i ==> !Ready(reg.subs[hs[j]])
  {
    if |hs| == 0 then 0
    else if Ready(reg.subs[hs[0]]) then 0
    else 1 + FirstReady(reg, hs[1..])
  }

  /** A dispatch attempt that cannot hand anything out changes nothing. */
  lemma TryDispatchIdle<T>(p: Publisher<T>, h: nat)
    requires h < |p.reg.subs|
    requires !Ready(p.reg.subs[h]) || p.buffer == []
    ensures TryDispatch(p, h) == (p, [])
  {
    var s := p.reg.subs[h];
    assert p.reg.subs[h := Subscriptions.Sub(s.requested, s.cancelled)] == p.reg.subs;
    assert p.buffer[0..] == p.buffer;
  }

  lemma {:induction false} DispatchAllIdle<T>(p: Publisher<T>, hs: seq<nat>)
    requires Subscriptions.Handles(p.reg, hs)
    requires p.buffer == [] || forall j :: 0 <= j < |hs| ==> !Ready(p.reg.subs[hs[j]])
    ensures DispatchAll(p, hs) == (p, [])
    decreases |hs|
  {
    if |hs| > 0 {
      TryDispatchIdle(p, hs[0]);
      DispatchAllIdle(p, hs[1..]);
    }
  }

  lemma DispatchAllUnfold<T>(p: Publisher<T>, hs: seq<nat>)
    requires Subscriptions.Handles(p.reg, hs) && |hs| > 0
    ensures var first := TryDispatch(p, hs[0]);
            var rest := DispatchAll(first.0, hs[1..]);
            DispatchAll(p, hs) == (rest.0, first.1 + rest.1)
  {
  }

  /** A ready subscription takes the single buffered item. */
  lemma TryDispatchSingle<T>(p: Publisher<T>, h: nat)
    requires h < |p.reg.subs| && Ready(p.reg.subs[h]) && |p.buffer| == 1
    ensures TryDispatch(p, h)
            == (p.(buffer := [], reg := Subscriptions.WithDemand(p.reg, h, p.reg.subs[h].requested - 1)),
                [OnNext(h, p.buffer[0])])
  {
    var s := p.reg.subs[h];
    assert Min(s.requested, |p.buffer|) == 1;
    var r := TryDispatch(p, h);
    assert p.buffer[..1] == [p.buffer[0]];
    assert Deliveries(h, [p.buffer[0]]) == [OnNext(h, p.buffer[0])];
    assert r.1 == [OnNext(h, p.buffer[0])];
    assert r.0.buffer == [];
    assert r.0.reg == Subscriptions.WithDemand(p.reg, h, s.requested - 1);
  }

  /**
   With a single buffered item, the first ready subscription of `hs` takes
   it and nobody else gets anything.
   */
  lemma DispatchAllSingle<T>(p: Publisher<T>, hs: seq<nat>)
    requires Subscriptions.Handles(p.reg, hs) && |p.buffer| == 1 && FirstReady(p.reg, hs) < |hs|
    ensures var h := hs[FirstReady(p.reg, hs)];
            DispatchAll(p, hs)
            == (p.(buffer := [], reg := Subscriptions.WithDemand(p.reg, h, p.reg.subs[h].requested - 1)),
                [OnNext(h, p.buffer[0])])
  {
    DispatchAllSingleAt(p, hs, FirstReady(p.reg, hs));
  }

  /** `DispatchAllSingle` with the position of the first ready subscription given. */
  lemma {:induction false} DispatchAllSingleAt<T>(p: Publisher<T>, hs: seq<nat>, i: nat)
    requires Subscriptions.Handles(p.reg, hs) && |p.buffer| == 1 && i < |hs|
    requires Ready(p.reg.subs[hs[i]]) && forall j :: 0 <= j < i ==> !Ready(p.reg.subs[hs[j]])
    ensures DispatchAll(p, hs)
            == (p.(buffer := [], reg := Subscriptions.WithDemand(p.reg, hs[i], p.reg.subs[hs[i]].requested - 1)),
                [OnNext(hs[i], p.buffer[0])])
    decreases i
  {
    if i == 0 {
      DispatchAllSingleTakes(p, hs);
    } else {
      var tail := hs[1..];
      assert tail[i - 1] == hs[i];
      forall j | 0 <= j < i - 1
        ensures !Ready(p.reg.subs[tail[j]])
      {
        assert tail[j] == hs[j + 1];
      }
      DispatchAllSingleAt(p, tail, i - 1);
      DispatchAllSingleSkips(p, hs);
    }
  }

  /** The head of `hs` is ready: it takes the item and the rest get nothing. */
  lemma DispatchAllSingleTakes<T>(p: Publisher<T>, hs: seq<nat>)
    requires Subscriptions.Handles(p.reg, hs) && |p.buffer| == 1 && |hs| > 0 && Ready(p.reg.subs[hs[0]])
    ensures DispatchAll(p, hs)
            == (p.(buffer := [], reg := Subscriptions.WithDemand(p.reg, hs[0], p.reg.subs[hs[0]].requested - 1)),
                [OnNext(hs[0], p.buffer[0])])
  {
    var h := hs[0];
    DispatchAllUnfold(p, hs);
    TryDispatchSingle(p, h);
    var q := p.(buffer := [], reg := Subscriptions.WithDemand(p.reg, h, p.reg.subs[h].requested - 1));
    DispatchAllIdle(q, hs[1..]);
    assert [OnNext(h, p.buffer[0])] + [] == [OnNext(h, p.buffer[0])];
  }

  /** The head of `hs` is not ready: dispatching over `hs` is dispatching over the rest. */
  lemma DispatchAllSingleSkips<T>(p: Publisher<T>, hs: seq<nat>)
    requires Subscriptions.Handles(p.reg, hs) && |hs| > 0 && !Ready(p.reg.subs[hs[0]])
    ensures DispatchAll(p, hs) == DispatchAll(p, hs[1..])
  {
    var first := TryDispatch(p, hs[0]);
    TryDispatchIdle(p, hs[0]);
    assert first.0 == p;
    assert first.1 == [];
    var rest := DispatchAll(p, hs[1..]);
    assert DispatchAll(p, hs) == (rest.0, first.1 + rest.1);
    assert first.1 + rest.1 == rest.1;
  }

  lemma PublishUnfold<T>(p: Publisher<T>, item: T)
    requires Subscriptions.Handles(p.reg, p.reg.active) && |p.buffer| < p.maxBufferSize
    ensures Publish(p, item) == DispatchAll(p.(buffer := p.buffer + [item]), p.reg.active)
  {
  }

  /**
   Under quiescence, `publish` below capacity either just queues the item
   (items are already waiting, or no active subscription has demand) or
   hands it to the first active subscription, in registration order, that
   has demand; afterwards the publisher is quiescent again.
   */
  lemma PublishFirstReady<T>(p: Publisher<T>, item: T)
    requires Valid(p) && Quiescent(p) && |p.buffer| < p.maxBufferSize
    ensures var r := Publish(p, item);
            var i := FirstReady(p.reg, p.reg.active);
            && (p.buffer != [] ==> r == (p.(buffer := p.buffer + [item]), []))
            && (p.buffer == [] && i < |p.reg.active| ==>
                  r.1 == [OnNext(p.reg.active[i], item)] && r.0.buffer == [])
            && (p.buffer == [] && i == |p.reg.active| ==> r == (p.(buffer := [item]), []))
            && Quiescent(r.0)
  {
    if p.buffer != [] {
      PublishBehindWaiting(p, item);
    } else {
      PublishOnEmpty(p, item);
    }
  }

  lemma PublishBehindWaiting<T>(p: Publisher<T>, item: T)
    requires Valid(p) && Quiescent(p) && |p.buffer| < p.maxBufferSize && p.buffer != []
    ensures Publish(p, item) == (p.(buffer := p.buffer + [item]), [])
    ensures Quiescent(p.(buffer := p.buffer + [item]))
  {
    var hs := p.reg.active;
    var q := p.(buffer := p.buffer + [item]);
    assert Subscriptions.Handles(q.reg, hs);
    forall j | 0 <= j < |hs|
      ensures !Ready(q.reg.subs[hs[j]])
    {
      assert hs[j] < |p.reg.subs|;
    }
    DispatchAllIdle(q, hs);
    PublishUnfold(p, item);
  }

  lemma PublishOnEmpty<T>(p: Publisher<T>, item: T)
    requires Valid(p) && Quiescent(p) && 0 < p.maxBufferSize && p.buffer == []
    ensures var r := Publish(p, item);
            var i := FirstReady(p.reg, p.reg.active);
            && (i < |p.reg.active| ==> r.1 == [OnNext(p.reg.active[i], item)] && r.0.buffer == [])
            && (i == |p.reg.active| ==> r == (p.(buffer := [item]), []))
            && Quiescent(r.0)
  {
    if FirstReady(p.reg, p.reg.active) < |p.reg.active| {
      PublishOnEmptyReady(p, item);
    } else {
      PublishOnEmptyIdle(p, item);
    }
  }

  lemma PublishOnEmptyReady<T>(p: Publisher<T>, item: T)
    requires Valid(p) && 0 < p.maxBufferSize && p.buffer == []
    requires FirstReady(p.reg, p.reg.active) < |p.reg.active|
    ensures Publish(p, item).1 == [OnNext(p.reg.active[FirstReady(p.reg, p.reg.active)], item)]
    ensures Publish(p, item).0.buffer == []
  {
    var q := p.(buffer := [item]);
    PublishUnfoldEmpty(p, item);
    assert q.reg == p.reg && q.buffer[0] == item;
    DispatchAllSingle(q, p.reg.active);
  }

  lemma PublishUnfoldEmpty<T>(p: Publisher<T>, item: T)
    requires Valid(p) && 0 < p.maxBufferSize && p.buffer == []
    ensures Publish(p, item) == DispatchAll(p.(buffer := [item]), p.reg.active)
  {
    PublishUnfold(p, item);
    assert p.(buffer := p.buffer + [item]) == p.(buffer := [item]);
  }

  lemma PublishOnEmptyIdle<T>(p: Publisher<T>, item: T)
    requires Valid(p) && Quiescent(p) && 0 < p.maxBufferSize && p.buffer == []
    requires FirstReady(p.reg, p.reg.active) == |p.reg.active|
    ensures Publish(p, item) == (p.(buffer := [item]), []) && Quiescent(p.(buffer := [item]))
  {
    var hs := p.reg.active;
    var q := p.(buffer := [item]);
    PublishUnfold(p, item);
    assert p.(buffer := p.buffer + [item]) == q;
    DispatchAllIdle(q, hs);
    assert forall h :: 0 <= h < |p.reg.subs| && !p.reg.subs[h].cancelled ==> h in hs;
    assert forall h :: h in hs ==> !Ready(p.reg.subs[h]);
  }

  lemma RequestKeepsQuiescent<T>(p: Publisher<T>, h: nat, n: int)
    requires Quiescent(p) && h < |p.reg.subs|
    ensures Quiescent(Request(p, h, n).0)
  {
  }

  lemma SubscribeKeepsQuiescent<T>(p: Publisher<T>)
    requires Quiescent(p)
    ensures Quiescent(Subscribe(p).0)
  {
  }

  lemma CancelKeepsQuiescent<T>(p: Publisher<T>, h: nat)
    requires Quiescent(p) && h < |p.reg.subs|
    ensures Quiescent(Cancel(p, h))
  {
  }

  /** Capacity 3: of four items published with nobody subscribed, the fourth is dropped. */
  lemma DropNewestFills()
    ensures var p1 := Publish(New<string>(3), "A").0;
            var p2 := Publish(p1, "B").0;
            var p3 := Publish(p2, "C").0;
            var p4 := Publish(p3, "D").0;
            p4 == Publisher(["A", "B", "C"], 3, Subscriptions.Empty())
  {
    var p0 := New<string>(3);
    var p1 := Publish(p0, "A").0;
    assert p1 == Publisher(["A"], 3, Subscriptions.Empty());
    var p2 := Publish(p1, "B").0;
    assert p2 == Publisher(["A", "B"], 3, Subscriptions.Empty());
    var p3 := Publish(p2, "C").0;
    assert p3 == Publisher(["A", "B", "C"], 3, Subscriptions.Empty());
  }

  /** A fresh subscriber of a full buffer `A, B, C` that requests 2 receives `A` and `B`. */
  lemma DropNewestServes(p: Publisher<string>)
    requires p == Publisher(["A", "B", "C"], 3, Subscriptions.Empty())
    ensures var s := Subscribe(p);
            var r := Request(s.0, s.1, 2);
            && s.1 == 0
            && r.1 == [OnNext(0, "A"), OnNext(0, "B")]
            && r.0.buffer == ["C"]
  {
    var s := Subscribe(p);
    assert s.1 == 0;
    assert s.0.reg.subs == [Subscriptions.Sub(0, false)];
    assert s.0.buffer[..2] == ["A", "B"];
    assert s.0.buffer[2..] == ["C"];
    assert Deliveries(0, ["A", "B"]) == [OnNext(0, "A"), OnNext(0, "B")];
  }

  /**
   Capacity 3, four items published before anyone subscribes: the fourth is
   dropped. A subscriber that then requests 2 receives the first two, in
   order, and the third stays buffered.
   */
  lemma DropNewestScenario()
    ensures var p1 := Publish(New<string>(3), "A").0;
            var p2 := Publish(p1, "B").0;
            var p3 := Publish(p2, "C").0;
            var p4 := Publish(p3, "D").0;
            var s := Subscribe(p4);
            var r := Request(s.0, s.1, 2);
            && p4.buffer == ["A", "B", "C"]
            && s.1 == 0
            && r.1 == [OnNext(0, "A"), OnNext(0, "B")]
            && r.0.buffer == ["C"]
  {
    DropNewestFills();
    DropNewestServes(Publisher(["A", "B", "C"], 3, Subscriptions.Empty()));
  }

  /** One call a producer or a subscriber makes on the publisher. */
  datatype Call<T> =
    | SubscribeCall
    | PublishCall(item: T)
    | RequestCall(handle: nat, n: int)
    | CancelCall(handle: nat)

  /** The demand of subscription `h`, taking a not-yet-created one as 0. */
  function DemandOf<T>(p: Publisher<T>, h: nat): nat
  {
    if h < |p.reg.subs| then p.reg.subs[h].requested else 0
  }

  /** What a call adds to the demand of `h`. */
  function Grant<T>(c: Call<T>, h: nat): nat
  {
    if c.RequestCall? && c.handle == h && c.n > 0 then c.n else 0
  }

  /** Total positive demand the calls `cs` request for `h`. */
  function Granted<T>(cs: seq<Call<T>>, h: nat): nat
  {
    if |cs| == 0 then 0 else Grant(cs[0], h) + Granted(cs[1..], h)
  }

  /**
   Performs one call. A handle that was never issued cannot be used in the
   source (handles are objects given out by subscribe); here such a call
   does nothing. Returns the new publisher, the callbacks made and the
   items the buffer accepted.
   */
  function Step<T>(p: Publisher<T>, c: Call<T>): (r: (Publisher<T>, seq<Signal<T>>, seq<T>))
    requires Valid(p)
    ensures Valid(r.0)
    ensures Items(r.1) + r.0.buffer == p.buffer + r.2
    ensures forall h :: DemandOf(r.0, h) + |Delivered(r.1, h)| <= DemandOf(p, h) + Grant(c, h)
  {
    match c
    case SubscribeCall =>
      SubscribeDemand(p);
      var (q, h, t) := Subscribe(p);
      (q, t, [])
    case PublishCall(x) =>
      PublishDemand(p, x);
      var (q, t) := Publish(p, x);
      assert p.buffer + [] == p.buffer;
      (q, t, if |p.buffer| < p.maxBufferSize then [x] else [])
    case RequestCall(h, n) =>
      if h < |p.reg.subs| then
        var (q, t) := Request(p, h, n);
        RequestConserves(p, h, n);
        (q, t, [])
      else (p, [], [])
    case CancelCall(h) =>
      if h < |p.reg.subs| then (Cancel(p, h), [], []) else (p, [], [])
  }

  /** A subscribe adds a subscription with no demand and delivers nothing. */
  lemma SubscribeDemand<T>(p: Publisher<T>)
    ensures forall h :: DemandOf(Subscribe(p).0, h) + |Delivered(Subscribe(p).2, h)| <= DemandOf(p, h)
  {
    var (q, k, t) := Subscribe(p);
    forall h: nat ensures DemandOf(q, h) + |Delivered(t, h)| <= DemandOf(p, h) {
      assert Delivered(t, h) == [] by { assert t[1..] == []; }
      if h < |p.reg.subs| {
        assert q.reg.subs[h] == (p.reg.subs + [Subscriptions.Sub(0, false)])[h];
      }
    }
  }

  /** A publish spends demand only on what it delivers. */
  lemma PublishDemand<T>(p: Publisher<T>, x: T)
    requires Valid(p)
    ensures forall h :: DemandOf(Publish(p, x).0, h) + |Delivered(Publish(p, x).1, h)| <= DemandOf(p, h)
  {
    var (q, t) := Publish(p, x);
    forall h: nat ensures DemandOf(q, h) + |Delivered(t, h)| <= DemandOf(p, h) {
      if h >= |p.reg.subs| {
        assert h !in p.reg.active;
        assert Delivered(t, h) == [];
      } else {
        assert q.reg.subs[h].requested + |Delivered(t, h)| == p.reg.subs[h].requested;
      }
    }
  }

  lemma RequestConserves<T>(p: Publisher<T>, h: nat, n: int)
    requires h < |p.reg.subs|
    ensures Items(Request(p, h, n).1) + Request(p, h, n).0.buffer == p.buffer
    ensures forall g :: DemandOf(Request(p, h, n).0, g) + |Delivered(Request(p, h, n).1, g)|
                        == DemandOf(p, g) + (if g == h && n > 0 then n else 0)
  {
    if n > 0 {
      var s := p.reg.subs[h];
      var k := if s.cancelled then 0 else Min(s.requested + n, |p.buffer|);
      assert p.buffer[..k] + p.buffer[k..] == p.buffer;
    }
  }

  /**
   For a subscription that already exists, one call is exact: its demand
   left plus what it received equals its demand before plus what the call
   requested for it. Subscriptions are never removed from the ledger.
   */
  lemma StepExact<T>(p: Publisher<T>, c: Call<T>, h: nat)
    requires Valid(p) && h < |p.reg.subs|
    ensures |Step(p, c).0.reg.subs| >= |p.reg.subs|
    ensures DemandOf(Step(p, c).0, h) + |Delivered(Step(p, c).1, h)| == DemandOf(p, h) + Grant(c, h)
  {
    var r := Step(p, c);
    match c
    case SubscribeCall =>
      var (q, g, t) := Subscribe(p);
      assert r == (q, t, []);
      assert q.reg.subs[h] == p.reg.subs[h];
      assert Delivered(t, h) == [] + Delivered(t[1..], h);
    case PublishCall(x) =>
      if |p.buffer| >= p.maxBufferSize {
        assert r.0 == p && r.1 == [];
      } else {
        var q := Publish(p, x);
        assert r.0 == q.0 && r.1 == q.1;
        assert q.0.reg.subs[h].requested + |Delivered(q.1, h)| == p.reg.subs[h].requested;
      }
    case RequestCall(g, n) =>
      if g < |p.reg.subs| {
        RequestConserves(p, g, n);
      } else {
        assert r == (p, [], []);
      }
    case CancelCall(g) =>
      if g < |p.reg.subs| {
        assert r == (Cancel(p, g), [], []);
        assert Cancel(p, g).reg.subs[h].requested == p.reg.subs[h].requested;
      } else {
        assert r == (p, [], []);
      }
  }

  /** Performs the calls `cs` in order, collecting callbacks and accepted items. */
  function Run<T>(p: Publisher<T>, cs: seq<Call<T>>): (r: (Publisher<T>, seq<Signal<T>>, seq<T>))
    requires Valid(p)
    ensures Valid(r.0)
    decreases |cs|
  {
    if |cs| == 0 then (p, [], [])
    else
      var (q, t, a) := Step(p, cs[0]);
      var (q', t', a') := Run(q, cs[1..]);
      (q', t + t', a + a')
  }

  lemma RunChain<T>(t1: seq<Signal<T>>, t2: seq<Signal<T>>, b0: seq<T>, b1: seq<T>, b2: seq<T>,
                    a1: seq<T>, a2: seq<T>)
    requires Items(t1) + b1 == b0 + a1 && Items(t2) + b2 == b1 + a2
    ensures Items(t1 + t2) + b2 == b0 + (a1 + a2)
  {
    ItemsConcat(t1, t2);
    calc {
      Items(t1 + t2) + b2;
      Items(t1) + (Items(t2) + b2);
      (Items(t1) + b1) + a2;
      b0 + (a1 + a2);
    }
  }

  /**
   Over any sequence of calls, the items delivered (to all subscriptions
   together, in delivery order) followed by what is still buffered are
   exactly the items buffered at the start followed by every item the
   buffer accepted. So no accepted item is delivered twice or lost, and
   delivery is FIFO across the whole run.
   */
  lemma {:induction false} RunConserves<T>(p: Publisher<T>, cs: seq<Call<T>>)
    requires Valid(p)
    ensures var r := Run(p, cs);
            Items(r.1) + r.0.buffer == p.buffer + r.2
    decreases |cs|
  {
    if |cs| > 0 {
      var q := Step(p, cs[0]);
      RunConserves(q.0, cs[1..]);
      var rest := Run(q.0, cs[1..]);
      RunChain(q.1, rest.1, p.buffer, q.0.buffer, rest.0.buffer, q.2, rest.2);
      assert Run(p, cs) == (rest.0, q.1 + rest.1, q.2 + rest.2);
    }
  }

  /**
   Over any sequence of calls, no subscription receives more items than it
   had requested: its demand left plus what it received never exceeds its
   demand at the start plus everything it requested.
   */
  lemma {:induction false} RunRespectsDemand<T>(p: Publisher<T>, cs: seq<Call<T>>, h: nat)
    requires Valid(p)
    ensures var r := Run(p, cs);
            DemandOf(r.0, h) + |Delivered(r.1, h)| <= DemandOf(p, h) + Granted(cs, h)
    decreases |cs|
  {
    if |cs| > 0 {
      var q := Step(p, cs[0]);
      RunRespectsDemand(q.0, cs[1..], h);
      var rest := Run(q.0, cs[1..]);
      DeliveredConcat(q.1, rest.1, h);
      assert Run(p, cs) == (rest.0, q.1 + rest.1, q.2 + rest.2);
    }
  }

  /**
   Over any sequence of calls, a subscription that exists at the start is
   served exactly: its demand left plus everything it received equals its
   demand at the start plus everything requested for it.
   */
  lemma {:induction false} RunExactDemand<T>(p: Publisher<T>, cs: seq<Call<T>>, h: nat)
    requires Valid(p) && h < |p.reg.subs|
    ensures var r := Run(p, cs);
            && |r.0.reg.subs| >= |p.reg.subs|
            && DemandOf(r.0, h) + |Delivered(r.1, h)| == DemandOf(p, h) + Granted(cs, h)
    decreases |cs|
  {
    if |cs| > 0 {
      var q := Step(p, cs[0]);
      StepExact(p, cs[0], h);
      RunExactDemand(q.0, cs[1..], h);
      var rest := Run(q.0, cs[1..]);
      DeliveredConcat(q.1, rest.1, h);
      assert Run(p, cs) == (rest.0, q.1 + rest.1, q.2 + rest.2);
    }
  }

  /** Every call keeps the publisher quiescent. */
  lemma StepKeepsQuiescent<T>(p: Publisher<T>, c: Call<T>)
    requires Valid(p) && Quiescent(p)
    ensures Quiescent(Step(p, c).0)
  {
    match c
    case SubscribeCall =>
      SubscribeKeepsQuiescent(p);
    case PublishCall(x) =>
      if |p.buffer| < p.maxBufferSize {
        PublishFirstReady(p, x);
      }
    case RequestCall(g, n) =>
      if g < |p.reg.subs| {
        RequestKeepsQuiescent(p, g, n);
      }
    case CancelCall(g) =>
      if g < |p.reg.subs| {
        CancelKeepsQuiescent(p, g);
      }
  }

  lemma {:induction false} RunKeepsQuiescent<T>(p: Publisher<T>, cs: seq<Call<T>>)
    requires Valid(p) && Quiescent(p)
    ensures Quiescent(Run(p, cs).0)
    decreases |cs|
  {
    if |cs| > 0 {
      var q := Step(p, cs[0]);
      StepKeepsQuiescent(p, cs[0]);
      RunKeepsQuiescent(q.0, cs[1..]);
      var rest := Run(q.0, cs[1..]);
      assert Run(p, cs) == (rest.0, q.1 + rest.1, q.2 + rest.2);
    }
  }

  /**
   Every publisher reachable from a new one by any calls is quiescent, so
   `PublishFirstReady` describes every `publish` of a real run.
   */
  lemma ReachableQuiescent<T>(maxBufferSize: int, cs: seq<Call<T>>)
    ensures Quiescent(Run(New<T>(maxBufferSize), cs).0)
  {
    RunKeepsQuiescent(New<T>(maxBufferSize), cs);
  }

  /** From an empty buffer, what a run delivers is a prefix of what it accepted. */
  lemma DeliveredPrefixOfAccepted<T>(p: Publisher<T>, cs: seq<Call<T>>)
    requires Valid(p) && p.buffer == []
    ensures var r := Run(p, cs);
            |Items(r.1)| <= |r.2| && Items(r.1) == r.2[..|Items(r.1)|]
  {
    RunConserves(p, cs);
    var r := Run(p, cs);
    assert Items(r.1) + r.0.buffer == r.2;
  }
}
