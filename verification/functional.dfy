/**
 The broadcast publisher of `FunctionalPublisher`: every publisher keeps an
 ordered list of subscribers and hands each emitted value, completion or
 error to all of them in registration order. `map` and `filter` create a new
 publisher and subscribe an adapter to the source that transforms or drops
 values before broadcasting them on the new publisher. `request` does
 nothing, so there is no backpressure.

 All publishers of a program form one `Network`, addressed by creation
 index. An adapter always feeds a publisher created after the one it is
 subscribed to, which is why broadcasting terminates.
 */
module Functional {
  import opened Signals

  /** What an adapter does to the values passing through it. */
  datatype Stage<!T> =
    | MapStage(f: T -> T)           // created by map(f)
    | FilterStage(keep: T -> bool)  // created by filter(keep)

  /**
   An entry of a publisher's subscriber list: a subscriber outside the
   network, identified by `id`, or the adapter that feeds publisher `target`.
   */
  datatype Subscriber<!T> =
    | External(id: nat)
    | Adapter(stage: Stage<T>, target: nat)

  /** The subscriber list of every publisher, by publisher index. */
  datatype Network<!T> = Network(pubs: seq<seq<Subscriber<T>>>)

  /** What a publisher broadcasts: emit(v), complete() or error(e). */
  datatype Event<T> = Next(item: T) | Complete | Error(failure: Failure)

  /** The callback that hands `ev` to the external subscriber `id`. */
  function Deliver<T>(id: nat, ev: Event<T>): Signal<T>
  {
    match ev
    case Next(v) => OnNext(id, v)
    case Complete => OnComplete(id)
    case Error(e) => OnError(id, e)
  }

  /** Whether an adapter with `stage` forwards `ev` at all. */
  predicate Passes<T>(stage: Stage<T>, ev: Event<T>)
  {
    !(stage.FilterStage? && ev.Next? && !stage.keep(ev.item))
  }

  /** The event an adapter with `stage` forwards for `ev`. */
  function Transformed<T>(stage: Stage<T>, ev: Event<T>): Event<T>
  {
    if stage.MapStage? && ev.Next? then Next(stage.f(ev.item)) else ev
  }

  /** Every adapter in `subs`, listed on publisher `k`, feeds a later publisher. */
  predicate Targets<T>(net: Network<T>, k: nat, subs: seq<Subscriber<T>>)
  {
    forall i :: 0 <= i < |subs| && subs[i].Adapter? ==> k < subs[i].target < |net.pubs|
  }

  predicate WellFormed<T>(net: Network<T>)
  {
    forall k :: 0 <= k < |net.pubs| ==> Targets(net, k, net.pubs[k])
  }

  /** The callbacks made when publisher `k` broadcasts `ev`, in call order. */
  function Broadcast<T>(net: Network<T>, k: nat, ev: Event<T>): seq<Signal<T>>
    requires WellFormed(net) && k < |net.pubs|
    decreases |net.pubs| - k, 1, 0
  {
    FanOut(net, k, net.pubs[k], ev)
  }

  /** The for-each loop over a subscriber list of publisher `k`. */
  function FanOut<T>(net: Network<T>, k: nat, subs: seq<Subscriber<T>>, ev: Event<T>): seq<Signal<T>>
    requires WellFormed(net) && k < |net.pubs| && Targets(net, k, subs)
    decreases |net.pubs| - k, 0, |subs|
  {
    if |subs| == 0 then []
    else Visit(net, k, subs[0], ev) + FanOut(net, k, subs[1..], ev)
  }

  /** One subscriber of publisher `k` receiving `ev`. */
  function Visit<T>(net: Network<T>, k: nat, s: Subscriber<T>, ev: Event<T>): seq<Signal<T>>
    requires WellFormed(net) && k < |net.pubs| && (s.Adapter? ==> k < s.target < |net.pubs|)
    decreases |net.pubs| - k, 0, 0
  {
    match s
    case External(id) => [Deliver(id, ev)]
    case Adapter(stage, t) =>
      if Passes(stage, ev) then Broadcast(net, t, Transformed(stage, ev)) else []
  }

  /** `emit(v)` on publisher `k`. */
  function Emit<T>(net: Network<T>, k: nat, v: T): seq<Signal<T>>
    requires WellFormed(net) && k < |net.pubs|
  {
    Broadcast(net, k, Next(v))
  }

  /** `complete()` on publisher `k`. */
  function CompleteAll<T>(net: Network<T>, k: nat): seq<Signal<T>>
    requires WellFormed(net) && k < |net.pubs|
  {
    Broadcast(net, k, Complete)
  }

  /** `error(e)` on publisher `k`. */
  function ErrorAll<T>(net: Network<T>, k: nat, e: Failure): seq<Signal<T>>
    requires WellFormed(net) && k < |net.pubs|
  {
    Broadcast(net, k, Error(e))
  }

  /** `emit` of each value of `vs` in turn. */
  function EmitAll<T>(net: Network<T>, k: nat, vs: seq<T>): seq<Signal<T>>
    requires WellFormed(net) && k < |net.pubs|
  {
    if |vs| == 0 then [] else Emit(net, k, vs[0]) + EmitAll(net, k, vs[1..])
  }

  function Empty<T>(): (net: Network<T>)
    ensures WellFormed(net) && |net.pubs| == 0
  {
    Network([])
  }

  /** `new FunctionalPublisher<>()`: a publisher without subscribers, which broadcasts to nobody. */
  function NewPublisher<T>(net: Network<T>): (r: (Network<T>, nat))
    requires WellFormed(net)
    ensures WellFormed(r.0) && r.1 == |net.pubs| && |r.0.pubs| == |net.pubs| + 1
    ensures forall j :: 0 <= j < |net.pubs| ==> r.0.pubs[j] == net.pubs[j]
    ensures r.0.pubs[r.1] == []
  {
    var net' := Network(net.pubs + [[]]);
    assert forall j :: 0 <= j < |net.pubs| ==> net'.pubs[j] == net.pubs[j];
    (net', |net.pubs|)
  }

  /** Appends `s` to the subscriber list of publisher `k`. */
  function Attach<T>(net: Network<T>, k: nat, s: Subscriber<T>): (net': Network<T>)
    requires WellFormed(net) && k < |net.pubs|
    requires s.Adapter? ==> k < s.target < |net.pubs|
    ensures WellFormed(net') && |net'.pubs| == |net.pubs|
    ensures net'.pubs[k] == net.pubs[k] + [s]
    ensures forall j :: 0 <= j < |net.pubs| && j != k ==> net'.pubs[j] == net.pubs[j]
  {
    var net' := Network(net.pubs[k := net.pubs[k] + [s]]);
    assert forall j :: 0 <= j < |net.pubs| ==> Targets(net', j, net'.pubs[j]) by {
      forall j | 0 <= j < |net.pubs|
        ensures Targets(net', j, net'.pubs[j])
      {
        assert Targets(net, j, net.pubs[j]);
      }
    }
    net'
  }

  /**
   `subscribe(subscriber)`: appends the subscriber to the list of publisher
   `k` and calls its onSubscribe; nothing else is delivered.
   */
  function Subscribe<T>(net: Network<T>, k: nat, id: nat): (r: (Network<T>, seq<Signal<T>>))
    requires WellFormed(net) && k < |net.pubs|
    ensures WellFormed(r.0) && |r.0.pubs| == |net.pubs|
    ensures r.0.pubs[k] == net.pubs[k] + [External(id)]
    ensures forall j :: 0 <= j < |net.pubs| && j != k ==> r.0.pubs[j] == net.pubs[j]
    ensures r.1 == [OnSubscribe(id)]
  {
    (Attach(net, k, External(id)), [OnSubscribe(id)])
  }

  /** `Subscription.request(n)`: does nothing. */
  function Request<T>(net: Network<T>, k: nat, id: nat, n: int): (r: (Network<T>, seq<Signal<T>>))
    ensures r.0 == net && r.1 == []
  {
    (net, [])
  }

  /** The first position of the external subscriber `id` in `subs`, or |subs|. */
  function FindExternal<T>(subs: seq<Subscriber<T>>, id: nat): (i: nat)
    ensures i <= |subs|
    ensures i < |subs| ==> subs[i] == External(id)
    ensures forall j :: 0 <= j < i ==> !(subs[j].External? && subs[j].id == id)
  {
    if |subs| == 0 then 0
    else if subs[0].External? && subs[0].id == id then 0
    else 1 + FindExternal(subs[1..], id)
  }

  /**
   `Subscription.cancel()` of the external subscriber `id` of publisher `k`:
   `List.remove` of the first occurrence of that subscriber.
   */
  function Cancel<T>(net: Network<T>, k: nat, id: nat): (net': Network<T>)
    requires WellFormed(net) && k < |net.pubs|
    ensures WellFormed(net') && |net'.pubs| == |net.pubs|
    ensures forall j :: 0 <= j < |net.pubs| && j != k ==> net'.pubs[j] == net.pubs[j]
    ensures var subs := net.pubs[k]; var i := FindExternal(subs, id);
            net'.pubs[k] == if i == |subs| then subs else subs[..i] + subs[i + 1..]
  {
    var subs := net.pubs[k];
    var i := FindExternal(subs, id);
    var subs' := if i == |subs| then subs else subs[..i] + subs[i + 1..];
    var net' := Network(net.pubs[k := subs']);
    assert Targets(net, k, subs);
    assert forall j :: 0 <= j < |net.pubs| ==> Targets(net', j, net'.pubs[j]) by {
      forall j | 0 <= j < |net.pubs|
        ensures Targets(net', j, net'.pubs[j])
      {
        assert Targets(net, j, net.pubs[j]);
        if j == k && i < |subs| {
          forall m | 0 <= m < |subs'|
            ensures subs'[m] == subs[if m < i then m else m + 1]
          {
          }
        }
      }
    }
    net'
  }

  /**
   `map(f)` (when `keep` is absent) or `filter(keep)` on publisher `k`: a new
   publisher, fed by an adapter appended to the subscribers of `k`. The
   adapter's onSubscribe only calls the no-op request, so no callback is made.
   */
  function Derive<T>(net: Network<T>, k: nat, stage: Stage<T>): (r: (Network<T>, nat))
    requires WellFormed(net) && k < |net.pubs|
    ensures WellFormed(r.0) && r.1 == |net.pubs| && |r.0.pubs| == |net.pubs| + 1
    ensures r.0.pubs[k] == net.pubs[k] + [Adapter(stage, r.1)] && r.0.pubs[r.1] == []
    ensures forall j :: 0 <= j < |net.pubs| && j != k ==> r.0.pubs[j] == net.pubs[j]
  {
    var (n1, m) := NewPublisher(net);
    (Attach(n1, k, Adapter(stage, m)), m)
  }

  /** `map(f)`. */
  function Map<T>(net: Network<T>, k: nat, f: T -> T): (r: (Network<T>, nat))
    requires WellFormed(net) && k < |net.pubs|
    ensures WellFormed(r.0) && r.1 == |net.pubs| && |r.0.pubs| == |net.pubs| + 1
    ensures r.0.pubs[k] == net.pubs[k] + [Adapter(MapStage(f), r.1)] && r.0.pubs[r.1] == []
    ensures forall j :: 0 <= j < |net.pubs| && j != k ==> r.0.pubs[j] == net.pubs[j]
  {
    Derive(net, k, MapStage(f))
  }

  /** `filter(keep)`. */
  function Filter<T>(net: Network<T>, k: nat, keep: T -> bool): (r: (Network<T>, nat))
    requires WellFormed(net) && k < |net.pubs|
    ensures WellFormed(r.0) && r.1 == |net.pubs| && |r.0.pubs| == |net.pubs| + 1
    ensures r.0.pubs[k] == net.pubs[k] + [Adapter(FilterStage(keep), r.1)] && r.0.pubs[r.1] == []
    ensures forall j :: 0 <= j < |net.pubs| && j != k ==> r.0.pubs[j] == net.pubs[j]
  {
    Derive(net, k, FilterStage(keep))
  }
}

/** What the broadcast publisher promises its subscribers. */
module FunctionalProperties {
  import opened Signals
  import opened Functional

  // ---------------------------------------------------------------
  // Broadcasting over a concatenated subscriber list
  // ---------------------------------------------------------------

  lemma {:induction false} FanOutConcat<T>(net: Network<T>, k: nat, a: seq<Subscriber<T>>,
                                           b: seq<Subscriber<T>>, ev: Event<T>)
    requires WellFormed(net) && k < |net.pubs| && Targets(net, k, a) && Targets(net, k, b)
    ensures Targets(net, k, a + b)
    ensures FanOut(net, k, a + b, ev) == FanOut(net, k, a, ev) + FanOut(net, k, b, ev)
    decreases |a|
  {
    assert Targets(net, k, a + b) by {
      forall i | 0 <= i < |a + b| && (a + b)[i].Adapter?
        ensures k < (a + b)[i].target < |net.pubs|
      {
        if i >= |a| { assert (a + b)[i] == b[i - |a|]; }
      }
    }
    if |a| == 0 {
      assert a + b == b;
    } else {
      assert (a + b)[1..] == a[1..] + b;
      FanOutConcat(net, k, a[1..], b, ev);
      FanOutConcatStep(net, k, a, b, ev);
    }
  }

  /** The inductive step of `FanOutConcat`: the first subscriber of `a` is visited first. */
  lemma {:induction false} FanOutConcatStep<T>(net: Network<T>, k: nat, a: seq<Subscriber<T>>,
                                               b: seq<Subscriber<T>>, ev: Event<T>)
    requires WellFormed(net) && k < |net.pubs| && |a| > 0
    requires Targets(net, k, a) && Targets(net, k, b) && Targets(net, k, a + b) && Targets(net, k, a[1..] + b)
    requires (a + b)[1..] == a[1..] + b
    requires FanOut(net, k, a[1..] + b, ev) == FanOut(net, k, a[1..], ev) + FanOut(net, k, b, ev)
    ensures FanOut(net, k, a + b, ev) == FanOut(net, k, a, ev) + FanOut(net, k, b, ev)
  {
    assert (a + b)[0] == a[0];
  }

  /** Splits a broadcast of publisher `k` around its `i`-th subscriber. */
  lemma FanOutAt<T>(net: Network<T>, k: nat, i: nat, ev: Event<T>)
    requires WellFormed(net) && k < |net.pubs| && i < |net.pubs[k]|
    ensures Targets(net, k, net.pubs[k][..i]) && Targets(net, k, net.pubs[k][i + 1..])
    ensures Broadcast(net, k, ev)
         == FanOut(net, k, net.pubs[k][..i], ev)
          + Visit(net, k, net.pubs[k][i], ev)
          + FanOut(net, k, net.pubs[k][i + 1..], ev)
  {
    var subs := net.pubs[k];
    assert Targets(net, k, subs);
    var one := [subs[i]];
    assert subs == subs[..i] + one + subs[i + 1..];
    FanOutConcat(net, k, subs[..i], one, ev);
    FanOutConcat(net, k, subs[..i] + one, subs[i + 1..], ev);
    assert FanOut(net, k, one, ev) == Visit(net, k, subs[i], ev) + FanOut(net, k, one[1..], ev);
    assert one[1..] == [];
  }

  // ---------------------------------------------------------------
  // A broadcast depends only on the publisher and those after it
  // ---------------------------------------------------------------

  /**
   `b` holds `a`'s publishers from `from` on, unchanged, and possibly more
   publishers after them.
   */
  ghost predicate Agree<T>(a: Network<T>, b: Network<T>, from: nat)
  {
    && |a.pubs| <= |b.pubs|
    && forall j :: from <= j < |a.pubs| ==> a.pubs[j] == b.pubs[j]
  }

  lemma {:induction false} BroadcastFrame<T>(a: Network<T>, b: Network<T>, k: nat, ev: Event<T>)
    requires WellFormed(a) && WellFormed(b) && k < |a.pubs| && Agree(a, b, k)
    ensures Broadcast(a, k, ev) == Broadcast(b, k, ev)
    decreases |a.pubs| - k, 1, 0
  {
    assert a.pubs[k] == b.pubs[k];
    FanOutFrame(a, b, k, a.pubs[k], ev);
  }

  lemma {:induction false} FanOutFrame<T>(a: Network<T>, b: Network<T>, k: nat,
                                          subs: seq<Subscriber<T>>, ev: Event<T>)
    requires WellFormed(a) && WellFormed(b) && k < |a.pubs| && Agree(a, b, k + 1)
    requires Targets(a, k, subs)
    ensures Targets(b, k, subs) && FanOut(a, k, subs, ev) == FanOut(b, k, subs, ev)
    decreases |a.pubs| - k, 0, |subs|
  {
    if |subs| > 0 {
      VisitFrame(a, b, k, subs[0], ev);
      FanOutFrame(a, b, k, subs[1..], ev);
    }
  }

  lemma {:induction false} VisitFrame<T>(a: Network<T>, b: Network<T>, k: nat,
                                         s: Subscriber<T>, ev: Event<T>)
    requires WellFormed(a) && WellFormed(b) && k < |a.pubs| && Agree(a, b, k + 1)
    requires s.Adapter? ==> k < s.target < |a.pubs|
    ensures Visit(a, k, s, ev) == Visit(b, k, s, ev)
    decreases |a.pubs| - k, 0, 0
  {
    if s.Adapter? && Passes(s.stage, ev) {
      BroadcastFrame(a, b, s.target, Transformed(s.stage, ev));
    }
  }

  // ---------------------------------------------------------------
  // Subscribers outside the network
  // ---------------------------------------------------------------

  /** The callbacks handing `ev` to each of `ids`, in order. */
  function Notify<T>(ids: seq<nat>, ev: Event<T>): (r: seq<Signal<T>>)
    ensures |r| == |ids|
    ensures forall i :: 0 <= i < |r| ==> r[i] == Deliver(ids[i], ev)
  {
    if |ids| == 0 then [] else [Deliver(ids[0], ev)] + Notify(ids[1..], ev)
  }

  lemma {:induction false} NotifyConcat<T>(a: seq<nat>, b: seq<nat>, ev: Event<T>)
    ensures Notify(a + b, ev) == Notify(a, ev) + Notify(b, ev)
  {
  }

  /** Every callback of `Notify(ids, ev)` for `id` is the one handing it `ev`. */
  lemma {:induction false} NotifyAddressed<T>(ids: seq<nat>, ev: Event<T>, id: nat)
    ensures Addressed(Notify(ids, ev), id) == Notify(seq(Occurrences(ids, id), _ => id), ev)
    decreases |ids|
  {
    if |ids| > 0 {
      NotifyAddressed(ids[1..], ev, id);
      var n := Occurrences(ids[1..], id);
      if ids[0] == id {
        assert seq(n + 1, _ => id) == [id] + seq(n, _ => id);
        NotifyConcat([id], seq(n, _ => id), ev);
      }
    }
  }

  /** How often `id` occurs in `ids`. */
  function Occurrences(ids: seq<nat>, id: nat): (n: nat)
    ensures n <= |ids|
    ensures n == 0 <==> id !in ids
  {
    if |ids| == 0 then 0
    else (if ids[0] == id then 1 else 0) + Occurrences(ids[1..], id)
  }

  /** A subscriber list without adapters. */
  predicate Leaf<T>(subs: seq<Subscriber<T>>)
  {
    forall i :: 0 <= i < |subs| ==> subs[i].External?
  }

  /** The ids of the external subscribers of `subs`, in list order. */
  function Ids<T>(subs: seq<Subscriber<T>>): (ids: seq<nat>)
    ensures Leaf(subs) ==> |ids| == |subs| && forall i :: 0 <= i < |subs| ==> ids[i] == subs[i].id
  {
    if |subs| == 0 then []
    else (if subs[0].External? then [subs[0].id] else []) + Ids(subs[1..])
  }

  lemma {:induction false} FanOutLeaf<T>(net: Network<T>, k: nat, subs: seq<Subscriber<T>>, ev: Event<T>)
    requires WellFormed(net) && k < |net.pubs| && Targets(net, k, subs) && Leaf(subs)
    ensures FanOut(net, k, subs, ev) == Notify(Ids(subs), ev)
    decreases |subs|
  {
    if |subs| > 0 {
      FanOutLeaf(net, k, subs[1..], ev);
      NotifyConcat([subs[0].id], Ids(subs[1..]), ev);
    }
  }

  /**
   `emit`, `complete` and `error` on a publisher whose subscribers are all
   outside the network call each subscriber exactly once, in registration
   order, whatever any of them has requested.
   */
  lemma LeafBroadcast<T>(net: Network<T>, k: nat, ev: Event<T>)
    requires WellFormed(net) && k < |net.pubs| && Leaf(net.pubs[k])
    ensures var r := Broadcast(net, k, ev);
            && |r| == |net.pubs[k]|
            && forall i :: 0 <= i < |r| ==> r[i] == Deliver(net.pubs[k][i].id, ev)
  {
    FanOutLeaf(net, k, net.pubs[k], ev);
  }

  // ---------------------------------------------------------------
  // subscribe and cancel
  // ---------------------------------------------------------------

  /**
   A new subscriber is served after all earlier ones, and receives only
   what is broadcast after it subscribed (no replay); publishers created
   after `k` are not affected.
   */
  lemma SubscribeAppends<T>(net: Network<T>, k: nat, id: nat, ev: Event<T>)
    requires WellFormed(net) && k < |net.pubs|
    ensures var net' := Subscribe(net, k, id).0;
            && Broadcast(net', k, ev) == Broadcast(net, k, ev) + [Deliver(id, ev)]
            && forall j :: k < j < |net.pubs| ==> Broadcast(net', j, ev) == Broadcast(net, j, ev)
  {
    var net' := Subscribe(net, k, id).0;
    var subs := net.pubs[k];
    assert Targets(net, k, subs);
    assert Agree(net', net, k + 1);
    FanOutFrame(net', net, k, subs, ev);
    FanOutConcat(net', k, subs, [External(id)], ev);
    assert FanOut(net', k, [External(id)], ev) == [Deliver(id, ev)] + FanOut(net', k, [], ev);
    forall j | k < j < |net.pubs|
      ensures Broadcast(net', j, ev) == Broadcast(net, j, ev)
    {
      BroadcastFrame(net', net, j, ev);
    }
  }

  /**
   `cancel` takes exactly the cancelled subscriber's callback out of later
   broadcasts of `k` and leaves the others, in their order; cancelling a
   subscriber that is not in the list changes nothing.
   */
  lemma CancelRemovesOne<T>(net: Network<T>, k: nat, id: nat, ev: Event<T>)
    requires WellFormed(net) && k < |net.pubs|
    ensures var net' := Cancel(net, k, id);
            var subs := net.pubs[k];
            var i := FindExternal(subs, id);
            && (i == |subs| ==> Broadcast(net', k, ev) == Broadcast(net, k, ev))
            && (i < |subs| ==>
                  && Targets(net, k, subs[..i]) && Targets(net, k, subs[i + 1..])
                  && Broadcast(net, k, ev)
                     == FanOut(net, k, subs[..i], ev) + [Deliver(id, ev)] + FanOut(net, k, subs[i + 1..], ev)
                  && Broadcast(net', k, ev)
                     == FanOut(net, k, subs[..i], ev) + FanOut(net, k, subs[i + 1..], ev))
  {
    if FindExternal(net.pubs[k], id) == |net.pubs[k]| {
      CancelAbsent(net, k, id, ev);
    } else {
      CancelPresent(net, k, id, ev);
    }
  }

  lemma CancelAbsent<T>(net: Network<T>, k: nat, id: nat, ev: Event<T>)
    requires WellFormed(net) && k < |net.pubs| && FindExternal(net.pubs[k], id) == |net.pubs[k]|
    ensures Broadcast(Cancel(net, k, id), k, ev) == Broadcast(net, k, ev)
  {
    var net' := Cancel(net, k, id);
    assert Agree(net', net, k + 1);
    assert net'.pubs[k] == net.pubs[k];
    BroadcastFrame(net', net, k, ev);
  }

  lemma CancelPresent<T>(net: Network<T>, k: nat, id: nat, ev: Event<T>)
    requires WellFormed(net) && k < |net.pubs| && FindExternal(net.pubs[k], id) < |net.pubs[k]|
    ensures var subs := net.pubs[k];
            var i := FindExternal(subs, id);
            && Targets(net, k, subs[..i]) && Targets(net, k, subs[i + 1..])
            && Broadcast(net, k, ev)
               == FanOut(net, k, subs[..i], ev) + [Deliver(id, ev)] + FanOut(net, k, subs[i + 1..], ev)
            && Broadcast(Cancel(net, k, id), k, ev)
               == FanOut(net, k, subs[..i], ev) + FanOut(net, k, subs[i + 1..], ev)
  {
    var net' := Cancel(net, k, id);
    var subs := net.pubs[k];
    var i := FindExternal(subs, id);
    assert Agree(net', net, k + 1);
    assert net'.pubs[k] == subs[..i] + subs[i + 1..];
    FanOutAt(net, k, i, ev);
    FanOutFrame(net', net, k, subs[..i], ev);
    FanOutFrame(net', net, k, subs[i + 1..], ev);
    FanOutConcat(net', k, subs[..i], subs[i + 1..], ev);
  }

  /**
   After `cancel`, a later broadcast of `k` makes one callback less on the
   cancelled subscriber (none at all if it had subscribed only once).
   */
  lemma CancelSkips<T>(net: Network<T>, k: nat, id: nat, ev: Event<T>)
    requires WellFormed(net) && k < |net.pubs|
    requires FindExternal(net.pubs[k], id) < |net.pubs[k]|
    ensures |Addressed(Broadcast(Cancel(net, k, id), k, ev), id)| + 1
         == |Addressed(Broadcast(net, k, ev), id)|
  {
    var subs := net.pubs[k];
    var i := FindExternal(subs, id);
    CancelRemovesOne(net, k, id, ev);
    var before := FanOut(net, k, subs[..i], ev);
    var after := FanOut(net, k, subs[i + 1..], ev);
    AddressedConcat(before, [Deliver(id, ev)], id);
    AddressedConcat(before + [Deliver(id, ev)], after, id);
    AddressedConcat(before, after, id);
    assert Addressed([Deliver(id, ev)], id) == [Deliver(id, ev)];
  }

  // ---------------------------------------------------------------
  // map and filter adapters
  // ---------------------------------------------------------------

  /**
   Where publisher `k` has an adapter at position `i`, broadcasting on `k`
   broadcasts on the adapter's publisher at that point: `f(x)` for an item
   `x` through map(f); `x` itself, or nothing when `keep(x)` fails, through
   filter(keep); completion and errors unchanged through either.
   */
  lemma AdapterForwards<T>(net: Network<T>, k: nat, i: nat, ev: Event<T>)
    requires WellFormed(net) && k < |net.pubs| && i < |net.pubs[k]| && net.pubs[k][i].Adapter?
    ensures var subs := net.pubs[k];
            var s := subs[i];
            && Targets(net, k, subs[..i]) && Targets(net, k, subs[i + 1..]) && k < s.target < |net.pubs|
            && var before := FanOut(net, k, subs[..i], ev);
               var after := FanOut(net, k, subs[i + 1..], ev);
               && (s.stage.MapStage? && ev.Next? ==>
                     Broadcast(net, k, ev) == before + Broadcast(net, s.target, Next(s.stage.f(ev.item))) + after)
               && (s.stage.FilterStage? && ev.Next? && s.stage.keep(ev.item) ==>
                     Broadcast(net, k, ev) == before + Broadcast(net, s.target, ev) + after)
               && (s.stage.FilterStage? && ev.Next? && !s.stage.keep(ev.item) ==>
                     Broadcast(net, k, ev) == before + after)
               && (!ev.Next? ==>
                     Broadcast(net, k, ev) == before + Broadcast(net, s.target, ev) + after)
  {
    assert Targets(net, k, net.pubs[k]);
    FanOutAt(net, k, i, ev);
  }

  // ---------------------------------------------------------------
  // Completion and errors reach everyone downstream
  // ---------------------------------------------------------------

  /**
   The subscribers outside the network that publisher `k` reaches, directly
   or through adapters of any kind, in the order the broadcast visits them.
   */
  function Reach<T>(net: Network<T>, k: nat): seq<nat>
    requires WellFormed(net) && k < |net.pubs|
    decreases |net.pubs| - k, 1, 0
  {
    ReachList(net, k, net.pubs[k])
  }

  function ReachList<T>(net: Network<T>, k: nat, subs: seq<Subscriber<T>>): seq<nat>
    requires WellFormed(net) && k < |net.pubs| && Targets(net, k, subs)
    decreases |net.pubs| - k, 0, |subs|
  {
    if |subs| == 0 then []
    else
      (match subs[0]
       case External(id) => [id]
       case Adapter(_, t) => Reach(net, t))
      + ReachList(net, k, subs[1..])
  }

  /**
   `complete()` and `error(e)` call onComplete, respectively onError, on
   every subscriber the publisher reaches, through map and filter adapters
   alike, and make no other callback.
   */
  lemma {:induction false} TerminalReachesAll<T>(net: Network<T>, k: nat, ev: Event<T>)
    requires WellFormed(net) && k < |net.pubs| && !ev.Next?
    ensures Broadcast(net, k, ev) == Notify(Reach(net, k), ev)
    decreases |net.pubs| - k, 1, 0
  {
    TerminalReachesList(net, k, net.pubs[k], ev);
  }

  lemma {:induction false} TerminalReachesList<T>(net: Network<T>, k: nat,
                                                  subs: seq<Subscriber<T>>, ev: Event<T>)
    requires WellFormed(net) && k < |net.pubs| && Targets(net, k, subs) && !ev.Next?
    ensures FanOut(net, k, subs, ev) == Notify(ReachList(net, k, subs), ev)
    decreases |net.pubs| - k, 0, |subs|
  {
    if |subs| > 0 {
      var head := match subs[0] case External(id) => [id] case Adapter(_, t) => Reach(net, t);
      if subs[0].Adapter? {
        TerminalReachesAll(net, subs[0].target, ev);
      }
      assert Visit(net, k, subs[0], ev) == Notify(head, ev);
      TerminalReachesList(net, k, subs[1..], ev);
      NotifyConcat(head, ReachList(net, k, subs[1..]), ev);
    }
  }

  // ---------------------------------------------------------------
  // Pipelines of map and filter, against a reference on value streams
  // ---------------------------------------------------------------

  /** Reference: `f` applied to each value, in order. */
  function MapSeq<T>(f: T -> T, vs: seq<T>): (r: seq<T>)
    ensures |r| == |vs| && forall i :: 0 <= i < |vs| ==> r[i] == f(vs[i])
  {
    if |vs| == 0 then [] else [f(vs[0])] + MapSeq(f, vs[1..])
  }

  /** Reference: the values satisfying `keep`, in order. */
  function FilterSeq<T>(keep: T -> bool, vs: seq<T>): (r: seq<T>)
    ensures |r| <= |vs|
    ensures forall i :: 0 <= i < |r| ==> keep(r[i]) && r[i] in vs
    ensures forall i :: 0 <= i < |vs| && keep(vs[i]) ==> vs[i] in r
  {
    if |vs| == 0 then []
    else (if keep(vs[0]) then [vs[0]] else []) + FilterSeq(keep, vs[1..])
  }

  function StageSeq<T>(stage: Stage<T>, vs: seq<T>): seq<T>
  {
    match stage
    case MapStage(f) => MapSeq(f, vs)
    case FilterStage(keep) => FilterSeq(keep, vs)
  }

  /** Reference: the stream `vs` passed through `stages`, first stage first. */
  function Pipeline<T>(stages: seq<Stage<T>>, vs: seq<T>): seq<T>
  {
    if |stages| == 0 then vs else Pipeline(stages[1..], StageSeq(stages[0], vs))
  }

  lemma {:induction false} MapSeqConcat<T>(f: T -> T, a: seq<T>, b: seq<T>)
    ensures MapSeq(f, a + b) == MapSeq(f, a) + MapSeq(f, b)
  {
  }

  lemma {:induction false} FilterSeqConcat<T>(keep: T -> bool, a: seq<T>, b: seq<T>)
    ensures FilterSeq(keep, a + b) == FilterSeq(keep, a) + FilterSeq(keep, b)
    decreases |a|
  {
    if |a| == 0 {
      assert a + b == b;
    } else {
      assert (a + b)[1..] == a[1..] + b;
      FilterSeqConcat(keep, a[1..], b);
    }
  }

  lemma {:induction false} PipelineConcat<T>(stages: seq<Stage<T>>, a: seq<T>, b: seq<T>)
    ensures Pipeline(stages, a + b) == Pipeline(stages, a) + Pipeline(stages, b)
    decreases |stages|
  {
    if |stages| > 0 {
      match stages[0] {
        case MapStage(f) => MapSeqConcat(f, a, b);
        case FilterStage(keep) => FilterSeqConcat(keep, a, b);
      }
      PipelineConcat(stages[1..], StageSeq(stages[0], a), StageSeq(stages[0], b));
    }
  }

  lemma {:induction false} PipelineNil<T>(stages: seq<Stage<T>>)
    ensures Pipeline(stages, []) == []
    decreases |stages|
  {
    if |stages| > 0 {
      assert StageSeq(stages[0], []) == [];
      PipelineNil(stages[1..]);
    }
  }

  /**
   Publishers `path[0]`, `path[1]`, ... are built by `stages`: each one's
   only subscriber is the adapter of the corresponding stage, feeding the
   next publisher of the path.
   */
  ghost predicate Chain<T>(net: Network<T>, path: seq<nat>, stages: seq<Stage<T>>)
  {
    && |path| == |stages| + 1
    && (forall i :: 0 <= i < |path| ==> path[i] < |net.pubs|)
    && forall i :: 0 <= i < |stages| ==> net.pubs[path[i]] == [Adapter(stages[i], path[i + 1])]
  }

  /** Every value of `ws` handed to each of `ids`: value by value, subscriber by subscriber. */
  function Spread<T>(ids: seq<nat>, ws: seq<T>): seq<Signal<T>>
  {
    if |ws| == 0 then [] else Notify(ids, Next(ws[0])) + Spread(ids, ws[1..])
  }

  lemma {:induction false} SpreadConcat<T>(ids: seq<nat>, a: seq<T>, b: seq<T>)
    ensures Spread(ids, a + b) == Spread(ids, a) + Spread(ids, b)
    decreases |a|
  {
    if |a| == 0 {
      assert a + b == b;
    } else {
      assert (a + b)[1..] == a[1..] + b;
      SpreadConcat(ids, a[1..], b);
    }
  }

  /** One emitted value goes down a chain exactly as the reference pipeline says. */
  lemma {:induction false} ChainEmit<T>(net: Network<T>, path: seq<nat>, stages: seq<Stage<T>>, v: T)
    requires WellFormed(net) && Chain(net, path, stages) && Leaf(net.pubs[path[|path| - 1]])
    ensures Emit(net, path[0], v) == Spread(Ids(net.pubs[path[|path| - 1]]), Pipeline(stages, [v]))
    decreases |stages|
  {
    var leaf := net.pubs[path[|path| - 1]];
    var ids := Ids(leaf);
    if |stages| == 0 {
      FanOutLeaf(net, path[0], leaf, Next(v));
      assert Spread(ids, [v]) == Notify(ids, Next(v)) + Spread(ids, []);
    } else {
      var out := StageSeq(stages[0], [v]);
      ChainStep(net, path, stages, v);
      ChainTail(net, path, stages);
      assert path[1..][|path[1..]| - 1] == path[|path| - 1];
      assert Pipeline(stages, [v]) == Pipeline(stages[1..], out);
      if |out| == 0 {
        PipelineNil(stages[1..]);
      } else {
        assert out == [out[0]];
        ChainEmit(net, path[1..], stages[1..], out[0]);
      }
    }
  }

  /**
   The first hop of a chain: what the first stage makes of `v` (nothing or
   one value) is what publisher `path[1]` emits next.
   */
  lemma ChainStep<T>(net: Network<T>, path: seq<nat>, stages: seq<Stage<T>>, v: T)
    requires WellFormed(net) && Chain(net, path, stages) && |stages| > 0
    ensures var out := StageSeq(stages[0], [v]);
            && |out| <= 1
            && path[1] < |net.pubs|
            && Emit(net, path[0], v) == if |out| == 0 then [] else Emit(net, path[1], out[0])
  {
    var s := stages[0];
    SoleAdapter(net, path[0], s, path[1], Next(v));
    match s
    case MapStage(f) =>
      assert MapSeq(f, [v]) == [f(v)];
    case FilterStage(keep) =>
      assert FilterSeq(keep, [v]) == (if keep(v) then [v] else []) + FilterSeq(keep, []);
  }

  /** A publisher whose only subscriber is an adapter forwards every event through it. */
  lemma SoleAdapter<T>(net: Network<T>, k: nat, s: Stage<T>, t: nat, ev: Event<T>)
    requires WellFormed(net) && k < |net.pubs| && net.pubs[k] == [Adapter(s, t)]
    ensures k < t < |net.pubs|
    ensures Broadcast(net, k, ev) == if Passes(s, ev) then Broadcast(net, t, Transformed(s, ev)) else []
  {
    assert Targets(net, k, net.pubs[k]);
    assert net.pubs[k][0] == Adapter(s, t);
    assert net.pubs[k][1..] == [];
    assert Broadcast(net, k, ev) == Visit(net, k, Adapter(s, t), ev) + FanOut(net, k, [], ev);
  }

  /** Dropping the first stage of a chain leaves a chain. */
  lemma ChainTail<T>(net: Network<T>, path: seq<nat>, stages: seq<Stage<T>>)
    requires Chain(net, path, stages) && |stages| > 0
    ensures Chain(net, path[1..], stages[1..])
  {
    forall i | 0 <= i < |stages[1..]|
      ensures net.pubs[path[1..][i]] == [Adapter(stages[1..][i], path[1..][i + 1])]
    {
      assert net.pubs[path[i + 1]] == [Adapter(stages[i + 1], path[i + 2])];
    }
  }

  /**
   `map` and `filter` over a stream: emitting `vs` at the head of a chain
   hands every subscriber at its end exactly the reference pipeline's
   output, value by value, in order.
   */
  lemma {:induction false} ChainEmitAll<T>(net: Network<T>, path: seq<nat>, stages: seq<Stage<T>>, vs: seq<T>)
    requires WellFormed(net) && Chain(net, path, stages) && Leaf(net.pubs[path[|path| - 1]])
    ensures EmitAll(net, path[0], vs) == Spread(Ids(net.pubs[path[|path| - 1]]), Pipeline(stages, vs))
    decreases |vs|
  {
    var ids := Ids(net.pubs[path[|path| - 1]]);
    if |vs| == 0 {
      PipelineNil(stages);
    } else {
      ChainEmit(net, path, stages, vs[0]);
      ChainEmitAll(net, path, stages, vs[1..]);
      assert vs == [vs[0]] + vs[1..];
      PipelineConcat(stages, [vs[0]], vs[1..]);
      SpreadConcat(ids, Pipeline(stages, [vs[0]]), Pipeline(stages, vs[1..]));
    }
  }

  /** A single subscriber at the end of a chain receives the pipeline's output. */
  lemma SoleSubscriberReceives<T>(net: Network<T>, path: seq<nat>, stages: seq<Stage<T>>, vs: seq<T>, id: nat)
    requires WellFormed(net) && Chain(net, path, stages) && net.pubs[path[|path| - 1]] == [External(id)]
    ensures EmitAll(net, path[0], vs) == Deliveries(id, Pipeline(stages, vs))
  {
    var leaf := net.pubs[path[|path| - 1]];
    assert Leaf(leaf) && Ids(leaf) == [id];
    ChainEmitAll(net, path, stages, vs);
    SpreadSingle(id, Pipeline(stages, vs));
  }

  lemma {:induction false} SpreadSingle<T>(id: nat, ws: seq<T>)
    ensures Spread([id], ws) == Deliveries(id, ws)
    decreases |ws|
  {
    if |ws| > 0 {
      SpreadSingle(id, ws[1..]);
      assert Deliveries(id, ws) == [OnNext(id, ws[0])] + Deliveries(id, ws[1..]);
    }
  }

  // ---------------------------------------------------------------
  // The squares-of-evens example
  // ---------------------------------------------------------------

  function Square(n: int): int { n * n }

  predicate IsEven(n: int) { n % 2 == 0 }

  /**
   The example network: map(n -> n * n) on a fresh publisher (0), filter(even)
   on the squares (1), and one subscriber with id 0 on the even squares (2).
   Returns the network and the callbacks subscribing made.
   */
  function SquaresOfEvens(): (r: (Network<int>, seq<Signal<int>>))
    ensures WellFormed(r.0) && |r.0.pubs| == 3
  {
    var (n1, numbers) := NewPublisher(Empty<int>());
    var (n2, squares) := Map(n1, numbers, Square);
    var (n3, evens) := Filter(n2, squares, IsEven);
    Subscribe(n3, evens, 0)
  }

  lemma SquaresOfEvensShape()
    ensures SquaresOfEvens().0.pubs
            == [[Adapter(MapStage(Square), 1)], [Adapter(FilterStage(IsEven), 2)], [External(0)]]
    ensures SquaresOfEvens().1 == [OnSubscribe(0)]
  {
    var (n1, numbers) := NewPublisher(Empty<int>());
    var (n2, squares) := Map(n1, numbers, Square);
    var (n3, evens) := Filter(n2, squares, IsEven);
    var (n4, t) := Subscribe(n3, evens, 0);
    assert numbers == 0 && squares == 1 && evens == 2;
    var stages := [MapStage(Square), FilterStage(IsEven)];
    assert n1.pubs == [[]];
    assert n2.pubs[0] == [] + [Adapter(stages[0], 1)] == [Adapter(stages[0], 1)];
    assert n2.pubs == [[Adapter(stages[0], 1)], []];
    assert n3.pubs[1] == [] + [Adapter(stages[1], 2)] == [Adapter(stages[1], 2)];
    assert n3.pubs == [[Adapter(stages[0], 1)], [Adapter(stages[1], 2)], []];
    assert n4.pubs[2] == [] + [External(0)] == [External(0)];
  }

  lemma SquaresOfOneToFive()
    ensures MapSeq(Square, [1, 2, 3, 4, 5]) == [1, 4, 9, 16, 25]
  {
  }

  lemma EvensOfSquares()
    ensures FilterSeq(IsEven, [1, 4, 9, 16, 25]) == [4, 16]
  {
    var vs: seq<int> := [1, 4, 9, 16, 25];
    assert vs[1..] == [4, 9, 16, 25] && vs[2..] == [9, 16, 25] && vs[3..] == [16, 25] && vs[4..] == [25];
    assert FilterSeq(IsEven, [25]) == [] + FilterSeq(IsEven, []);
    assert FilterSeq(IsEven, [16, 25]) == [16] + FilterSeq(IsEven, [25]);
    assert FilterSeq(IsEven, [9, 16, 25]) == [] + FilterSeq(IsEven, [16, 25]);
    assert FilterSeq(IsEven, [4, 9, 16, 25]) == [4] + FilterSeq(IsEven, [9, 16, 25]);
  }

  lemma SquaresOfEvensPipeline()
    ensures Pipeline([MapStage(Square), FilterStage(IsEven)], [1, 2, 3, 4, 5]) == [4, 16]
  {
    var stages := [MapStage(Square), FilterStage(IsEven)];
    SquaresOfOneToFive();
    EvensOfSquares();
    assert Pipeline(stages, [1, 2, 3, 4, 5]) == Pipeline(stages[1..], [1, 4, 9, 16, 25]);
    assert Pipeline(stages[1..], [1, 4, 9, 16, 25]) == Pipeline(stages[2..], [4, 16]);
  }

  lemma SquaresOfEvensEmits()
    ensures EmitAll(SquaresOfEvens().0, 0, [1, 2, 3, 4, 5]) == [OnNext(0, 4), OnNext(0, 16)]
  {
    SquaresOfEvensShape();
    SquaresChainEmits(SquaresOfEvens().0);
  }

  /** Any well-formed network of the example's shape hands the subscriber 4 and 16. */
  lemma SquaresChainEmits(net: Network<int>)
    requires WellFormed(net)
    requires net.pubs == [[Adapter(MapStage(Square), 1)], [Adapter(FilterStage(IsEven), 2)], [External(0)]]
    ensures EmitAll(net, 0, [1, 2, 3, 4, 5]) == [OnNext(0, 4), OnNext(0, 16)]
  {
    var stages := [MapStage(Square), FilterStage(IsEven)];
    var path := [0, 1, 2];
    assert net.pubs[path[0]] == [Adapter(stages[0], path[1])];
    assert net.pubs[path[1]] == [Adapter(stages[1], path[2])];
    assert Chain(net, path, stages);
    SoleSubscriberReceives(net, path, stages, [1, 2, 3, 4, 5], 0);
    SquaresOfEvensPipeline();
    assert Deliveries(0, [4, 16]) == [OnNext(0, 4), OnNext(0, 16)];
  }

  lemma SquaresOfEvensCompletes()
    ensures CompleteAll(SquaresOfEvens().0, 0) == [OnComplete(0)]
  {
    var net := SquaresOfEvens().0;
    SquaresOfEvensShape();
    TerminalReachesAll(net, 0, Complete);
    assert Reach(net, 2) == [0];
    assert Reach(net, 1) == [0];
    assert Reach(net, 0) == [0];
  }

  /**
   In the example network, emitting 1 to 5 and completing on publisher 0
   hands the subscriber onSubscribe, 4, 16 and onComplete, in that order.
   */
  lemma SquaresOfEvensDemo()
    ensures var (net, t) := SquaresOfEvens();
            t + EmitAll(net, 0, [1, 2, 3, 4, 5]) + CompleteAll(net, 0)
            == [OnSubscribe(0), OnNext(0, 4), OnNext(0, 16), OnComplete(0)]
  {
    SquaresOfEvensShape();
    SquaresOfEvensEmits();
    SquaresOfEvensCompletes();
  }
}
