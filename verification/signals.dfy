/**
 Callbacks a publisher makes on its subscribers (the Reactive Streams
 `Subscriber` interface: onSubscribe, onNext, onError, onComplete), and
 traces of them. Every operation of the model returns the callbacks it
 made, in order, instead of invoking subscriber code.
 */
module Signals {

  /** Why an onError callback was made. */
  datatype Failure =
    | NonPositiveRequest       // request(n) with n <= 0
    | Raised(message: string)  // a failure handed to a publisher's error(...)

  /** One callback on the subscriber (or subscription) identified by `to`. */
  datatype Signal<T> =
    | OnSubscribe(to: nat)
    | OnNext(to: nat, item: T)
    | OnError(to: nat, failure: Failure)
    | OnComplete(to: nat)

  /** How many of `b` items a demand of `a` lets through. */
  function Min(a: nat, b: nat): nat
  {
    if a <= b then a else b
  }

  /** The items of all onNext callbacks of a trace, in trace order. */
  function Items<T>(trace: seq<Signal<T>>): seq<T>
  {
    if |trace| == 0 then []
    else (if trace[0].OnNext? then [trace[0].item] else []) + Items(trace[1..])
  }

  /** The items of the onNext callbacks addressed to `to`, in trace order. */
  function Delivered<T>(trace: seq<Signal<T>>, to: nat): seq<T>
  {
    if |trace| == 0 then []
    else (if trace[0].OnNext? && trace[0].to == to then [trace[0].item] else [])
         + Delivered(trace[1..], to)
  }

  /** Every callback of a trace that is addressed to `to`. */
  function Addressed<T>(trace: seq<Signal<T>>, to: nat): seq<Signal<T>>
  {
    if |trace| == 0 then []
    else (if trace[0].to == to then [trace[0]] else []) + Addressed(trace[1..], to)
  }

  /** The trace of handing `items`, in order, to the onNext of `to`. */
  function Deliveries<T>(to: nat, items: seq<T>): (r: seq<Signal<T>>)
    ensures |r| == |items|
    ensures forall i :: 0 <= i < |r| ==> r[i] == OnNext(to, items[i])
    ensures Items(r) == items
    ensures Delivered(r, to) == items
    ensures forall other :: other != to ==> Delivered(r, other) == []
  {
    if |items| == 0 then []
    else
      var rest := Deliveries(to, items[1..]);
      assert ([OnNext(to, items[0])] + rest)[1..] == rest;
      assert items == [items[0]] + items[1..];
      [OnNext(to, items[0])] + rest
  }

  lemma {:induction false} ItemsConcat<T>(a: seq<Signal<T>>, b: seq<Signal<T>>)
    ensures Items(a + b) == Items(a) + Items(b)
    decreases |a|
  {
    if |a| == 0 {
      assert a + b == b;
    } else {
      var head := if a[0].OnNext? then [a[0].item] else [];
      assert (a + b)[0] == a[0];
      assert (a + b)[1..] == a[1..] + b;
      assert Items(a + b) == head + Items(a[1..] + b);
      ItemsConcat(a[1..], b);
      assert Items(a) == head + Items(a[1..]);
    }
  }

  lemma {:induction false} DeliveredConcat<T>(a: seq<Signal<T>>, b: seq<Signal<T>>, to: nat)
    ensures Delivered(a + b, to) == Delivered(a, to) + Delivered(b, to)
    decreases |a|
  {
    if |a| == 0 {
      assert a + b == b;
    } else {
      var head := if a[0].OnNext? && a[0].to == to then [a[0].item] else [];
      assert (a + b)[0] == a[0];
      assert (a + b)[1..] == a[1..] + b;
      assert Delivered(a + b, to) == head + Delivered(a[1..] + b, to);
      DeliveredConcat(a[1..], b, to);
      assert Delivered(a, to) == head + Delivered(a[1..], to);
    }
  }

  lemma {:induction false} AddressedConcat<T>(a: seq<Signal<T>>, b: seq<Signal<T>>, to: nat)
    ensures Addressed(a + b, to) == Addressed(a, to) + Addressed(b, to)
    decreases |a|
  {
    if |a| == 0 {
      assert a + b == b;
    } else {
      var head := if a[0].to == to then [a[0]] else [];
      assert (a + b)[0] == a[0];
      assert (a + b)[1..] == a[1..] + b;
      assert Addressed(a + b, to) == head + Addressed(a[1..] + b, to);
      AddressedConcat(a[1..], b, to);
      assert Addressed(a, to) == head + Addressed(a[1..], to);
    }
  }

  /** A trace of onNext callbacks all addressed to `to` hands `to` one item per callback. */
  lemma {:induction false} DeliveredAll<T>(trace: seq<Signal<T>>, to: nat)
    requires forall i :: 0 <= i < |trace| ==> trace[i].OnNext? && trace[i].to == to
    ensures trace == Deliveries(to, Delivered(trace, to))
    decreases |trace|
  {
    if |trace| > 0 {
      DeliveredAll(trace[1..], to);
      assert trace == [trace[0]] + trace[1..];
    }
  }
}
