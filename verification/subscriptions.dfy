/**
 The per-subscription state shared by the buffered and the throttling
 publisher: a demand counter and a cancelled flag for every subscription
 ever created, and the publisher's list of subscriptions it still serves.

 A subscription is identified by its handle, the position at which it was
 created. `active` is the publisher's `subscriptions` list: handles in
 registration order, from which `cancel` removes its own handle.
 */
module Subscriptions {

  /** One subscription's demand ledger and cancellation flag. */
  datatype Sub = Sub(requested: nat, cancelled: bool)

  /** All subscriptions of one publisher, by handle, and its active list. */
  datatype Registry = Registry(subs: seq<Sub>, active: seq<nat>)

  function Empty(): Registry
  {
    Registry([], [])
  }

  /** Every handle of `hs` names a subscription of `r`. */
  predicate Handles(r: Registry, hs: seq<nat>)
  {
    forall i :: 0 <= i < |hs| ==> hs[i] < |r.subs|
  }

  /** No handle occurs twice in `hs`. */
  predicate Distinct(hs: seq<nat>)
  {
    forall i, j :: 0 <= i < j < |hs| ==> hs[i] != hs[j]
  }

  /**
   The active list is in registration order (so without repetition) and
   holds exactly the subscriptions that are not cancelled.
   */
  predicate Valid(r: Registry)
  {
    && Handles(r, r.active)
    && (forall i, j :: 0 <= i < j < |r.active| ==> r.active[i] < r.active[j])
    && (forall h :: 0 <= h < |r.subs| ==> (h in r.active <==> !r.subs[h].cancelled))
  }

  /** A strictly increasing list of handles below `n` has at most `n` entries. */
  lemma {:induction false} IncreasingBelow(hs: seq<nat>, n: nat)
    requires forall i, j :: 0 <= i < j < |hs| ==> hs[i] < hs[j]
    requires forall i :: 0 <= i < |hs| ==> hs[i] < n
    ensures |hs| <= n
    decreases |hs|
  {
    if |hs| > 0 {
      var last := hs[|hs| - 1];
      var init := hs[..|hs| - 1];
      forall i | 0 <= i < |init|
        ensures init[i] < last
      {
        assert init[i] == hs[i];
      }
      IncreasingBelow(init, last);
    }
  }

  /** The first position of `x` in `s`, or |s| when `x` does not occur. */
  function IndexOf(s: seq<nat>, x: nat): (i: nat)
    ensures i <= |s|
    ensures i < |s| ==> s[i] == x
    ensures forall j :: 0 <= j < i ==> s[j] != x
  {
    if |s| == 0 then 0
    else if s[0] == x then 0
    else 1 + IndexOf(s[1..], x)
  }

  /** `List.remove(Object)`: drops the first occurrence of `x`, if any. */
  function RemoveFirst(s: seq<nat>, x: nat): (r: seq<nat>)
    ensures x !in s ==> r == s
    ensures x in s ==> |r| == |s| - 1
    ensures x in s ==> exists i :: 0 <= i < |s| && s[i] == x && x !in s[..i] && r == s[..i] + s[i + 1..]
  {
    var i := IndexOf(s, x);
    if i == |s| then s else s[..i] + s[i + 1..]
  }

  /** Registers a new subscription with no demand; returns it and its handle. */
  function Subscribe(r: Registry): (res: (Registry, nat))
    ensures res.1 == |r.subs|
    ensures res.0.subs == r.subs + [Sub(0, false)]
    ensures res.0.active == r.active + [res.1]
    ensures Valid(r) ==> Valid(res.0)
  {
    var h := |r.subs|;
    (Registry(r.subs + [Sub(0, false)], r.active + [h]), h)
  }

  /** Replaces the demand of subscription `h`, leaving everything else alone. */
  function WithDemand(r: Registry, h: nat, n: nat): (r': Registry)
    requires h < |r.subs|
    ensures |r'.subs| == |r.subs| && r'.active == r.active
    ensures r'.subs[h] == Sub(n, r.subs[h].cancelled)
    ensures forall g :: 0 <= g < |r.subs| && g != h ==> r'.subs[g] == r.subs[g]
    ensures Valid(r) ==> Valid(r')
  {
    r.(subs := r.subs[h := Sub(n, r.subs[h].cancelled)])
  }

  /**
   `cancel()`: sets the cancelled flag of `h` and removes `h` from the
   active list; nothing else changes.
   */
  function Cancel(r: Registry, h: nat): (r': Registry)
    requires h < |r.subs|
    ensures |r'.subs| == |r.subs|
    ensures r'.subs[h] == Sub(r.subs[h].requested, true)
    ensures forall g :: 0 <= g < |r.subs| && g != h ==> r'.subs[g] == r.subs[g]
    ensures Valid(r) ==> Valid(r') && h !in r'.active
    ensures Valid(r) ==> forall g :: g in r'.active <==> g in r.active && g != h
  {
    var active' := RemoveFirst(r.active, h);
    var r' := Registry(r.subs[h := Sub(r.subs[h].requested, true)], active');
    if Valid(r) then
      CancelKeepsValid(r, h, r');
      r'
    else r'
  }

  /** Removing one position keeps a strictly increasing list increasing. */
  lemma RemoveAtSorted(a: seq<nat>, i: nat)
    requires i < |a|
    requires forall j, k :: 0 <= j < k < |a| ==> a[j] < a[k]
    ensures var a' := a[..i] + a[i + 1..];
            forall j, k :: 0 <= j < k < |a'| ==> a'[j] < a'[k]
  {
    var a' := a[..i] + a[i + 1..];
    forall j, k | 0 <= j < k < |a'|
      ensures a'[j] < a'[k]
    {
      var j0 := if j < i then j else j + 1;
      var k0 := if k < i then k else k + 1;
      assert a'[j] == a[j0] && a'[k] == a[k0];
    }
  }

  /** Removing the only occurrence of `a[i]` removes exactly that value. */
  lemma RemoveAtMembers(a: seq<nat>, i: nat)
    requires i < |a|
    requires forall j, k :: 0 <= j < k < |a| ==> a[j] < a[k]
    ensures forall g :: g in a[..i] + a[i + 1..] <==> g in a && g != a[i]
  {
    var a' := a[..i] + a[i + 1..];
    forall g
      ensures g in a' <==> g in a && g != a[i]
    {
      if g in a' {
        var j :| 0 <= j < |a'| && a'[j] == g;
        var j0 := if j < i then j else j + 1;
        assert a[j0] == g && j0 != i;
      }
      if g in a && g != a[i] {
        var j :| 0 <= j < |a| && a[j] == g;
        assert j != i;
        if j < i { assert a'[j] == g; } else { assert a'[j - 1] == g; }
      }
    }
  }

  lemma CancelKeepsValid(r: Registry, h: nat, r': Registry)
    requires Valid(r) && h < |r.subs|
    requires r' == Registry(r.subs[h := Sub(r.subs[h].requested, true)], RemoveFirst(r.active, h))
    ensures Valid(r') && h !in r'.active
    ensures forall g :: g in r'.active <==> g in r.active && g != h
  {
    var a := r.active;
    var a' := r'.active;
    var subs' := r'.subs;
    if h in a {
      var i := IndexOf(a, h);
      assert a' == a[..i] + a[i + 1..];
      RemoveAtSorted(a, i);
      RemoveAtMembers(a, i);
    }
    assert forall g :: g in a' <==> g in a && g != h;
    assert Handles(r', a') by {
      forall k | 0 <= k < |a'|
        ensures a'[k] < |subs'|
      {
        assert a'[k] in a;
      }
    }
    assert forall g :: 0 <= g < |subs'| ==> (g in a' <==> !subs'[g].cancelled);
  }

  /** Calling cancel twice has the same effect as calling it once. */
  lemma CancelIdempotent(r: Registry, h: nat)
    requires Valid(r) && h < |r.subs|
    ensures Cancel(Cancel(r, h), h) == Cancel(r, h)
  {
    var r1 := Cancel(r, h);
    assert RemoveFirst(r1.active, h) == r1.active;
    assert r1.subs[h := Sub(r1.subs[h].requested, true)] == r1.subs;
  }
}
