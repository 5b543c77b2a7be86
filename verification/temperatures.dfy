/**
 `TemperatureCollection`: an append-only list of temperature readings with
 bounds-checked access, a plain iterator over all readings, and an iterator
 over the readings strictly above a threshold that looks one reading ahead
 and caches it, so that `hasNext` consumes nothing.

 Iterators keep only their own position (and cache); they read the
 collection's current list on every call, so readings added after an
 iterator was created are still visited. Readings are integers here: the
 `double` values and their comparison are abstracted to a total order.
 */
module Temperatures {

  /** The exceptions thrown by the collection and its iterators. */
  datatype Exception =
    | IndexOutOfBounds(index: int, size: nat)
    | NoSuchElement

  datatype Result<T> = Ok(value: T) | Err(error: Exception)

  datatype Option<T> = None | Some(value: T)

  datatype Collection = Collection(temperatures: seq<int>)

  function New(): (c: Collection)
    ensures Size(c) == 0
  {
    Collection([])
  }

  /** `addTemperature(t)`: appends one reading. */
  function AddTemperature(c: Collection, t: int): (c': Collection)
    ensures Size(c') == Size(c) + 1
    ensures c'.temperatures[..Size(c)] == c.temperatures && c'.temperatures[Size(c)] == t
  {
    Collection(c.temperatures + [t])
  }

  /** `size()`. */
  function Size(c: Collection): nat
  {
    |c.temperatures|
  }

  /** `getTemperature(index)`. */
  function GetTemperature(c: Collection, index: int): (r: Result<int>)
    ensures r.Err? <==> index < 0 || index >= Size(c)
    ensures r.Err? ==> r.error == IndexOutOfBounds(index, Size(c))
    ensures r.Ok? ==> r.value == c.temperatures[index]
  {
    if index < 0 || index >= |c.temperatures| then Err(IndexOutOfBounds(index, |c.temperatures|))
    else Ok(c.temperatures[index])
  }

  /**
   Adding a reading keeps every earlier index and makes the new reading the
   last one; the index that used to be out of bounds now holds it.
   */
  lemma GetAfterAdd(c: Collection, t: int, index: int)
    ensures var c' := AddTemperature(c, t);
            && (0 <= index < Size(c) ==> GetTemperature(c', index) == GetTemperature(c, index))
            && (index == Size(c) ==> GetTemperature(c', index) == Ok(t) && GetTemperature(c, index).Err?)
            && (index < 0 || index > Size(c) ==> GetTemperature(c', index).Err?)
  {
  }

  // ---------------------------------------------------------------
  // The plain iterator
  // ---------------------------------------------------------------

  /** `TemperatureIterator`: the index of the next reading. */
  datatype Cursor = Cursor(position: nat)

  /** `iterator()`. */
  function Iterator(c: Collection): (it: Cursor)
    ensures Remaining(c, it) == c.temperatures
  {
    Cursor(0)
  }

  /** The readings a cursor has still to return. */
  function Remaining(c: Collection, it: Cursor): seq<int>
  {
    if it.position <= |c.temperatures| then c.temperatures[it.position..] else []
  }

  /** `hasNext()`. */
  function HasNext(c: Collection, it: Cursor): (b: bool)
    ensures b <==> |Remaining(c, it)| > 0
  {
    it.position < |c.temperatures|
  }

  /** `next()`: the next reading, or NoSuchElement when there is none. */
  function Next(c: Collection, it: Cursor): (r: (Result<int>, Cursor))
    ensures |Remaining(c, it)| > 0 ==>
              r.0 == Ok(Remaining(c, it)[0]) && Remaining(c, r.1) == Remaining(c, it)[1..]
    ensures |Remaining(c, it)| == 0 ==> r == (Err(NoSuchElement), it)
  {
    if !HasNext(c, it) then (Err(NoSuchElement), it)
    else (Ok(c.temperatures[it.position]), Cursor(it.position + 1))
  }

  /** The for-each loop over the collection: it sees every reading, in insertion order. */
  method ForEach(c: Collection) returns (out: seq<int>)
    ensures out == c.temperatures
  {
    var it := Iterator(c);
    out := [];
    while HasNext(c, it)
      invariant out + Remaining(c, it) == c.temperatures
      decreases |Remaining(c, it)|
    {
      var step := Next(c, it);
      out := out + [step.0.value];
      it := step.1;
    }
  }

  // ---------------------------------------------------------------
  // The threshold iterator
  // ---------------------------------------------------------------

  /** Reference: the readings of `s` strictly above `threshold`, in order. */
  function Above(s: seq<int>, threshold: int): (r: seq<int>)
    ensures |r| <= |s|
    ensures forall i :: 0 <= i < |r| ==> r[i] > threshold && r[i] in s
    ensures forall i :: 0 <= i < |s| && s[i] > threshold ==> s[i] in r
  {
    if |s| == 0 then []
    else (if s[0] > threshold then [s[0]] else []) + Above(s[1..], threshold)
  }

  lemma {:induction false} AboveConcat(a: seq<int>, b: seq<int>, threshold: int)
    ensures Above(a + b, threshold) == Above(a, threshold) + Above(b, threshold)
    decreases |a|
  {
    if |a| == 0 {
      assert a + b == b;
    } else {
      assert (a + b)[1..] == a[1..] + b;
      AboveConcat(a[1..], b, threshold);
    }
  }

  /**
   The iterator of `aboveThresholdIterator(threshold)`: the position of the
   next reading to examine and the cached look-ahead reading, if any.
   */
  datatype Lookahead = Lookahead(threshold: int, position: nat, nextElement: Option<int>)

  /** `aboveThresholdIterator(threshold)`. */
  function AboveThresholdIterator(c: Collection, threshold: int): (it: Lookahead)
    ensures Pending(c, it) == Above(c.temperatures, threshold)
  {
    Lookahead(threshold, 0, None)
  }

  /** The readings the threshold iterator has still to return: the cached one, then the rest. */
  function Pending(c: Collection, it: Lookahead): seq<int>
  {
    (if it.nextElement.Some? then [it.nextElement.value] else [])
    + (if it.position <= |c.temperatures| then Above(c.temperatures[it.position..], it.threshold) else [])
  }

  /**
   The loop of `findNext()` from `position`: skips readings up to the
   threshold and stops after the first one above it (returned), or at the
   end of the list.
   */
  function Scan(s: seq<int>, threshold: int, position: nat): (r: (nat, Option<int>))
    requires position <= |s|
    ensures position <= r.0 <= |s|
    ensures r.1.Some? ==> position < r.0 && r.1.value == s[r.0 - 1] && s[r.0 - 1] > threshold
    ensures r.1.None? ==> r.0 == |s|
    ensures forall i :: position <= i < r.0 - (if r.1.Some? then 1 else 0) ==> s[i] <= threshold
    decreases |s| - position
  {
    if position == |s| then (position, None)
    else if s[position] > threshold then (position + 1, Some(s[position]))
    else Scan(s, threshold, position + 1)
  }

  /** Scanning moves the readings it passes over from the rest to the result, losing none. */
  lemma {:induction false} ScanKeepsPending(s: seq<int>, threshold: int, position: nat)
    requires position <= |s|
    ensures var (p, found) := Scan(s, threshold, position);
            Above(s[position..], threshold)
            == (if found.Some? then [found.value] else []) + Above(s[p..], threshold)
    decreases |s| - position
  {
    if position < |s| {
      assert s[position..] == [s[position]] + s[position + 1..];
      AboveConcat([s[position]], s[position + 1..], threshold);
      if s[position] <= threshold {
        ScanKeepsPending(s, threshold, position + 1);
      }
    }
  }

  /** The iterator's own invariant: it never looks past the end of the list. */
  predicate Valid(c: Collection, it: Lookahead)
  {
    it.position <= |c.temperatures|
  }

  /** `findNext()`. */
  function FindNext(c: Collection, it: Lookahead): (it': Lookahead)
    requires Valid(c, it)
    ensures Valid(c, it') && it'.threshold == it.threshold
    ensures it.position <= it'.position
    ensures it'.nextElement.None? ==> it'.position == Size(c)
    ensures it'.nextElement.None? ==> Pending(c, it') == []
    ensures Pending(c, it') == Above(c.temperatures[it.position..], it.threshold)
  {
    var (p, found) := Scan(c.temperatures, it.threshold, it.position);
    ScanKeepsPending(c.temperatures, it.threshold, it.position);
    Lookahead(it.threshold, p, found)
  }

  /**
   `hasNext()`: true exactly when a reading is still pending. It fills the
   cache when it is empty, but what remains to be returned is unchanged.
   */
  function HasNextAbove(c: Collection, it: Lookahead): (r: (bool, Lookahead))
    requires Valid(c, it)
    ensures Valid(c, r.1) && r.1.threshold == it.threshold
    ensures r.0 <==> |Pending(c, it)| > 0
    ensures r.0 <==> r.1.nextElement.Some?
    ensures Pending(c, r.1) == Pending(c, it)
    ensures it.position <= r.1.position
    ensures it.nextElement.Some? ==> r.1 == it
  {
    if it.nextElement.None? then
      var it' := FindNext(c, it);
      (it'.nextElement.Some?, it')
    else (true, it)
  }

  /**
   `next()`: the first pending reading, which is then no longer pending, or
   NoSuchElement when none is left.
   */
  function NextAbove(c: Collection, it: Lookahead): (r: (Result<int>, Lookahead))
    requires Valid(c, it)
    ensures Valid(c, r.1) && r.1.threshold == it.threshold
    ensures it.position <= r.1.position
    ensures |Pending(c, it)| > 0 ==> r.0 == Ok(Pending(c, it)[0]) && Pending(c, r.1) == Pending(c, it)[1..]
    ensures |Pending(c, it)| == 0 ==> r.0 == Err(NoSuchElement) && Pending(c, r.1) == []
  {
    var (b, it1) := HasNextAbove(c, it);
    if !b then (Err(NoSuchElement), it1)
    else (Ok(it1.nextElement.value), it1.(nextElement := None))
  }

  /** A second `hasNext()` in a row answers the same and changes nothing. */
  lemma HasNextAboveIdempotent(c: Collection, it: Lookahead)
    requires Valid(c, it)
    ensures var (b, it1) := HasNextAbove(c, it);
            HasNextAbove(c, it1) == (b, it1)
  {
    var (b, it1) := HasNextAbove(c, it);
    if !b {
      assert it1.position == Size(c) && it1.nextElement.None?;
      assert c.temperatures[it1.position..] == [];
    }
  }

  /**
   A reading added while an iterator is open is still returned by it, after
   the readings it was already going to return, if it is above the threshold.
   */
  lemma PendingAfterAdd(c: Collection, t: int, it: Lookahead)
    requires Valid(c, it)
    ensures Valid(AddTemperature(c, t), it)
    ensures Pending(AddTemperature(c, t), it)
            == Pending(c, it) + (if t > it.threshold then [t] else [])
  {
    var s := c.temperatures;
    assert (s + [t])[it.position..] == s[it.position..] + [t];
    AboveConcat(s[it.position..], [t], it.threshold);
    assert Above([t], it.threshold) == (if t > it.threshold then [t] else []) + Above([], it.threshold);
  }

  /**
   The usual `while (it.hasNext()) it.next()` loop over the threshold
   iterator returns exactly the readings above the threshold, in order.
   */
  method ForEachAbove(c: Collection, threshold: int) returns (out: seq<int>)
    ensures out == Above(c.temperatures, threshold)
  {
    var it := AboveThresholdIterator(c, threshold);
    out := [];
    var probe := HasNextAbove(c, it);
    var more := probe.0;
    it := probe.1;
    while more
      invariant Valid(c, it) && it.threshold == threshold
      invariant more <==> |Pending(c, it)| > 0
      invariant out + Pending(c, it) == Above(c.temperatures, threshold)
      decreases |Pending(c, it)|
    {
      ghost var before := Pending(c, it);
      var step := NextAbove(c, it);
      TakeFirst(out, before);
      out := out + [step.0.value];
      probe := HasNextAbove(c, step.1);
      more := probe.0;
      it := probe.1;
    }
  }

  /** Moving the first pending reading to the output keeps their concatenation. */
  lemma TakeFirst(out: seq<int>, pending: seq<int>)
    requires |pending| > 0
    ensures (out + [pending[0]]) + pending[1..] == out + pending
  {
    assert pending == [pending[0]] + pending[1..];
  }

  /**
   The readings 18.4, 18.5, 18.7, 18.8 and 18.6 (in tenths of a degree)
   above 18.6: 18.7 and 18.8.
   */
  lemma ThresholdExample()
    ensures Above([184, 185, 187, 188, 186], 186) == [187, 188]
  {
    var s := [184, 185, 187, 188, 186];
    assert s[1..] == [185, 187, 188, 186] && s[2..] == [187, 188, 186];
    assert s[3..] == [188, 186] && s[4..] == [186];
    assert Above([186], 186) == [] + Above([], 186);
    assert Above([188, 186], 186) == [188] + Above([186], 186);
    assert Above([187, 188, 186], 186) == [187] + Above([188, 186], 186);
  }
}
