/** The callback-registry dispatcher of barracks (index.js).

    A dispatcher keeps an ordered list of records pairing an action name
    with a callback. `Register` appends a record, `GetCallbacks` selects the
    callbacks registered under one action in registration order, and
    `Dispatch` calls each selected callback once, in that order, with the
    dispatched data. Callbacks are opaque identifiers. What a callback does
    is not modelled, only that it is called and with what. */
module Barracks {

  type Action = string

  /** An opaque identifier standing for a callback function. */
  type Callback(==, !new)

  /** One entry of the registry: `{action: action, callback: callback}`. */
  datatype Record = Record(action: Action, callback: Callback)

  /** One invocation made by a dispatch: `callback` called with `data`. */
  datatype Call<D> = Call(callback: Callback, data: D)

  /** The callbacks of the records whose action equals `a`, in the order of
      the records (the `filter` then `map` of getCallbacks). */
  function Select(records: seq<Record>, a: Action): (r: seq<Callback>)
    ensures |r| <= |records|
    ensures forall f :: f in r <==> Record(a, f) in records
  {
    if records == [] then []
    else
      assert records == [records[0]] + records[1..];
      (if records[0].action == a then [records[0].callback] else []) + Select(records[1..], a)
  }

  /** The positions, from `i` on, of the records whose action equals `a`,
      in increasing order: an index-based reference for `Select`. */
  function Positions(records: seq<Record>, a: Action, i: nat): (m: seq<nat>)
    requires i <= |records|
    decreases |records| - i
    ensures forall k :: 0 <= k < |m| ==> i <= m[k] < |records| && records[m[k]].action == a
    ensures forall k, l :: 0 <= k < l < |m| ==> m[k] < m[l]
    ensures forall j :: i <= j < |records| && records[j].action == a ==> j in m
  {
    if i == |records| then []
    else (if records[i].action == a then [i] else []) + Positions(records, a, i + 1)
  }

  /** The calls made when each of `cbs` is called, in order, with `data`. */
  function Invoke<D>(cbs: seq<Callback>, data: D): (t: seq<Call<D>>)
    ensures |t| == |cbs|
    ensures forall k :: 0 <= k < |cbs| ==> t[k] == Call(cbs[k], data)
  {
    if cbs == [] then [] else [Call(cbs[0], data)] + Invoke(cbs[1..], data)
  }

  /** `Select` picks exactly the records at `Positions`: the k-th selected
      callback is the callback of the k-th matching record. */
  lemma {:induction false} SelectPositions(records: seq<Record>, a: Action, i: nat)
    requires i <= |records|
    decreases |records| - i
    ensures |Select(records[i..], a)| == |Positions(records, a, i)|
    ensures forall k :: 0 <= k < |Positions(records, a, i)| ==>
              Select(records[i..], a)[k] == records[Positions(records, a, i)[k]].callback
  {
    if i < |records| {
      SelectPositions(records, a, i + 1);
      var rest := records[i + 1..];
      assert records[i..] == [records[i]] + rest;
      assert ([records[i]] + rest)[1..] == rest;
      var s, s' := Select(records[i..], a), Select(rest, a);
      var p, p' := Positions(records, a, i), Positions(records, a, i + 1);
      if records[i].action == a {
        assert s == [records[i].callback] + s';
        assert p == [i] + p';
        forall k | 0 <= k < |p| ensures s[k] == records[p[k]].callback {
          if k > 0 {
            assert s[k] == s'[k - 1] && p[k] == p'[k - 1];
          }
        }
      } else {
        assert s == s' && p == p';
      }
    }
  }

  /** Selecting from two lists one after the other is selecting from each. */
  lemma {:induction false} SelectConcat(r1: seq<Record>, r2: seq<Record>, a: Action)
    ensures Select(r1 + r2, a) == Select(r1, a) + Select(r2, a)
  {
    if r1 != [] {
      SelectConcat(r1[1..], r2, a);
      assert (r1 + r2)[0] == r1[0];
      assert (r1 + r2)[1..] == r1[1..] + r2;
    } else {
      assert r1 + r2 == r2;
    }
  }

  /** Registering `(a, f)` adds `f` at the end of the selection for `a` and
      leaves the selection for every other action as it was. */
  lemma SelectRegister(records: seq<Record>, a: Action, f: Callback, b: Action)
    ensures Select(records + [Record(a, f)], b) ==
            if b == a then Select(records, b) + [f] else Select(records, b)
  {
    SelectConcat(records, [Record(a, f)], b);
    assert Select([Record(a, f)], b) == (if b == a then [f] else []) + Select([], b);
  }

  /** Nothing is selected for `a` exactly when no record carries `a`. */
  lemma {:induction false} SelectEmpty(records: seq<Record>, a: Action)
    ensures Select(records, a) == [] <==> forall i :: 0 <= i < |records| ==> records[i].action != a
  {
    if records != [] {
      SelectEmpty(records[1..], a);
      assert forall i :: 1 <= i < |records| ==> records[i] == records[1..][i - 1];
    }
  }

  /** A callback is selected as many times as its record was registered:
      there is no de-duplication. */
  lemma {:induction false} SelectCount(records: seq<Record>, a: Action, f: Callback)
    ensures multiset(Select(records, a))[f] == multiset(records)[Record(a, f)]
  {
    if records != [] {
      SelectCount(records[1..], a, f);
      assert records == [records[0]] + records[1..];
    }
  }

  /** Registering the same pair twice makes a later dispatch call it twice. */
  lemma RegisterTwice<D>(records: seq<Record>, a: Action, f: Callback, data: D)
    ensures Select(records + [Record(a, f)] + [Record(a, f)], a) == Select(records, a) + [f, f]
    ensures Invoke(Select(records + [Record(a, f)] + [Record(a, f)], a), data) ==
            Invoke(Select(records, a), data) + [Call(f, data), Call(f, data)]
  {
    var once := records + [Record(a, f)];
    SelectRegister(records, a, f, a);
    SelectRegister(once, a, f, a);
    var sel := Select(records, a);
    assert Select(once, a) == sel + [f];
    assert Select(once + [Record(a, f)], a) == (sel + [f]) + [f];
    assert (sel + [f]) + [f] == sel + [f, f];
    InvokeTwice(sel, f, data);
  }

  /** Two more callbacks at the end make two more calls at the end
      (a helper for `RegisterTwice`). */
  lemma InvokeTwice<D>(cbs: seq<Callback>, f: Callback, data: D)
    ensures Invoke(cbs + [f, f], data) == Invoke(cbs, data) + [Call(f, data), Call(f, data)]
  {
  }

  class Dispatcher {
    /** The registered records, oldest first. */
    var callbacks: seq<Record>

    /** A new dispatcher, created with or without `new`, has no records. */
    constructor ()
      ensures callbacks == []
    {
      callbacks := [];
    }

    /** getCallbacks: the callbacks of the records whose action equals `a`,
        in registration order. */
    function GetCallbacks(a: Action): (r: seq<Callback>)
      reads this
      ensures |r| <= |callbacks|
      ensures forall f :: f in r <==> Record(a, f) in callbacks
    {
      Select(callbacks, a)
    }

    /** register: append one record at the end; nothing is validated and
        nothing is de-duplicated. */
    method Register(a: Action, f: Callback)
      modifies this
      ensures callbacks == old(callbacks) + [Record(a, f)]
      ensures GetCallbacks(a) == old(GetCallbacks(a)) + [f]
      ensures forall b :: b != a ==> GetCallbacks(b) == old(GetCallbacks(b))
    {
      callbacks := callbacks + [Record(a, f)];
      forall b
        ensures Select(callbacks, b) == if b == a then old(Select(callbacks, b)) + [f] else old(Select(callbacks, b))
      {
        SelectRegister(old(callbacks), a, f, b);
      }
    }

    /** dispatch: fix the selected callbacks first, then call each of them
        once, in order, with `data`; the returned trace lists the calls made.
        The registry itself is not changed. */
    method Dispatch<D>(a: Action, data: D) returns (trace: seq<Call<D>>)
      ensures trace == Invoke(GetCallbacks(a), data)
      ensures |trace| == |GetCallbacks(a)|
      ensures forall k :: 0 <= k < |trace| ==> trace[k] == Call(GetCallbacks(a)[k], data)
      ensures trace == [] <==> forall i :: 0 <= i < |callbacks| ==> callbacks[i].action != a
    {
      var selected := GetCallbacks(a);
      trace := [];
      var i := 0;
      while i < |selected|
        invariant 0 <= i <= |selected|
        invariant |trace| == i
        invariant forall k :: 0 <= k < i ==> trace[k] == Call(selected[k], data)
      {
        trace := trace + [Call(selected[i], data)];
        i := i + 1;
      }
      SelectEmpty(callbacks, a);
    }
  }
}
