/** applyHook (apply-hook.js): call every function of an array, in order,
    with the same five arguments. A hook is an opaque value of type `H`; the
    model records which hook is called and with which arguments. */
module ApplyHooks {

  /** One call `hook(arg1, arg2, arg3, arg4, arg5)`. */
  datatype HookCall<H, V> = HookCall(hook: H, arg1: V, arg2: V, arg3: V, arg4: V, arg5: V)

  /** The calls made when each of `hooks` is called, in order, with the
      same five arguments. */
  function Trace<H, V>(hooks: seq<H>, arg1: V, arg2: V, arg3: V, arg4: V, arg5: V): (t: seq<HookCall<H, V>>)
  {
    if hooks == [] then []
    else [HookCall(hooks[0], arg1, arg2, arg3, arg4, arg5)] + Trace(hooks[1..], arg1, arg2, arg3, arg4, arg5)
  }

  /** The trace has one call per hook: the k-th call is to the k-th hook,
      with the arguments given to applyHook. */
  lemma {:induction false} TraceAt<H, V>(hooks: seq<H>, arg1: V, arg2: V, arg3: V, arg4: V, arg5: V)
    ensures |Trace(hooks, arg1, arg2, arg3, arg4, arg5)| == |hooks|
    ensures forall k :: 0 <= k < |hooks| ==>
              Trace(hooks, arg1, arg2, arg3, arg4, arg5)[k] == HookCall(hooks[k], arg1, arg2, arg3, arg4, arg5)
  {
    if hooks != [] {
      TraceAt(hooks[1..], arg1, arg2, arg3, arg4, arg5);
    }
  }

  /** The trace for `a + b` is the trace for `a` followed by the trace for `b`. */
  lemma {:induction false} TraceConcat<H, V>(a: seq<H>, b: seq<H>, arg1: V, arg2: V, arg3: V, arg4: V, arg5: V)
    ensures Trace(a + b, arg1, arg2, arg3, arg4, arg5) ==
            Trace(a, arg1, arg2, arg3, arg4, arg5) + Trace(b, arg1, arg2, arg3, arg4, arg5)
  {
    if a == [] {
      assert a + b == b;
    } else {
      assert (a + b)[0] == a[0];
      assert (a + b)[1..] == a[1..] + b;
      TraceConcat(a[1..], b, arg1, arg2, arg3, arg4, arg5);
    }
  }

  /** applyHook: call each hook of `arr` once, in array order, with
      `arg1` to `arg5`; `calls` lists the calls made. The source returns
      nothing, and the array is not modified (no `modifies` clause). */
  method ApplyHook<H, V>(arr: array<H>, arg1: V, arg2: V, arg3: V, arg4: V, arg5: V)
    returns (calls: seq<HookCall<H, V>>)
    ensures calls == Trace(arr[..], arg1, arg2, arg3, arg4, arg5)
    ensures |calls| == arr.Length
    ensures forall k :: 0 <= k < arr.Length ==> calls[k] == HookCall(arr[k], arg1, arg2, arg3, arg4, arg5)
  {
    calls := [];
    var i := 0;
    while i < arr.Length
      invariant 0 <= i <= arr.Length
      invariant |calls| == i
      invariant forall k :: 0 <= k < i ==> calls[k] == HookCall(arr[k], arg1, arg2, arg3, arg4, arg5)
    {
      calls := calls + [HookCall(arr[i], arg1, arg2, arg3, arg4, arg5)];
      i := i + 1;
    }
    TraceAt(arr[..], arg1, arg2, arg3, arg4, arg5);
  }
}
