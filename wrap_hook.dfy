/** wrapHook (wrap-hook.js): fold an array of wrappers around a function.

    Each wrapper takes a function and returns a new one. The wrappers are
    applied in array order, each to the result of the previous one, so the
    first wrapper ends up innermost. A function is modelled by a value of
    an arbitrary type `F`, a wrapper by a total function `F -> F`. */
module WrapHooks {

  /** The left fold of `wrappers` around `fn`: `wrappers[0]` is applied first. */
  function Fold<F>(fn: F, wrappers: seq<F -> F>): (r: F)
  {
    if wrappers == [] then fn else Fold(wrappers[0](fn), wrappers[1..])
  }

  /** Adding a wrapper at the end of the array wraps the old result once more:
      the last wrapper is outermost. */
  lemma {:induction false} FoldSnoc<F>(fn: F, wrappers: seq<F -> F>, w: F -> F)
    ensures Fold(fn, wrappers + [w]) == w(Fold(fn, wrappers))
  {
    if wrappers == [] {
      assert wrappers + [w] == [w];
    } else {
      assert (wrappers + [w])[1..] == wrappers[1..] + [w];
      FoldSnoc(wrappers[0](fn), wrappers[1..], w);
    }
  }

  /** Folding two arrays one after the other is folding their concatenation. */
  lemma {:induction false} FoldConcat<F>(fn: F, a: seq<F -> F>, b: seq<F -> F>)
    ensures Fold(fn, a + b) == Fold(Fold(fn, a), b)
  {
    if a == [] {
      assert a + b == b;
    } else {
      assert (a + b)[1..] == a[1..] + b;
      FoldConcat(a[0](fn), a[1..], b);
    }
  }

  /** wrapHook: `fn` is reassigned to `arr[i](fn)` for each wrapper in turn.
      `history[k]` is the function after the first `k` wrappers, so each
      wrapper is applied exactly once, in array order, to the result of the
      one before it. The array is not modified (no `modifies` clause). */
  method WrapHook<F>(fn: F, arr: array<F -> F>) returns (r: F, ghost history: seq<F>)
    ensures r == Fold(fn, arr[..])
    ensures arr.Length == 0 ==> r == fn
    ensures |history| == arr.Length + 1 && history[0] == fn && history[arr.Length] == r
    ensures forall k :: 0 <= k < arr.Length ==> history[k + 1] == arr[k](history[k])
  {
    r := fn;
    history := [fn];
    var i := 0;
    while i < arr.Length
      invariant 0 <= i <= arr.Length
      invariant Fold(r, arr[i..]) == Fold(fn, arr[..])
      invariant |history| == i + 1 && history[0] == fn && history[i] == r
      invariant forall k :: 0 <= k < i ==> history[k + 1] == arr[k](history[k])
    {
      assert arr[i..][0] == arr[i] && arr[i..][1..] == arr[i + 1..];
      r := arr[i](r);
      history := history + [r];
      i := i + 1;
    }
    assert arr[..] == arr[0..];
  }
}
