# barracks dispatcher, modelled in Dafny

This project models the core of barracks, a small action dispatcher for
JavaScript applications, and proves properties of that model.

- `dispatcher.dfy`, module `Barracks`, models `index.js`. A `Dispatcher` object
  keeps an ordered list of `{action, callback}` records in the field
  `callbacks`. `Register` appends a record. `GetCallbacks(a)` selects the
  callbacks of the records whose action equals `a`, in registration order.
  `Dispatch(a, data)` fixes that selection first, then calls each selected
  callback once, in order, with `data` as its only argument. Callbacks are
  opaque identifiers (an abstract type `Callback`). Each call is recorded in a returned trace of
  `Call(callback, data)` values: the trace is the model's account of which
  side effects happen. The pure `Select` function specifies the selection.
  `Positions` is an index-based reference for it, and `Invoke` specifies the
  trace.
- `wrap_hook.dfy`, module `WrapHooks`, models `wrap-hook.js`. `WrapHook(fn, arr)`
  runs the loop `fn := arr[i](fn)` over the wrapper array. It is proved
  equal to the left fold `Fold`, in which the first wrapper ends up innermost.
  A ghost `history` records the function after each step.
- `apply_hook.dfy`, module `ApplyHooks`, models `apply-hook.js`. `ApplyHook(arr,
  arg1, ..., arg5)` calls each hook of the array in order with the same five
  arguments. It returns the trace of `HookCall` values, and `Trace`
  specifies that trace.

`test.js` describes a different dispatcher. It has a namespaced action table
built at construction, `waitFor` with cycle detection, and "not registered"
and "dispatch in progress" errors. `examples/series.js` and
`examples/flux-standard-action.js` use yet another API, built on `on()` and
`wait`. `index.js` implements none of this. Its `register` and `dispatch` raise none
of those errors, and `register` validates nothing. The model follows `index.js`.

Neither source function returns anything to its caller: `dispatch` discards
the array that `map` builds, although its doc comment says `@return
{Function[]}`, and `applyHook` returns nothing. The returned traces
(`Dispatch`'s `trace`, `ApplyHook`'s `calls`) only record the calls. The
JavaScript arrays handed to `wrapHook` and `applyHook` are modelled as Dafny
arrays, and the two methods have no `modifies` clause. This proves that
neither changes its array.

## Model

| member | source | states |
|---|---|---|
| `Barracks.Dispatcher.constructor` | index.js:21-24 | a new dispatcher (made with or without `new`) has an empty record list |
| `Barracks.Dispatcher.Register` | index.js:36-41 | exactly one record `(a, f)` is appended at the end, and earlier records keep their values and order; afterwards `GetCallbacks(a)` is the old selection plus `f`, and `GetCallbacks(b)` for every other `b` is unchanged |
| `Barracks.Dispatcher.GetCallbacks` | index.js:69-77 | the selection never has more entries than the registry; `f` is in it exactly when the record `(a, f)` was registered |
| `Barracks.Dispatcher.Dispatch` | index.js:54-59 | the trace has one call per selected callback, in selection order, each with `data` as its argument; the trace is empty exactly when no record carries the action, so an unregistered action calls nothing and does not fail; the registry is not changed (no `modifies`) |
| `Barracks.Select` | index.js:70-76 | the filter/map selection has at most as many entries as the records; a callback is selected exactly when its record `(a, f)` is present |
| `Barracks.Positions` | index.js:71-73 | the indices of the records whose action equals `a`, in strictly increasing order, and every such index is included |
| `Barracks.SelectPositions` | index.js:70-76 | the selection is exactly the records at `Positions`, in order: the k-th selected callback is the callback of the k-th matching record |
| `Barracks.SelectConcat` | index.js:70-76 | selecting from a concatenation of two record lists gives the selection from the first list followed by the selection from the second |
| `Barracks.SelectRegister` | index.js:36-41 | after appending `(a, f)`, the selection for `a` is the old one with `f` added at the end, and the selection for any `b != a` is unchanged |
| `Barracks.SelectEmpty` | index.js:69-77 | the selection for `a` is empty if and only if no record carries the action `a` |
| `Barracks.SelectCount` | index.js:36-41 | there is no de-duplication: `f` appears in the selection for `a` as often as the record `(a, f)` was registered |
| `Barracks.RegisterTwice` | index.js:36-41 | registering the same pair twice selects `f` twice, and the dispatch trace ends with two calls of `f` with the data |
| `Barracks.Invoke` | index.js:56-58 | the dispatch trace has one call per callback, and the k-th call is the k-th callback with the same `data` |
| `WrapHooks.WrapHook` | wrap-hook.js:5-10 | the result is the left fold of the wrappers around `fn`, and it is `fn` itself when the array is empty; each wrapper is applied exactly once, in array order, to the result of the previous one; the array is not modified |
| `WrapHooks.FoldSnoc` | wrap-hook.js:6-8 | adding a wrapper `w` at the end gives `w` applied to the old result, so the first wrapper is innermost |
| `WrapHooks.FoldConcat` | wrap-hook.js:6-8 | folding `a + b` around `fn` equals folding `b` around the fold of `a` |
| `ApplyHooks.ApplyHook` | apply-hook.js:5-9 | each hook of the array is called exactly once, in array order, each time with the same five arguments, and an empty array gives no calls; the array is not modified |
| `ApplyHooks.TraceAt` | apply-hook.js:6-8 | the trace has one call per hook, and the k-th call is the k-th hook with `arg1` to `arg5` |
| `ApplyHooks.TraceConcat` | apply-hook.js:6-8 | the trace for `a + b` is the trace for `a` followed by the trace for `b` |

## Left out

- Callback and hook bodies are not modelled: what a callback, hook or wrapper
  does internally, what it returns, and any exception it throws. This includes
  a callback that calls `register` while a dispatch is running. `Dispatch`
  fixes the selection before the first call, as `filter` does in the source,
  but the model has no way for a call to reach back into the dispatcher.
- `Barracks.Dispatcher.Dispatch`: every registered callback is assumed callable.
  `register` accepts any value, and `callback.call(callback, data)` throws a
  `TypeError` for a value that is not a function. An exception from a callback
  likewise leaves `dispatch` after the earlier callbacks have run and skips the
  rest. Neither case, with its partial trace, is modelled.
- `ApplyHooks.ApplyHook`: every element of `arr` is assumed callable. The
  `TypeError` that a non-function element raises partway through, after the
  earlier hooks have run, is not modelled, and neither is an exception thrown
  by a hook.
- `WrapHooks.WrapHook` and `ApplyHooks.ApplyHook`: sparse arrays are not
  modelled. `forEach` skips the holes of a sparse JavaScript array, so
  `applyHook([f, , g], ...)` calls only `f` and `g`. A Dafny array has no holes.
- The `this` binding in `callback.call(callback, data)` has no counterpart.
  Callbacks receive only `data`.
- Actions are strings, as the doc comments say. JavaScript's
  `===` on actions of other types is not modelled.
- `WrapHooks.WrapHook`: a wrapper must be a total function `F -> F`. The
  `TypeError` that JavaScript raises when an array element is not a function
  is not modelled.
- `ApplyHooks.ApplyHook`: all five arguments are values of one type `V`. The
  case where the caller passes fewer arguments, so that the missing ones are
  `undefined`, is not modelled separately.
- The namespaced action table, `waitFor`, circular-dependency detection, the
  "dispatch in progress" guard and `ctx.locals` asserted in `test.js` are not
  modelled, because `index.js` does not implement them.
- `examples/series.js` and `examples/flux-standard-action.js` use an
  `on()`/`wait` API that `index.js` does not provide, and they only log to the
  console. They are not modelled.
- The React view in `example/views/home.js` (UI) is not modelled. Nor are the
  store in `example/stores/count.js` (it wraps the external `simple-store`
  library) and the wiring in `example/dispatcher/`.
