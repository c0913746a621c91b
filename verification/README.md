# Lazy: a memoizing lazy cell

This project models the lazy values of the Elm runtime's native `Lazy`
module. `lazy(f)` takes a computation `f` of one unit argument and returns
a closure, `memoed`. The closure captures two variables: `value`, which
starts as an empty placeholder object, and the flag `isEvaled`, which starts
false. On a call made while the flag is clear, the closure runs
`f(Tuple0)`, stores the result in `value` and only then sets the flag.
Every call returns `value`. The closure ignores its own argument.

`lazy.dfy` holds one module, `Lazy`, with two layers:

- A value-level state machine. `State` holds the two captured variables and
  a count of how many times `f` has run. `ForceStep` is one call of the
  closure, and `Run` is `n` successive calls. The lemmas about repeated
  forcing are stated over `Run`.
- The class `LazyCell`. Its fields are the captured variables. Its
  constructor is `lazy(f)`, and `Force` is a call of `memoed`, which
  updates the fields in place. `Force`'s postcondition ties the new fields
  and the returned outcome to `ForceStep` on the old fields.

The thunk `f` is a Dafny function of type `(Unit, nat) -> Outcome<T, E>`:

- The `Unit` argument is the `Tuple0` the closure passes.
- The `nat` argument is the number of earlier runs of `f`. It stands for
  whatever state `f`'s side effects change, so two runs of `f` may differ.
  This makes memoization visible in the returned values, not only in a
  counter.
- `Outcome` is either `Returned(v)` or `Threw(e)`, a JavaScript exception
  escaping `f`.

The class's `runs` field counts the runs of `f`. The JavaScript closure has
no such variable; the model adds it so that the effects of `f` can be
observed. The placeholder `{}` is modelled as `None`.

The code has only the boolean flag, and it is set after `f` returns. So
there is no "evaluating" state, no detection of a cell forced from inside
its own thunk, and no poisoning after a failure. A thunk that throws leaves
the cell unevaluated, and the next call runs `f` again.

## Model

| member | source | states |
|---|---|---|
| `Lazy.LazyCell.constructor` | src/Native/Lazy.js:12-14 | `lazy(f)` keeps `f`, leaves `value` as the placeholder and the flag clear, and does not run `f` (the state is `Init()`, with zero runs) |
| `Lazy.Init` | src/Native/Lazy.js:13-14 | a new cell is consistent, unevaluated, and `f` has not run |
| `Lazy.LazyCell.Force` | src/Native/Lazy.js:15-21 | on an evaluated cell: returns the stored value and changes nothing. On an unevaluated cell: runs `f(Tuple0)` once; stores the result and sets the flag only if `f` returns; leaves `value` as it was if `f` throws. The argument `x` plays no part |
| `Lazy.ForceStep` | src/Native/Lazy.js:15-21 | one call keeps the invariant "flag set iff a value is stored" and never clears the flag. It returns normally exactly when it leaves the cell evaluated, and then it returns the stored value. An evaluated cell is left exactly as it was. On a clear flag the outcome is the current run of `f(Tuple0)`, so `f` runs once when the flag was clear and not at all otherwise |
| `Lazy.Run` | src/Native/Lazy.js:15-21 | `n` successive calls give `n` outcomes, keep the invariant and never decrease the run count |
| `Lazy.RunFromEvaluated` | src/Native/Lazy.js:16-20 | once evaluated, any number of further calls leave the cell unchanged, never run `f`, and all return the stored value |
| `Lazy.RunAttempts` | src/Native/Lazy.js:16-18 | from an unevaluated cell, the calls run `f` once each, in order, up to and including the first run that returns. Their outcomes are exactly those runs of `f`, and no later call runs `f` |
| `Lazy.OneAttemptWhenFirstRunReturns` | src/Native/Lazy.js:16-20 | if the next run of `f` returns, only the first of `n` calls runs `f` |
| `Lazy.AttemptsAfterThrow` | src/Native/Lazy.js:16-18 | if the next run of `f` throws, `n` calls end in the same state as `n - 1` calls on the still-unevaluated cell with one more run counted, and their outcomes are that thrown outcome followed by those `n - 1` outcomes. The run-count and attempted-runs facts of `RunAttempts` carry over from that cell to this one |
| `Lazy.RunCaches` | src/Native/Lazy.js:16-20 | from an unevaluated cell, the cell ends evaluated iff some call returned normally. The stored value is the first normal result, and every call after it returns that same outcome |
| `Lazy.MemoizedResultIsStable` | src/Native/Lazy.js:15-21 | from any state, once a call returns normally, every later call returns the same value and none throws |
| `Lazy.AtMostOneSuccessfulRun` | src/Native/Lazy.js:16-19 | `f` returns normally at most once: every run of `f` before the last one the calls made threw |
| `Lazy.FirstReturnIsCached` | src/Native/Lazy.js:12-21 | for a new cell whose first run of `f` returns, `n >= 1` calls run `f` exactly once and all return that first result |
| `Lazy.FailedRunIsRetried` | src/Native/Lazy.js:17-18 | a call whose run of `f` throws propagates the exception. It leaves the flag clear and `value` untouched, and the next call runs `f` again |
| `Lazy.FirstReturn` | src/Native/Lazy.js:16-18 | index of the first normal outcome of a sequence of calls: every earlier one threw |
| `Lazy.TriesAt` | src/Native/Lazy.js:17 | the `i`-th of `k` consecutive runs of `f` is run number `start + i` |

## Left out

- Reentrant forcing is not modelled. `f` is a Dafny function value, so it cannot call the cell's closure. In the source, a thunk that forces its own cell would run `f` again, because nothing marks the cell as being evaluated. When the inner run returns, the inner call stores its result and sets the flag. When the outer run returns afterwards, the outer call overwrites `value` with its own result (src/Native/Lazy.js:17-18). The inner call and every later call can then return different values, so value stability does not hold for reentrant calls. The lemmas about `Run` cover sequences of non-reentrant calls only.
- Registration with the host runtime is not modelled: the `Elm.Native.Lazy.make` wrapper, its `localRuntime.Native` namespace setup, the cached `values` early return and the `Elm.Native.Utils.make` lookup (src/Native/Lazy.js:1-10, 25-28). It is module wiring, not logic.
- `Utils.Tuple0` comes from the Utils module, which is not part of this model. It is modelled as the single value of `Unit`.
- JavaScript exceptions are modelled only as the `Threw` outcome of `f`, propagated unchanged by the call. Unwinding, `finally`, and exceptions other than one escaping `f` are not modelled.
- The placeholder object `{}` is modelled as `None`. The model does not give it a JavaScript identity.
- Concurrency is not modelled. The closure is single-threaded, with no lock or guard.
