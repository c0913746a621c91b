/** A memoizing lazy cell: `lazy(f)` returns a closure that runs the
    zero-argument computation `f` on its first call, stores the result and
    hands the stored result back on every later call.

    The closure captures two variables, `value` (initially a placeholder
    `{}`) and the flag `isEvaled` (initially false). The flag is set only
    after `f` has returned, so a call of `f` that throws leaves the cell
    unevaluated and the next call runs `f` again.

    The file has two layers:
    - a value-level state machine (`State`, `ForceStep`, `Run`) with the
      lemmas about any sequence of forces;
    - the class `LazyCell`, whose fields are the closure's captured
      variables and whose `Force` method updates them in place, proved
      against `ForceStep`.
 */
module Lazy {

  /** The unit value `Tuple0` that the closure passes to `f`. */
  datatype Unit = Tuple0

  /** What one run of `f` does: it returns a value or throws. */
  datatype Outcome<T, E> = Returned(value: T) | Threw(error: E)

  /** The captured variable `value`: `None` stands for the placeholder `{}`
      it holds before the first successful run of `f`. */
  datatype Option<T> = None | Some(value: T)

  /** The thunk `f`. Its first argument is the unit value it is called with;
      its second is the number of times it has already run, which stands
      for whatever hidden state its side effects change, so that two runs
      of `f` may behave differently. */
  type Thunk<T, E> = (Unit, nat) -> Outcome<T, E>

  /** The state of one cell: the closure's two captured variables, plus the
      number of times `f` has been started so far. */
  datatype State<T> = State(isEvaled: bool, value: Option<T>, runs: nat)
  {
    /** A value is stored exactly when the flag is set. */
    predicate Valid() {
      isEvaled <==> value.Some?
    }
  }

  /** The state right after `lazy(f)`: nothing stored, flag clear, `f` not run. */
  function Init<T>(): (s: State<T>)
    ensures s.Valid() && !s.isEvaled && s.runs == 0
  {
    State(false, None, 0)
  }

  /** One call of the closure: what it returns (or throws) and the state it
      leaves behind. */
  function ForceStep<T, E>(f: Thunk<T, E>, s: State<T>): (res: (State<T>, Outcome<T, E>))
    requires s.Valid()
    ensures res.0.Valid()
    // the flag only moves from false to true
    ensures s.isEvaled ==> res.0.isEvaled
    // a call returns normally exactly when it leaves the cell evaluated,
    // and then it returns the stored value
    ensures res.1.Returned? <==> res.0.isEvaled
    ensures res.0.isEvaled ==> res.1 == Returned(res.0.value.value)
    // `f` runs at most once per call, and only when the flag was clear
    ensures res.0.runs == if s.isEvaled then s.runs else s.runs + 1
    // an evaluated cell is left as it is; otherwise the outcome is the
    // current run of `f`, made with the unit argument
    ensures s.isEvaled ==> res.0 == s && res.1 == Returned(s.value.value)
    ensures !s.isEvaled ==> res.1 == f(Tuple0, s.runs)
  {
    if !s.isEvaled then
      var out := f(Tuple0, s.runs);
      match out
      case Returned(v) => (State(true, Some(v), s.runs + 1), out)
      case Threw(_) => (s.(runs := s.runs + 1), out)
    else
      (s, Returned(s.value.value))
  }

  /** `n` successive, non-reentrant calls of the closure: the final state and
      the outcome of each call, in order. */
  function Run<T, E>(f: Thunk<T, E>, s: State<T>, n: nat): (res: (State<T>, seq<Outcome<T, E>>))
    requires s.Valid()
    ensures res.0.Valid() && |res.1| == n
    ensures res.0.runs >= s.runs
    decreases n
  {
    if n == 0 then (s, [])
    else
      var step := ForceStep(f, s);
      var rest := Run(f, step.0, n - 1);
      (rest.0, [step.1] + rest.1)
  }

  /** The index of the first outcome that returned normally, or `|outs|`
      when every one threw. */
  function FirstReturn<T, E>(outs: seq<Outcome<T, E>>): (k: nat)
    ensures k <= |outs|
    ensures k < |outs| ==> outs[k].Returned?
    ensures forall i :: 0 <= i < k ==> outs[i].Threw?
  {
    if outs == [] then 0
    else if outs[0].Returned? then 0
    else 1 + FirstReturn(outs[1..])
  }

  /** How many of the calls in `outs` found the cell unevaluated: every call
      up to and including the first one that returned normally. */
  function Attempts<T, E>(outs: seq<Outcome<T, E>>): (k: nat)
    ensures k <= |outs|
    ensures k < |outs| ==> 0 < k && outs[k - 1].Returned?
    ensures forall i :: 0 <= i < k - 1 ==> outs[i].Threw?
  {
    var first := FirstReturn(outs);
    if first < |outs| then first + 1 else |outs|
  }

  /** Once the cell is evaluated, any number of further calls leave it
      untouched, never run `f`, and all return the stored value. */
  lemma {:induction false} RunFromEvaluated<T, E>(f: Thunk<T, E>, s: State<T>, n: nat)
    requires s.Valid() && s.isEvaled
    ensures Run(f, s, n).0 == s
    ensures forall i :: 0 <= i < n ==> Run(f, s, n).1[i] == Returned(s.value.value)
    decreases n
  {
    if n > 0 {
      RunFromEvaluated(f, s, n - 1);
    }
  }

  /** The outcomes of `k` successive runs of `f`, the first of them
      started after `start` earlier runs. */
  function Tries<T, E>(f: Thunk<T, E>, start: nat, k: nat): (outs: seq<Outcome<T, E>>)
    ensures |outs| == k
    decreases k
  {
    if k == 0 then [] else [f(Tuple0, start)] + Tries(f, start + 1, k - 1)
  }

  /** The `i`-th of those outcomes is the one of run number `start + i`. */
  lemma {:induction false} TriesAt<T, E>(f: Thunk<T, E>, start: nat, k: nat, i: nat)
    requires i < k
    ensures Tries(f, start, k)[i] == f(Tuple0, start + i)
    decreases k
  {
    if i > 0 {
      TriesAt(f, start + 1, k - 1, i - 1);
    }
  }

  /** Calls on an unevaluated cell whose next run of `f` returns: only the
      first call runs `f`. */
  lemma OneAttemptWhenFirstRunReturns<T, E>(f: Thunk<T, E>, s: State<T>, n: nat)
    requires s.Valid() && !s.isEvaled && n > 0 && f(Tuple0, s.runs).Returned?
    ensures Attempts(Run(f, s, n).1) == 1
    ensures Run(f, s, n).0.runs == s.runs + 1
    ensures Run(f, s, n).1[..1] == Tries(f, s.runs, 1)
  {
    var s1 := ForceStep(f, s).0;
    var outs := Run(f, s, n).1;
    assert outs[0] == f(Tuple0, s.runs);
    assert FirstReturn(outs) == 0;
    assert Run(f, s, n).0 == Run(f, s1, n - 1).0 == s1 by {
      RunFromEvaluated(f, s1, n - 1);
    }
    assert outs[..1] == [f(Tuple0, s.runs)];
  }

  /** Calls on an unevaluated cell whose next run of `f` throws: the first
      call runs `f` and the rest behave as calls on the cell it leaves. */
  lemma AttemptsAfterThrow<T, E>(f: Thunk<T, E>, s: State<T>, s1: State<T>, n: nat)
    requires s.Valid() && !s.isEvaled && n > 0 && f(Tuple0, s.runs).Threw?
    requires s1 == s.(runs := s.runs + 1)
    requires Run(f, s1, n - 1).0.runs == s1.runs + Attempts(Run(f, s1, n - 1).1)
    requires Run(f, s1, n - 1).1[..Attempts(Run(f, s1, n - 1).1)]
      == Tries(f, s1.runs, Attempts(Run(f, s1, n - 1).1))
    ensures Run(f, s, n).0 == Run(f, s1, n - 1).0
    ensures Run(f, s, n).1 == [f(Tuple0, s.runs)] + Run(f, s1, n - 1).1
    ensures Run(f, s, n).0.runs == s.runs + Attempts(Run(f, s, n).1)
    ensures Run(f, s, n).1[..Attempts(Run(f, s, n).1)] == Tries(f, s.runs, Attempts(Run(f, s, n).1))
  {
    var out := f(Tuple0, s.runs);
    var rest := Run(f, s1, n - 1).1;
    var outs := Run(f, s, n).1;
    assert outs == [out] + rest && Run(f, s, n).0 == Run(f, s1, n - 1).0;
    var k := Attempts(rest);
    assert Attempts(outs) == 1 + k by {
      assert outs[1..] == rest;
      assert FirstReturn(outs) == 1 + FirstReturn(rest);
    }
    calc {
      outs[..Attempts(outs)];
      [out] + rest[..k];
      [f(Tuple0, s.runs)] + Tries(f, s.runs + 1, k);
      Tries(f, s.runs, 1 + k);
    }
  }

  /** Calls on an unevaluated cell run `f` once each, in order, until the
      first run that returns; no other call runs `f`. */
  lemma {:induction false} RunAttempts<T, E>(f: Thunk<T, E>, s: State<T>, n: nat)
    requires s.Valid() && !s.isEvaled
    ensures Run(f, s, n).0.runs == s.runs + Attempts(Run(f, s, n).1)
    ensures Run(f, s, n).1[..Attempts(Run(f, s, n).1)] == Tries(f, s.runs, Attempts(Run(f, s, n).1))
    decreases n
  {
    if n > 0 {
      if f(Tuple0, s.runs).Returned? {
        OneAttemptWhenFirstRunReturns(f, s, n);
      } else {
        var s1 := s.(runs := s.runs + 1);
        RunAttempts(f, s1, n - 1);
        AttemptsAfterThrow(f, s, s1, n);
      }
    }
  }

  /** Calls on an unevaluated cell: the first call that returns normally
      stores its value and sets the flag, and every later call returns that
      same value; the flag stays clear while every call throws. */
  lemma {:induction false} RunCaches<T, E>(f: Thunk<T, E>, s: State<T>, n: nat)
    requires s.Valid() && !s.isEvaled
    ensures Run(f, s, n).0.isEvaled <==> FirstReturn(Run(f, s, n).1) < n
    ensures Run(f, s, n).0.isEvaled ==>
      Run(f, s, n).0.value == Some(Run(f, s, n).1[FirstReturn(Run(f, s, n).1)].value)
    ensures forall i :: FirstReturn(Run(f, s, n).1) <= i < n ==>
      Run(f, s, n).1[i] == Run(f, s, n).1[FirstReturn(Run(f, s, n).1)]
    decreases n
  {
    if n > 0 {
      var step := ForceStep(f, s);
      var s1, out := step.0, step.1;
      var tail := Run(f, s1, n - 1);
      var rest := tail.1;
      var outs := Run(f, s, n).1;
      assert Run(f, s, n) == (tail.0, [out] + rest);
      if out.Returned? {
        RunFromEvaluated(f, s1, n - 1);
        assert FirstReturn(outs) == 0;
        forall i | 1 <= i < n
          ensures outs[i] == out
        {
          assert outs[i] == rest[i - 1];
        }
      } else {
        RunCaches(f, s1, n - 1);
        assert outs[1..] == rest;
        var k := FirstReturn(rest);
        assert FirstReturn(outs) == 1 + k;
        forall i | 1 + k <= i < n
          ensures outs[i] == outs[1 + k]
        {
          assert outs[i] == rest[i - 1];
        }
      }
    }
  }

  /** Value stability: across any sequence of calls, once one call returns
      normally every later call returns the same value (and none throws). */
  lemma MemoizedResultIsStable<T, E>(f: Thunk<T, E>, s: State<T>, n: nat, i: nat, j: nat)
    requires s.Valid()
    requires i < j < n && Run(f, s, n).1[i].Returned?
    ensures Run(f, s, n).1[j] == Run(f, s, n).1[i]
  {
    if s.isEvaled {
      RunFromEvaluated(f, s, n);
    } else {
      RunCaches(f, s, n);
    }
  }

  /** `f` returns normally at most once: every run of `f` before the last
      one the calls made threw. */
  lemma AtMostOneSuccessfulRun<T, E>(f: Thunk<T, E>, s: State<T>, n: nat, i: nat)
    requires s.Valid() && !s.isEvaled
    requires i + 1 < Attempts(Run(f, s, n).1)
    ensures f(Tuple0, s.runs + i).Threw?
  {
    var outs := Run(f, s, n).1;
    RunAttempts(f, s, n);
    TriesAt(f, s.runs, Attempts(outs), i);
    assert outs[i] == outs[..Attempts(outs)][i];
  }

  /** A fresh cell whose first run of `f` returns: any number `n >= 1` of
      calls runs `f` exactly once and every call returns that first result. */
  lemma FirstReturnIsCached<T, E>(f: Thunk<T, E>, n: nat)
    requires n >= 1 && f(Tuple0, 0).Returned?
    ensures Run(f, Init(), n).0.runs == 1
    ensures forall i :: 0 <= i < n ==> Run(f, Init(), n).1[i] == f(Tuple0, 0)
  {
    var outs := Run(f, Init(), n).1;
    RunAttempts(f, Init(), n);
    RunCaches(f, Init(), n);
    assert outs[0] == f(Tuple0, 0);
    assert FirstReturn(outs) == 0;
  }

  /** A call whose run of `f` throws leaves the flag clear and the stored
      placeholder as it was, so the next call runs `f` again. */
  lemma FailedRunIsRetried<T, E>(f: Thunk<T, E>, s: State<T>)
    requires s.Valid() && !s.isEvaled && f(Tuple0, s.runs).Threw?
    ensures ForceStep(f, s).1 == f(Tuple0, s.runs)
    ensures ForceStep(f, s).0 == s.(runs := s.runs + 1)
    ensures ForceStep(f, ForceStep(f, s).0).1 == f(Tuple0, s.runs + 1)
  {
  }

  /** The cell built by `lazy(f)`: the fields are the variables the closure
      `memoed` captures; `runs` counts the runs of `f` and has no
      counterpart in the closure. */
  class LazyCell<T, E> {
    const f: Thunk<T, E>
    var isEvaled: bool
    var value: Option<T>
    var runs: nat

    ghost predicate Valid()
      reads this
    {
      CurrentState().Valid()
    }

    /** The cell's fields as a `State`. */
    function CurrentState(): State<T>
      reads this
    {
      State(isEvaled, value, runs)
    }

    /** `lazy(f)`: stores `f`, leaves `value` as a placeholder and the flag
        clear, and does not run `f`. */
    constructor (f: Thunk<T, E>)
      ensures Valid() && this.f == f
      ensures CurrentState() == Init()
    {
      this.f := f;
      value := None;
      isEvaled := false;
      runs := 0;
    }

    /** A call `memoed(x)`. The argument `x` is ignored: nothing in the
        contract depends on it. */
    method Force<X>(x: X) returns (out: Outcome<T, E>)
      requires Valid()
      modifies this
      ensures Valid()
      ensures (CurrentState(), out) == ForceStep(f, old(CurrentState()))
      // already evaluated: nothing changes and the stored value comes back
      ensures old(isEvaled) ==>
        out == Returned(old(value).value) && CurrentState() == old(CurrentState())
      // not yet evaluated: `f` runs once with the unit argument; the flag is
      // set and the result stored only when it returns
      ensures !old(isEvaled) ==>
        out == f(Tuple0, old(runs)) && runs == old(runs) + 1
        && isEvaled == out.Returned?
        && value == (if out.Returned? then Some(out.value) else old(value))
    {
      if !isEvaled {
        var result := f(Tuple0, runs);
        runs := runs + 1;
        match result {
          case Returned(v) =>
            value := Some(v);
            isEvaled := true;
          case Threw(_) =>
            out := result;
            return;
        }
      }
      out := Returned(value.value);
    }
  }

  /** A client: a cell over a thunk that returns `1 + 1`, forced four times,
      runs the thunk once and yields 2 every time. */
  method ForceFourTimes()
  {
    var cell := new LazyCell<int, string>((u: Unit, k: nat) => Returned(1 + 1));
    assert cell.runs == 0;
    var a := cell.Force(Tuple0);
    var b := cell.Force(17);
    var c := cell.Force("x");
    var d := cell.Force(Tuple0);
    assert a == b == c == d == Returned(2);
    assert cell.runs == 1;
  }
}
