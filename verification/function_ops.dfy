/** `once(func)` as a state machine. The wrapper it returns closes over a
    private `ran` flag; `calls` counts how often the wrapped function has
    actually been invoked, so that the promise "at most once" can be stated.
    The wrapper returns undefined on every call, so a call yields only the
    next state. */
module FunctionOps {
  import opened Wrappers

  datatype OnceState = OnceState(ran: bool, calls: nat)

  /** The state captured by a fresh `once(func)`: not run, never called. */
  const Fresh := OnceState(false, 0)

  /** The states reachable from `Fresh`: the wrapped function has been
      invoked exactly once if the flag is set, and never otherwise. */
  predicate Reachable(s: OnceState) {
    s.calls == if s.ran then 1 else 0
  }

  /** One call of the wrapper whose wrapped function, if it runs, returns
      normally: it runs only if the flag is still clear, and the flag is set
      afterwards. */
  function Invoke(s: OnceState): (r: OnceState)
    ensures r.ran
    ensures Reachable(s) ==> Reachable(r) && r.calls == 1
    ensures s.ran ==> r == s
  {
    if !s.ran then OnceState(true, s.calls + 1) else s
  }

  /** The state after `k` calls of the wrapper. */
  function InvokeTimes(s: OnceState, k: nat): OnceState
    decreases k
  {
    if k == 0 then s else Invoke(InvokeTimes(s, k - 1))
  }

  /** However often the wrapper is called, the wrapped function runs once
      at most, and it runs exactly once as soon as the wrapper was called. */
  lemma {:induction false} OnceCallsFuncOnce(k: nat)
    ensures Reachable(InvokeTimes(Fresh, k))
    ensures InvokeTimes(Fresh, k).calls == if k == 0 then 0 else 1
    decreases k
  {
    if k > 0 {
      OnceCallsFuncOnce(k - 1);
    }
  }

  /** Once the wrapper has run, further calls change nothing. */
  lemma {:induction false} InvokeAfterRunIsNoOp(s: OnceState, k: nat)
    requires s.ran
    ensures InvokeTimes(s, k) == s
    decreases k
  {
    if k > 0 {
      InvokeAfterRunIsNoOp(s, k - 1);
    }
  }

  // ---------------------------------------------------------------- failing calls

  /** How a run of the wrapped function ends: it returns, or it throws. A
      throw skips the assignment `ran = true` that follows the call. */
  datatype Outcome = Returns | Throws

  /** One call of the wrapper when the wrapped function, if it runs, ends
      with `o`: after a throw the flag is still clear. */
  function Call(s: OnceState, o: Outcome): (r: OnceState)
    ensures s.ran ==> r == s
    ensures !s.ran ==> r.calls == s.calls + 1 && (r.ran <==> o == Returns)
    ensures o == Returns ==> r == Invoke(s)
  {
    if s.ran then s else OnceState(o == Returns, s.calls + 1)
  }

  /** The state after one call per entry of `os`, in order. */
  function CallAll(s: OnceState, os: seq<Outcome>): OnceState
    decreases |os|
  {
    if |os| == 0 then s else Call(CallAll(s, os[..|os| - 1]), os[|os| - 1])
  }

  /** Reference count: every call up to and including the first one whose
      wrapped function returns runs it; no later call does. */
  function RunsUntilReturn(os: seq<Outcome>): nat
    decreases |os|
  {
    if |os| == 0 then 0
    else if os[0] == Returns then 1
    else 1 + RunsUntilReturn(os[1..])
  }

  lemma {:induction false} RunsUntilReturnAppend(os: seq<Outcome>, o: Outcome)
    ensures Returns !in os ==> RunsUntilReturn(os) == |os|
    ensures RunsUntilReturn(os + [o]) == if Returns in os then RunsUntilReturn(os) else |os| + 1
    decreases |os|
  {
    if |os| > 0 {
      assert (os + [o])[1..] == os[1..] + [o];
      RunsUntilReturnAppend(os[1..], o);
      assert Returns in os <==> os[0] == Returns || Returns in os[1..] by {
        assert os == [os[0]] + os[1..];
      }
    }
  }

  /** A fresh wrapper runs the wrapped function once per call until a run
      returns, and never after: "at most once" holds only for a function
      that does not throw. The flag is set exactly when some run returned. */
  lemma {:induction false} OnceRunsUntilFirstReturn(os: seq<Outcome>)
    ensures CallAll(Fresh, os).calls == RunsUntilReturn(os)
    ensures CallAll(Fresh, os).ran <==> Returns in os
    decreases |os|
  {
    if |os| > 0 {
      var init, o := os[..|os| - 1], os[|os| - 1];
      assert os == init + [o];
      OnceRunsUntilFirstReturn(init);
      RunsUntilReturnAppend(init, o);
    }
  }

  /** A first run that throws leaves the wrapper armed, so a second call
      runs the wrapped function again. */
  lemma ThrowThenReturnRunsTwice()
    ensures CallAll(Fresh, [Throws, Returns]).calls == 2
  {
    OnceRunsUntilFirstReturn([Throws, Returns]);
    assert [Throws, Returns][1..] == [Returns];
  }

  // ---------------------------------------------------------------- returned value

  /** The value every call of the wrapper returns: its body has no
      `return`, so each call yields undefined, whatever the wrapped function
      returned. `v` is what the wrapped function would return if run now. */
  function WrapperResult<R>(s: OnceState, v: R): (r: (OnceState, Option<R>))
    ensures r.0 == Invoke(s)
    ensures r.1 == None
  {
    (Invoke(s), None)
  }

  /** As written, the second call does not hand back the first call's
      result, against the promise that later calls return it. */
  lemma OnceForgetsFirstResult<R>(v: R, w: R)
    ensures WrapperResult(WrapperResult(Fresh, v).0, w).1 != Some(v)
    ensures RememberAll(Memo(None, 0), [v, w]).1 == [v, v]
  {
    assert [v, w][..1] == [v];
    var none: Memo<R> := Memo(None, 0);
    var empty: seq<R> := [];
    assert RememberAll(none, empty) == (none, empty);
    assert Remember(none, v) == (Memo(Some(v), 1), v);
    assert [v][..0] == empty && empty + [v] == [v];
    var first := RememberAll(none, [v]);
    assert first == (Memo(Some(v), 1), [v]);
    assert Remember(first.0, w) == (first.0, v);
  }

  /** The intended wrapper's state: the first call's result, once there is
      one, and how often the wrapped function ran. */
  datatype Memo<R> = Memo(result: Option<R>, calls: nat)

  /** One call of the intended wrapper: the first call runs the wrapped
      function and keeps its result `v`; later calls return the kept result
      without running it. */
  function Remember<R>(m: Memo<R>, v: R): (r: (Memo<R>, R))
    ensures m.result.Some? ==> r == (m, m.result.value)
    ensures m.result.None? ==> r.1 == v && r.0.result == Some(v) && r.0.calls == m.calls + 1
  {
    match m.result
    case Some(first) => (m, first)
    case None => (Memo(Some(v), m.calls + 1), v)
  }

  /** One call of the intended wrapper per element of `vs`: the final state
      and what each call returned. */
  function RememberAll<R>(m: Memo<R>, vs: seq<R>): (Memo<R>, seq<R>)
    decreases |vs|
  {
    if |vs| == 0 then (m, [])
    else
      var (prev, results) := RememberAll(m, vs[..|vs| - 1]);
      var (next, r) := Remember(prev, vs[|vs| - 1]);
      (next, results + [r])
  }

  /** The intended `once`: the wrapped function runs on the first call only,
      and every call returns the first call's result. */
  lemma {:induction false} OnceRemembersFirstResult<R>(vs: seq<R>)
    ensures |RememberAll(Memo(None, 0), vs).1| == |vs|
    ensures RememberAll(Memo(None, 0), vs).0.calls == if |vs| == 0 then 0 else 1
    ensures |vs| > 0 ==> RememberAll(Memo(None, 0), vs).0.result == Some(vs[0])
    ensures forall i :: 0 <= i < |vs| ==> RememberAll(Memo(None, 0), vs).1[i] == vs[0]
    decreases |vs|
  {
    if |vs| > 1 {
      var init := vs[..|vs| - 1];
      OnceRemembersFirstResult(init);
      assert init[0] == vs[0];
    }
  }
}
