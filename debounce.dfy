/** `debounce(func, wait)` of js/script.js: the returned function keeps one
    `timeout` slot; each call clears the pending timer and schedules a new one with
    its own arguments, and when a timer fires it runs `func` with them. The slot is
    modelled as the arguments of the pending invocation, if any; the wait itself is
    not modelled. */
module Debounce {
  import opened Optional

  /** What can happen to a debounced function: it is called, or its timer fires. */
  datatype Signal<A> = Called(args: A) | Fired

  /** One signal: the new slot, and the arguments `func` runs with (None if it does not run). */
  function Step<A>(pending: Option<A>, sig: Signal<A>): (r: (Option<A>, Option<A>))
    ensures sig.Called? ==> r == (Some(sig.args), None)
    ensures sig.Fired? ==> r.0 == None && r.1 == pending
  {
    match sig
    case Called(args) => (Some(args), None)
    case Fired => (None, pending)
  }

  /** The final slot and the invocations of `func`, in order, for a run of signals. */
  function Run<A>(pending: Option<A>, sigs: seq<Signal<A>>): (Option<A>, seq<A>)
    decreases |sigs|
  {
    if sigs == [] then (pending, [])
    else
      var step := Step(pending, sigs[0]);
      var rest := Run(step.0, sigs[1..]);
      (rest.0, (if step.1.Some? then [step.1.value] else []) + rest.1)
  }

  function Calls<A>(args: seq<A>): (r: seq<Signal<A>>)
    ensures |r| == |args|
    ensures forall k :: 0 <= k < |r| ==> r[k] == Called(args[k])
  {
    seq(|args|, k requires 0 <= k < |args| => Called(args[k]))
  }

  /** Number of calls among the signals. */
  function CallCount<A>(sigs: seq<Signal<A>>): nat
    decreases |sigs|
  {
    if sigs == [] then 0 else (if sigs[0].Called? then 1 else 0) + CallCount(sigs[1..])
  }

  /** A burst of calls followed by one timer firing runs `func` once, with the
      arguments of the last call, and leaves nothing pending. */
  lemma {:induction false} BurstRunsOnce<A>(pending: Option<A>, args: seq<A>)
    requires |args| > 0
    ensures Run(pending, Calls(args) + [Fired]) == (None, [args[|args| - 1]])
    decreases |args|
  {
    var sigs := Calls(args) + [Fired];
    var rest := Run(Some(args[0]), sigs[1..]);
    assert sigs[0] == Called(args[0]);
    assert [] + rest.1 == rest.1;
    assert Run(pending, sigs) == rest;
    if |args| == 1 {
      var one: seq<Signal<A>> := [Fired];
      assert sigs[1..] == one && one[1..] == [];
      assert [args[0]] + [] == [args[0]];
    } else {
      assert sigs[1..] == Calls(args[1..]) + [Fired];
      BurstRunsOnce(Some(args[0]), args[1..]);
    }
  }

  /** `func` never runs more often than the debounced function was called, plus
      one for an invocation already pending at the start. */
  lemma {:induction false} RunsAtMostCalls<A>(pending: Option<A>, sigs: seq<Signal<A>>)
    ensures |Run(pending, sigs).1| <= CallCount(sigs) + (if pending.Some? then 1 else 0)
    decreases |sigs|
  {
    if sigs != [] {
      RunsAtMostCalls(Step(pending, sigs[0]).0, sigs[1..]);
    }
  }

  /** The debounced function with its single pending slot (the `timeout` variable). */
  class Debouncer<A> {
    var pending: Option<A>

    constructor ()
      ensures pending == None
    {
      pending := None;
    }

    /** A call: cancel the pending timer and schedule one for these arguments. */
    method Call(args: A)
      modifies this
      ensures (pending, None) == Step(old(pending), Called(args))
    {
      pending := Some(args);
    }

    /** The timer fires: `func` runs with the arguments of the latest call, if a
        timer was pending at all. */
    method Fire() returns (ran: Option<A>)
      modifies this
      ensures (pending, ran) == Step(old(pending), Fired)
    {
      ran := pending;
      pending := None;
    }
  }
}
