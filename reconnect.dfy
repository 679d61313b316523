/**
 * The reconnect worker's `run` slot: it calls `custom_reconnect()` until one call
 * succeeds, looking at the thread's interruption flag only after a failed call.
 * The client and the thread are oracles: `outcomes[n]` is what call n returns and
 * `interrupts[n]` is what the flag reads after call n has failed.
 */
module Reconnect {

  /** What `run` does, in order: a call to `custom_reconnect`, the call to
      `loop_start`, and the one `finished` emission with its argument. */
  datatype Event = Attempt | LoopStart | Finished(success: bool)

  /** Some call succeeds, or the flag is seen set after some failed call. */
  predicate Stops(outcomes: seq<bool>, interrupts: seq<bool>) {
    |outcomes| == |interrupts| && exists k :: 0 <= k < |outcomes| && (outcomes[k] || interrupts[k])
  }

  /** The index of the call after which `run` stops. */
  function FirstStop(outcomes: seq<bool>, interrupts: seq<bool>): (k: nat)
    requires Stops(outcomes, interrupts)
    ensures k < |outcomes| && (outcomes[k] || interrupts[k])
    ensures forall i :: 0 <= i < k ==> !outcomes[i] && !interrupts[i]
    decreases |outcomes|
  {
    if outcomes[0] || interrupts[0] then 0
    else
      StopsInTail(outcomes, interrupts);
      1 + FirstStop(outcomes[1..], interrupts[1..])
  }

  lemma StopsInTail(outcomes: seq<bool>, interrupts: seq<bool>)
    requires Stops(outcomes, interrupts) && !outcomes[0] && !interrupts[0]
    ensures Stops(outcomes[1..], interrupts[1..])
  {
    var k :| 0 <= k < |outcomes| && (outcomes[k] || interrupts[k]);
    assert outcomes[1..][k - 1] == outcomes[k] && interrupts[1..][k - 1] == interrupts[k];
  }

  /** m calls to `custom_reconnect`. */
  function Attempts(m: nat): (r: seq<Event>)
    ensures |r| == m && forall i :: 0 <= i < m ==> r[i] == Attempt
  {
    seq(m, _ => Attempt)
  }

  /** What follows the last call: `loop_start` and `finished(True)` after a
      success, `finished(False)` alone after an interruption. */
  function Ending(success: bool): seq<Event> {
    if success then [LoopStart, Finished(true)] else [Finished(false)]
  }

  /** The events of `run`, call by call. */
  function Trace(outcomes: seq<bool>, interrupts: seq<bool>): seq<Event>
    requires Stops(outcomes, interrupts)
    decreases |outcomes|
  {
    if outcomes[0] then [Attempt] + Ending(true)
    else if interrupts[0] then [Attempt] + Ending(false)
    else
      StopsInTail(outcomes, interrupts);
      [Attempt] + Trace(outcomes[1..], interrupts[1..])
  }

  /** `run` makes FirstStop + 1 calls and then ends as the last call decides. */
  lemma {:induction false} TraceShape(outcomes: seq<bool>, interrupts: seq<bool>)
    requires Stops(outcomes, interrupts)
    ensures var k := FirstStop(outcomes, interrupts);
      Trace(outcomes, interrupts) == Attempts(k + 1) + Ending(outcomes[k])
    decreases |outcomes|
  {
    if outcomes[0] || interrupts[0] {
      assert Attempts(1) == [Attempt];
    } else {
      StopsInTail(outcomes, interrupts);
      var k := FirstStop(outcomes, interrupts);
      TraceShape(outcomes[1..], interrupts[1..]);
      assert outcomes[1..][k - 1] == outcomes[k];
      assert Attempts(k + 1) == [Attempt] + Attempts(k);
    }
  }

  /** `ReconnectWorker.run`, its calls replaced by the two oracles. */
  method Run(outcomes: seq<bool>, interrupts: seq<bool>) returns (log: seq<Event>)
    requires Stops(outcomes, interrupts)
    ensures log == Trace(outcomes, interrupts)
  {
    ghost var k := FirstStop(outcomes, interrupts);
    TraceShape(outcomes, interrupts);
    var n := 0;
    log := [Attempt];
    while !outcomes[n]
      invariant n <= k
      invariant log == Attempts(n + 1)
      decreases k - n
    {
      if interrupts[n] {
        log := log + [Finished(false)];
        return;
      }
      n := n + 1;
      log := log + [Attempt];
      assert log == Attempts(n + 1);
    }
    log := log + [LoopStart, Finished(true)];
  }

  function CountAttempts(log: seq<Event>): (c: nat)
    ensures c <= |log|
  {
    if log == [] then 0 else (if log[0] == Attempt then 1 else 0) + CountAttempts(log[1..])
  }

  lemma {:induction false} CountAppend(a: seq<Event>, b: seq<Event>)
    ensures CountAttempts(a + b) == CountAttempts(a) + CountAttempts(b)
    decreases |a|
  {
    if a == [] {
      assert a + b == b;
    } else {
      assert (a + b)[1..] == a[1..] + b;
      CountAppend(a[1..], b);
    }
  }

  lemma {:induction false} CountAttemptsOnly(m: nat)
    ensures CountAttempts(Attempts(m)) == m
  {
    if m > 0 {
      assert Attempts(m) == [Attempt] + Attempts(m - 1);
      CountAppend([Attempt], Attempts(m - 1));
      CountAttemptsOnly(m - 1);
    }
  }

  /**
   * If call k is the first success and the flag was clear after every earlier
   * failure, `run` makes exactly k + 1 calls, calls `loop_start` and emits
   * `finished(True)`. The flag after call k itself is never looked at.
   */
  lemma FirstSuccessConnects(outcomes: seq<bool>, interrupts: seq<bool>, k: nat)
    requires |outcomes| == |interrupts| && k < |outcomes| && outcomes[k]
    requires forall i :: 0 <= i < k ==> !outcomes[i] && !interrupts[i]
    ensures Stops(outcomes, interrupts)
    ensures Trace(outcomes, interrupts) == Attempts(k + 1) + [LoopStart, Finished(true)]
    ensures CountAttempts(Trace(outcomes, interrupts)) == k + 1
  {
    assert Stops(outcomes, interrupts);
    var f := FirstStop(outcomes, interrupts);
    assert f == k;
    TraceShape(outcomes, interrupts);
    CountAppend(Attempts(k + 1), [LoopStart, Finished(true)]);
    CountAttemptsOnly(k + 1);
  }

  /** A first call that succeeds wins even when interruption was already requested. */
  lemma SuccessBeforeInterruption(outcomes: seq<bool>, interrupts: seq<bool>)
    requires |outcomes| == |interrupts| > 0 && outcomes[0]
    ensures Stops(outcomes, interrupts)
    ensures Trace(outcomes, interrupts) == [Attempt, LoopStart, Finished(true)]
  {
    assert Stops(outcomes, interrupts);
  }

  /**
   * A flag seen set after failed call k: `finished(False)`, no `loop_start` and
   * no call after k.
   */
  lemma InterruptionCancels(outcomes: seq<bool>, interrupts: seq<bool>, k: nat)
    requires |outcomes| == |interrupts| && k < |outcomes| && !outcomes[k] && interrupts[k]
    requires forall i :: 0 <= i < k ==> !outcomes[i] && !interrupts[i]
    ensures Stops(outcomes, interrupts)
    ensures Trace(outcomes, interrupts) == Attempts(k + 1) + [Finished(false)]
    ensures LoopStart !in Trace(outcomes, interrupts)
    ensures CountAttempts(Trace(outcomes, interrupts)) == k + 1
  {
    assert Stops(outcomes, interrupts);
    var f := FirstStop(outcomes, interrupts);
    assert f == k;
    TraceShape(outcomes, interrupts);
    CountAppend(Attempts(k + 1), [Finished(false)]);
    CountAttemptsOnly(k + 1);
  }

  /**
   * `finished` is emitted exactly once, as the last event, with the outcome of
   * the last call; `loop_start` occurs at most once, and only just before
   * `finished(True)`.
   */
  lemma FinishedOnce(outcomes: seq<bool>, interrupts: seq<bool>)
    requires Stops(outcomes, interrupts)
    ensures var log := Trace(outcomes, interrupts);
      && |log| >= 2
      && log[|log| - 1] == Finished(outcomes[FirstStop(outcomes, interrupts)])
      && (forall p :: 0 <= p < |log| - 1 ==> !log[p].Finished?)
    ensures var log := Trace(outcomes, interrupts);
      forall p :: 0 <= p < |log| && log[p] == LoopStart ==>
        p == |log| - 2 && log[p + 1] == Finished(true)
  {
    TraceShape(outcomes, interrupts);
  }

  /**
   * No retry cap: when the first m calls fail and the flag stays clear, `run`
   * makes more than m calls, however large m is.
   */
  lemma NoRetryCap(outcomes: seq<bool>, interrupts: seq<bool>, m: nat)
    requires Stops(outcomes, interrupts)
    requires m <= |outcomes| && forall i :: 0 <= i < m ==> !outcomes[i] && !interrupts[i]
    ensures CountAttempts(Trace(outcomes, interrupts)) > m
  {
    var k := FirstStop(outcomes, interrupts);
    assert k >= m;
    TraceShape(outcomes, interrupts);
    CountAppend(Attempts(k + 1), Ending(outcomes[k]));
    CountAttemptsOnly(k + 1);
    assert CountAttempts(Ending(outcomes[k])) == 0;
  }

  /** Fail, fail, succeed, no interruption: three calls and one `loop_start`. */
  lemma FailFailSucceed()
    ensures Stops([false, false, true], [false, false, false])
    ensures Trace([false, false, true], [false, false, false])
      == [Attempt, Attempt, Attempt, LoopStart, Finished(true)]
  {
    FirstSuccessConnects([false, false, true], [false, false, false], 2);
    assert Attempts(3) == [Attempt, Attempt, Attempt];
  }
}
