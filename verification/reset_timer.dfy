/**
 * resetTimer of the spike platform: program the next timer interrupt
 * RESET_CYCLES after the current time, and retry while the time read after
 * programming is already past the target (the interrupt would never fire).
 * The clock is a parameter: the successive values get_cycles() returns.
 */
module ResetTimer {
  import opened Arith

  const MsInS: nat := 1000

  /** RESET_CYCLES: cycles per millisecond (integer division) times the tick length in ms. */
  function ResetCycles(clockFreq: nat, tickMs: nat): (r: nat)
    ensures r * MsInS <= clockFreq * tickMs
    ensures clockFreq % MsInS == 0 ==> r * MsInS == clockFreq * tickMs
  {
    var perMs := clockFreq / MsInS;
    assert perMs * MsInS <= clockFreq;
    MulMonotone(perMs * MsInS, clockFreq, tickMs);
    perMs * tickMs
  }

  lemma MulMonotone(a: nat, b: nat, c: nat)
    requires a <= b
    ensures a * c <= b * c
  {}

  /** `get_cycles() + RESET_CYCLES` in 64-bit unsigned arithmetic. */
  function Target(now: Word64, reset: Word64): Word64
  {
    (now + reset) % Pow64
  }

  datatype TimerRun = TimerRun(programmed: seq<Word64>, settled: bool)

  /**
   * The loop, read off the clock values: each round reads the time, programs
   * its target and reads the time again; it ends when that second value is not
   * past the target. Running out of clock values leaves the run unsettled.
   */
  function Run(clock: seq<Word64>, reset: Word64): (r: TimerRun)
    ensures |r.programmed| >= 1 <==> |clock| >= 1
    ensures 2 * |r.programmed| <= |clock| + 1
    decreases |clock|
  {
    if |clock| == 0 then TimerRun([], false)
    else
      var t := Target(clock[0], reset);
      if |clock| == 1 then TimerRun([t], false)
      else if clock[1] <= t then TimerRun([t], true)
      else
        var rest := Run(clock[2..], reset);
        TimerRun([t] + rest.programmed, rest.settled)
  }

  /** Round k programs the target computed from the k-th first reading. */
  lemma {:induction false} RunTargets(clock: seq<Word64>, reset: Word64)
    ensures var r := Run(clock, reset);
      forall k :: 0 <= k < |r.programmed| ==> 2 * k < |clock| && r.programmed[k] == Target(clock[2 * k], reset)
    decreases |clock|
  {
    var r := Run(clock, reset);
    if |clock| >= 2 && clock[1] > Target(clock[0], reset) {
      var tail := clock[2..];
      var rest := Run(tail, reset);
      RunTargets(tail, reset);
      assert r.programmed == [Target(clock[0], reset)] + rest.programmed;
      forall k | 1 <= k < |r.programmed|
        ensures 2 * k < |clock| && r.programmed[k] == Target(clock[2 * k], reset)
      {
        var j := 2 * k - 2;
        assert r.programmed[k] == rest.programmed[k - 1];
        assert tail[j] == clock[j + 2];
      }
    }
  }

  /** Every round but the last retried because its second reading was already past its target. */
  lemma {:induction false} RunRetries(clock: seq<Word64>, reset: Word64)
    ensures var r := Run(clock, reset);
      forall k :: 0 <= k < |r.programmed| - 1 ==> 2 * k + 1 < |clock| && clock[2 * k + 1] > r.programmed[k]
    decreases |clock|
  {
    var r := Run(clock, reset);
    if |clock| >= 2 && clock[1] > Target(clock[0], reset) {
      var tail := clock[2..];
      var rest := Run(tail, reset);
      RunRetries(tail, reset);
      assert r.programmed == [Target(clock[0], reset)] + rest.programmed;
      forall k | 1 <= k < |r.programmed| - 1
        ensures 2 * k + 1 < |clock| && clock[2 * k + 1] > r.programmed[k]
      {
        var j := 2 * k - 1;
        assert r.programmed[k] == rest.programmed[k - 1];
        assert tail[j] == clock[j + 2];
      }
    }
  }

  /**
   * The loop exits exactly when the last round's second reading is not past
   * its target; otherwise the clock values ran out.
   */
  lemma {:induction false} RunSettles(clock: seq<Word64>, reset: Word64)
    ensures var r := Run(clock, reset);
      (r.settled ==> |r.programmed| >= 1 && 2 * |r.programmed| - 1 < |clock| &&
                     clock[2 * |r.programmed| - 1] <= r.programmed[|r.programmed| - 1]) &&
      (!r.settled ==> |clock| <= 2 * |r.programmed|)
    decreases |clock|
  {
    var r := Run(clock, reset);
    if |clock| >= 2 && clock[1] > Target(clock[0], reset) {
      var tail := clock[2..];
      var rest := Run(tail, reset);
      RunSettles(tail, reset);
      assert r.programmed == [Target(clock[0], reset)] + rest.programmed && r.settled == rest.settled;
      if r.settled {
        var j := 2 * |rest.programmed| - 1;
        assert r.programmed[|r.programmed| - 1] == rest.programmed[|rest.programmed| - 1];
        assert tail[j] == clock[j + 2];
      }
    }
  }

  /** If the clock moves by at most RESET_CYCLES while programming, and the target does not wrap, one round suffices. */
  lemma QuickClockSettlesAtOnce(clock: seq<Word64>, reset: Word64)
    requires |clock| >= 2 && clock[0] + reset < Pow64 && clock[1] <= clock[0] + reset
    ensures Run(clock, reset) == TimerRun([clock[0] + reset], true)
  {}

  /**
   * A target that wraps past 2^64 lies below the time it was computed from, so
   * with a clock that does not run backwards the round always retries.
   */
  lemma WrappedTargetRetries(clock: seq<Word64>, reset: Word64)
    requires |clock| >= 2 && clock[0] + reset >= Pow64 && clock[1] >= clock[0]
    ensures |Run(clock, reset).programmed| >= 1 && Run(clock, reset).programmed[0] < clock[1]
    ensures |clock| >= 3 ==> |Run(clock, reset).programmed| >= 2
  {
    var r := Run(clock, reset);
    assert Target(clock[0], reset) == clock[0] + reset - Pow64;
  }

  /** One retried round of the loop: its target, then whatever the remaining clock values give. */
  lemma RunUnfoldsRetry(clock: seq<Word64>, reset: Word64)
    requires |clock| >= 2 && clock[1] > Target(clock[0], reset)
    ensures Run(clock, reset).programmed == [Target(clock[0], reset)] + Run(clock[2..], reset).programmed
    ensures Run(clock, reset).settled == Run(clock[2..], reset).settled
  {}

  /** The retry loop of resetTimer; `programmed` lists the targets passed to sbi_set_timer. */
  method ResetTimerLoop(clock: seq<Word64>, reset: Word64) returns (run: TimerRun)
    ensures run == Run(clock, reset)
  {
    var programmed: seq<Word64> := [];
    var i := 0;
    while true
      invariant 0 <= i <= |clock| && i == 2 * |programmed|
      invariant Run(clock, reset).programmed == programmed + Run(clock[i..], reset).programmed
      invariant Run(clock, reset).settled == Run(clock[i..], reset).settled
      decreases |clock| - i
    {
      if i == |clock| {
        assert clock[i..] == [];
        return TimerRun(programmed, false);
      }
      var target := Target(clock[i], reset);
      if i + 1 == |clock| {
        assert clock[i..] == [clock[i]];
        return TimerRun(programmed + [target], false);
      }
      assert clock[i..][0] == clock[i] && clock[i..][1] == clock[i + 1];
      if clock[i + 1] <= target {
        return TimerRun(programmed + [target], true);
      }
      RunUnfoldsRetry(clock[i..], reset);
      assert clock[i..][2..] == clock[i + 2..];
      programmed := programmed + [target];
      i := i + 2;
    }
  }
}
