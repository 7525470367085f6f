/**
 The deadline scheduler of the UART bit-banger: `wait_until` and the
 advancing deadline `deadline += BIT_CYCLES`.
 */
module Deadline {
  import opened Word
  import opened CycleClock
  import opened BusyWait

  /** `at` is the first reading from index `from` on at which `deadline` is reached. */
  predicate FirstReached(readings: seq<u32>, from: nat, deadline: u32, at: nat)
  {
    from <= at < |readings| && Reached(readings[at], deadline) &&
    forall k :: from <= k < at ==> !Reached(readings[k], deadline)
  }

  /** No reading from `from` on has reached `deadline`: a wait started there is still spinning. */
  predicate NeverReached(readings: seq<u32>, from: nat, deadline: u32)
  {
    forall k :: from <= k < |readings| ==> !Reached(readings[k], deadline)
  }

  /**
   `wait_until(deadline)`: poll the counter, starting with `readings[from]`,
   while `(int32_t)(CYCCNT - deadline) < 0`.
   */
  method WaitUntil(readings: seq<u32>, from: nat, deadline: u32) returns (r: Spin)
    ensures r.Returned? ==> FirstReached(readings, from, deadline, r.at)
    ensures r.StillSpinning? ==> NeverReached(readings, from, deadline)
  {
    if from >= |readings| {
      return StillSpinning;
    }
    var i := from;
    while i < |readings|
      invariant from <= i <= |readings|
      invariant forall k :: from <= k < i ==> !Reached(readings[k], deadline)
    {
      if Signed32(Elapsed(deadline, readings[i])) >= 0 {
        return Returned(i);
      }
      i := i + 1;
    }
    return StillSpinning;
  }

  /** The `k`-th deadline of a schedule anchored at the counter sample `s`. */
  function DeadlineAt(s: u32, k: nat, period: nat): (d: u32)
  {
    Wrap32(s + k * period)
  }

  /**
   One step of `deadline += BIT_CYCLES` (in 32-bit arithmetic) moves from
   the `k`-th deadline to the `k + 1`-th: the running deadline never depends
   on when the previous wait actually ended.
   */
  lemma {:induction false} AdvanceDeadline(s: u32, k: nat, period: nat)
    ensures Wrap32(DeadlineAt(s, k, period) + period) == DeadlineAt(s, k + 1, period)
  {
    WrapAdd(s + k * period, period);
    assert s + k * period + period == s + (k + 1) * period;
  }

  /** The first deadline is one period after the anchor. */
  lemma FirstDeadline(s: u32, period: nat)
    ensures DeadlineAt(s, 1, period) == Wrap32(s + period)
  {
  }

  /** The `k`-th deadline lies exactly `k` periods after the anchor, wrap or not. */
  lemma {:induction false} DeadlineDistance(s: u32, k: nat, period: nat)
    requires k * period < MOD32
    ensures Elapsed(s, DeadlineAt(s, k, period)) == k * period
  {
    ElapsedOfAdvance(s, k * period);
  }

  /**
   No drift: the reading at which the wait for the `k`-th deadline ends is
   `k` periods after the anchor plus only that one wait's own lateness,
   which is below 2^31. The error does not grow with `k`.
   */
  lemma {:induction false} NoDrift(s: u32, k: nat, period: nat, now: u32)
    requires k * period <= HALF32
    requires Reached(now, DeadlineAt(s, k, period))
    ensures Elapsed(DeadlineAt(s, k, period), now) < HALF32
    ensures Elapsed(s, now) == k * period + Elapsed(DeadlineAt(s, k, period), now)
  {
    var n := k * period;
    var d: int := DeadlineAt(s, k, period);
    assert d == Wrap32(s + n);
    var late: int := Elapsed(d, now);
    WrapAdd(s + n, late);
    assert now == Wrap32(s + (n + late));
    ElapsedOfAdvance(s, n + late);
  }
}
