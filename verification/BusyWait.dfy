/**
 The elapsed-time busy-wait delays `delay_us` / `delay_ms`.

 A delay samples the counter once (`start`), computes a cycle budget, and
 spins while `(uint32_t)(CYCCNT - start) < budget`. The counter is supplied
 by the environment as the finite run of readings the loop would see:
 `readings[0]` is the start sample and `readings[1..]` are the successive
 polls. When the run ends before the loop condition turns false, the model
 reports that the delay is still spinning, where the program keeps polling.
 */
module BusyWait {
  import opened Word
  import opened CycleClock

  /** How a busy-wait over a finite run of counter readings ended. */
  datatype Spin = Returned(at: nat) | StillSpinning

  /** A 64 MHz core clock: the SPI program's default `CPU_HZ` and the `SystemCoreClock` of the UART programs. */
  const CLOCK_64MHZ: u32 := 64_000_000

  /** The delay loop's condition is false at `now`: at least `cycles` have elapsed since `start`. */
  predicate DelayOver(start: u32, now: u32, cycles: nat)
  {
    Elapsed(start, now) >= cycles
  }

  /** `at` is the first poll after the start sample at which the delay is over. */
  predicate FirstDelayOver(readings: seq<u32>, cycles: nat, at: nat)
  {
    1 <= at < |readings| && DelayOver(readings[0], readings[at], cycles) &&
    forall k :: 1 <= k < at ==> !DelayOver(readings[0], readings[k], cycles)
  }

  /**
   The spin of `delay_us` / `delay_ms`: `start` is the first reading, and
   the loop returns at the first later reading that is `cycles` or more
   past it.
   */
  method SpinDelay(readings: seq<u32>, cycles: nat) returns (r: Spin)
    ensures r.Returned? ==> FirstDelayOver(readings, cycles, r.at)
    ensures r.StillSpinning? ==>
      forall k :: 1 <= k < |readings| ==> !DelayOver(readings[0], readings[k], cycles)
  {
    if |readings| == 0 {
      return StillSpinning;
    }
    var start := readings[0];
    var i := 1;
    while i < |readings|
      invariant 1 <= i <= |readings|
      invariant forall k :: 1 <= k < i ==> !DelayOver(start, readings[k], cycles)
    {
      if Elapsed(start, readings[i]) >= cycles {
        return Returned(i);
      }
      i := i + 1;
    }
    return StillSpinning;
  }

  /** `(uint32_t)((CPU_HZ / 1000000UL) * us)`, every step in 32-bit arithmetic. */
  function UsBudget(cpuHz: u32, us: u32): (b: u32)
    ensures b <= (cpuHz / 1_000_000) * us
    ensures ((cpuHz / 1_000_000) * us - b) % MOD32 == 0
  {
    Wrap32((cpuHz / 1_000_000) * us)
  }

  /** `(uint32_t)((CPU_HZ / 1000UL) * ms)`, every step in 32-bit arithmetic. */
  function MsBudget(cpuHz: u32, ms: u32): (b: u32)
    ensures b <= (cpuHz / 1_000) * ms
    ensures ((cpuHz / 1_000) * ms - b) % MOD32 == 0
  {
    Wrap32((cpuHz / 1_000) * ms)
  }

  /**
   `(uint64_t)SystemCoreClock * ms / 1000u`: the product is formed in 64
   bits and never wraps there, so the budget is the exact quotient.
   */
  function MsTicks64(sysClk: u32, ms: u32): (t: nat)
    ensures sysClk * ms < MOD64
    ensures t * 1000 <= sysClk * ms < t * 1000 + 1000
  {
    var product := sysClk * ms;
    ProductFits64(sysClk, ms);
    assert Wrap64(product) == product;
    DivRounds(product, 1000);
    Wrap64(product) / 1000
  }

  lemma ProductFits64(a: u32, b: u32)
    ensures a * b < MOD64
  {
    MulMonotone(b, MOD32 - 1, a);
    MulMonotone(a, MOD32 - 1, MOD32 - 1);
  }

  /** The 32-bit microsecond budget is the intended product exactly when that product fits in 32 bits. */
  lemma UsBudgetExactIffFits(cpuHz: u32, us: u32)
    ensures UsBudget(cpuHz, us) == (cpuHz / 1_000_000) * us <==> (cpuHz / 1_000_000) * us < MOD32
  {
  }

  /** At the default 64 MHz, `delay_us(us)` waits `64 * us` cycles only for `us < 2^26`; above that the budget wraps. */
  lemma UsBudgetAt64MHz(us: u32)
    ensures UsBudget(CLOCK_64MHZ, us) == 64 * us <==> us < 0x400_0000
    ensures us >= 0x400_0000 ==> UsBudget(CLOCK_64MHZ, us) == (64 * us) % MOD32
  {
    UsBudgetExactIffFits(CLOCK_64MHZ, us);
  }

  /** At the default 64 MHz, the 32-bit `delay_ms` budget is `64000 * ms` only for `ms <= 67108`. */
  lemma MsBudgetAt64MHz(ms: u32)
    ensures MsBudget(CLOCK_64MHZ, ms) == 64_000 * ms <==> ms <= 67108
  {
  }

  /**
   The SPI program truncates the millisecond budget to 32 bits while the
   UART programs widen it to 64: at 64 MHz the two agree exactly on the
   delays whose budget fits in 32 bits.
   */
  lemma {:induction false} BudgetsAgreeIffFits(ms: u32)
    ensures MsBudget(CLOCK_64MHZ, ms) == MsTicks64(CLOCK_64MHZ, ms) <==> ms <= 67108
  {
    var t := MsTicks64(CLOCK_64MHZ, ms);
    assert t == 64_000 * ms;
    MsBudgetAt64MHz(ms);
  }

  /**
   A budget can be met by some counter reading exactly when it is below
   2^32: the elapsed value is a 32-bit word, so a larger (64-bit) budget
   keeps the loop spinning forever.
   */
  lemma {:induction false} DelayCanEndIff(start: u32, cycles: nat)
    ensures (exists now: u32 :: DelayOver(start, now, cycles)) <==> cycles < MOD32
  {
    if cycles < MOD32 {
      ElapsedOfAdvance(start, cycles);
      assert DelayOver(start, Wrap32(start + cycles), cycles);
    }
  }

  /** The UART `delay_ms` at 64 MHz can return only for `ms <= 67108`; a longer delay blocks forever. */
  lemma {:induction false} MsDelayCanEndAt64MHz(start: u32, ms: u32)
    ensures (exists now: u32 :: DelayOver(start, now, MsTicks64(CLOCK_64MHZ, ms))) <==> ms <= 67108
  {
    var t := MsTicks64(CLOCK_64MHZ, ms);
    assert t == 64_000 * ms;
    DelayCanEndIff(start, t);
  }

  /**
   Wrap safety of the delay loop: when the readings are the counter at true
   cycle times `times` (none before the start sample, all fewer than 2^32
   cycles after it),
   the loop returns at the first poll that is truly `cycles` or more after
   the start sample, whether or not the counter wrapped.
   */
  lemma {:induction false} DelayReturnsOnTime(times: seq<int>, readings: seq<u32>, cycles: nat, at: nat)
    requires |times| == |readings| > 0
    requires forall k :: 0 <= k < |times| ==> readings[k] == Wrap32(times[k])
    requires forall k :: 0 <= k < |times| ==> times[0] <= times[k] < times[0] + MOD32
    requires FirstDelayOver(readings, cycles, at)
    ensures times[at] - times[0] >= cycles
    ensures forall k :: 1 <= k < at ==> times[k] - times[0] < cycles
  {
    ElapsedIsTrueDistance(times[0], times[at]);
    forall k | 1 <= k < at
      ensures times[k] - times[0] < cycles
    {
      ElapsedIsTrueDistance(times[0], times[k]);
    }
  }
}
