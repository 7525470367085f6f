/**
 The DWT cycle counter (CYCCNT) as a source of time.

 After `DWT_Init` the counter reads the true number of cycles `t` since the
 reset, reduced modulo 2^32: a reading is `Wrap32(t)`. Every comparison of
 two readings in the programs goes through a 32-bit subtraction, which this
 module models and relates back to true cycle counts.
 */
module CycleClock {
  import opened Word

  /** `(uint32_t)(now - start)`: the cycles counted forward from `start` to `now`. */
  function Elapsed(start: u32, now: u32): (e: u32)
    ensures Wrap32(start + e) == now
  {
    Wrap32(now - start)
  }

  /** `(int32_t)x` for a 32-bit word: two's complement reinterpretation. */
  function Signed32(x: u32): (v: int)
    ensures -HALF32 <= v < HALF32
    ensures Wrap32(v) == x
  {
    if x < HALF32 then x else x - MOD32
  }

  /**
   `(int32_t)(now - deadline) >= 0`: the loop condition of `wait_until` is
   false, so a wait for `deadline` ends at the reading `now`.
   */
  function Reached(now: u32, deadline: u32): (r: bool)
    ensures r <==> Elapsed(deadline, now) < HALF32
  {
    Signed32(Elapsed(deadline, now)) >= 0
  }

  /**
   Wrap safety: the 32-bit difference of two readings is the true number of
   cycles between them, even when the counter wrapped in between, as long as
   fewer than 2^32 cycles passed.
   */
  lemma {:induction false} ElapsedIsTrueDistance(t0: int, t1: int)
    requires t0 <= t1 < t0 + MOD32
    ensures Elapsed(Wrap32(t0), Wrap32(t1)) == t1 - t0
  {
    var a, b := Wrap32(t0), Wrap32(t1);
    assert t0 == (t0 / MOD32) * MOD32 + a;
    assert t1 == (t1 / MOD32) * MOD32 + b;
    var q := t1 / MOD32 - t0 / MOD32;
    assert b - a == (t1 - t0) - q * MOD32;
    assert -MOD32 < b - a < MOD32;
    if b >= a {
      assert q == 0;
    } else {
      assert q == 1;
    }
  }

  /** Counting `n < 2^32` cycles forward from `start` lands where the counter reads `n` elapsed. */
  lemma {:induction false} ElapsedOfAdvance(start: u32, n: nat)
    requires n < MOD32
    ensures Elapsed(start, Wrap32(start + n)) == n
  {
    ElapsedIsTrueDistance(start, start + n);
    assert Wrap32(start) == start;
  }

  /**
   The signed test of `wait_until` decides "the counter has passed the
   deadline" correctly whenever the true distance between now and the
   deadline, in either direction, is below 2^31.
   */
  lemma {:induction false} ReachedIffPassed(tNow: int, tDeadline: int)
    requires -HALF32 <= tNow - tDeadline < HALF32
    ensures Reached(Wrap32(tNow), Wrap32(tDeadline)) <==> tNow >= tDeadline
  {
    if tNow >= tDeadline {
      ElapsedIsTrueDistance(tDeadline, tNow);
    } else {
      ElapsedIsTrueDistance(tNow, tDeadline);
      var e := Elapsed(Wrap32(tDeadline), Wrap32(tNow));
      var back := Elapsed(Wrap32(tNow), Wrap32(tDeadline));
      assert Wrap32(Wrap32(tNow) + back) == Wrap32(tDeadline);
      assert Wrap32(Wrap32(tDeadline) + e) == Wrap32(tNow);
      assert (e + back) % MOD32 == 0;
      assert 0 < back <= HALF32;
      assert e == MOD32 - back;
    }
  }
}
