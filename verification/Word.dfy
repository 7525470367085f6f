/**
 Machine words of the three STM32H7 programs.

 The cycle counter and every `uint32_t`/`uint64_t` quantity is an unbounded
 integer kept in range by an explicit reduction (`Wrap32`, `Wrap64`), so the
 C truncations are visible in the model. Bytes are integers in [0, 256);
 their bits are read with `BitSet`, which is what `b & (1u << i)` tests.
 */
module Word {

  const MOD32: int := 0x1_0000_0000
  const HALF32: int := 0x8000_0000
  const MOD64: int := 0x1_0000_0000_0000_0000

  /** A `uint32_t` value. */
  type u32 = x: int | 0 <= x < 0x1_0000_0000

  /** A `uint8_t` value. */
  type u8 = x: int | 0 <= x < 256

  /** The C conversion to `uint32_t`: keep the value modulo 2^32. */
  function Wrap32(x: int): (r: u32)
    ensures (x - r) % MOD32 == 0
  {
    x % MOD32
  }

  /** The C conversion to `uint64_t`: keep the value modulo 2^64. */
  function Wrap64(x: int): (r: nat)
    ensures r < MOD64
    ensures (x - r) % MOD64 == 0
  {
    x % MOD64
  }

  /** Reducing before or after an addition gives the same 32-bit word. */
  lemma WrapAdd(x: int, y: int)
    ensures Wrap32(Wrap32(x) + y) == Wrap32(x + y)
  {
    assert x == (x / MOD32) * MOD32 + Wrap32(x);
  }

  function Pow2(n: nat): (r: nat)
    ensures r > 0
  {
    if n == 0 then 1 else 2 * Pow2(n - 1)
  }

  lemma {:induction false} Pow2Monotone(a: nat, b: nat)
    requires a <= b
    ensures Pow2(a) <= Pow2(b)
    decreases b
  {
    if a < b {
      Pow2Monotone(a, b - 1);
    }
  }

  /** Multiplication by a natural number is monotone. */
  lemma MulMonotone(x: nat, y: nat, c: nat)
    requires x <= y
    ensures c * x <= c * y && x * c <= y * c
  {
    assert c * y == c * x + c * (y - x);
  }

  /** Reduction modulo `m` leaves a value below `m` unchanged. */
  lemma ModOfSmall(x: nat, m: nat)
    requires x < m
    ensures x % m == x
  {
  }

  /** Integer division rounds down: `x` lies in the step of `b` that starts at `(x / b) * b`. */
  lemma DivRounds(x: nat, b: nat)
    requires b > 0
    ensures (x / b) * b <= x < (x / b) * b + b
  {
  }

  /** Bit `j` of `x` is one: `(x & (1 << j)) != 0`. */
  predicate BitSet(x: nat, j: nat)
  {
    if j == 0 then x % 2 == 1 else BitSet(x / 2, j - 1)
  }

  function BitValue(b: bool): nat
  {
    if b then 1 else 0
  }

  /** The number whose bits, least significant first, are `bits`. */
  function LsbValue(bits: seq<bool>): (v: nat)
    ensures v < Pow2(|bits|)
  {
    if |bits| == 0 then 0 else BitValue(bits[0]) + 2 * LsbValue(bits[1..])
  }

  /**
   The number whose bits, most significant first, are `bits`: what a
   shift register accumulates with `v = (v << 1) | bit`.
   */
  function MsbValue(bits: seq<bool>): (v: nat)
    ensures v < Pow2(|bits|)
  {
    if |bits| == 0 then 0 else 2 * MsbValue(bits[..|bits| - 1]) + BitValue(bits[|bits| - 1])
  }

  /** The bits of `x` from bit 0 upwards. */
  function LsbBits(x: nat, n: nat): (bits: seq<bool>)
    ensures |bits| == n
    ensures forall j :: 0 <= j < n ==> bits[j] == BitSet(x, j)
  {
    seq(n, j requires 0 <= j < n => BitSet(x, j))
  }

  /** The bits of `x` from bit `n - 1` downwards. */
  function MsbBits(x: nat, n: nat): (bits: seq<bool>)
    ensures |bits| == n
    ensures forall k :: 0 <= k < n ==> bits[k] == BitSet(x, n - 1 - k)
  {
    seq(n, k requires 0 <= k < n => BitSet(x, n - 1 - k))
  }

  lemma {:induction false} LsbValueBit(bits: seq<bool>, j: nat)
    requires j < |bits|
    ensures BitSet(LsbValue(bits), j) == bits[j]
  {
    if j > 0 {
      LsbValueBit(bits[1..], j - 1);
      assert (BitValue(bits[0]) + 2 * LsbValue(bits[1..])) / 2 == LsbValue(bits[1..]);
    }
  }

  lemma {:induction false} MsbValueBit(bits: seq<bool>, j: nat)
    requires j < |bits|
    ensures BitSet(MsbValue(bits), j) == bits[|bits| - 1 - j]
  {
    var init := bits[..|bits| - 1];
    assert (2 * MsbValue(init) + BitValue(bits[|bits| - 1])) / 2 == MsbValue(init);
    if j > 0 {
      MsbValueBit(init, j - 1);
    }
  }

  /** A number below 2^n is determined by its low `n` bits. */
  lemma {:induction false} BitsDetermine(x: nat, y: nat, n: nat)
    requires x < Pow2(n) && y < Pow2(n)
    requires forall j :: 0 <= j < n ==> BitSet(x, j) == BitSet(y, j)
    ensures x == y
  {
    if n == 0 {
    } else {
      assert BitSet(x, 0) == BitSet(y, 0);
      forall j | 0 <= j < n - 1
        ensures BitSet(x / 2, j) == BitSet(y / 2, j)
      {
        assert BitSet(x, j + 1) == BitSet(y, j + 1);
      }
      BitsDetermine(x / 2, y / 2, n - 1);
    }
  }

  /** Reading the low `n` bits of `x` LSB-first and reassembling them gives `x` back. */
  lemma LsbRoundTrip(x: nat, n: nat)
    requires x < Pow2(n)
    ensures LsbValue(LsbBits(x, n)) == x
  {
    var bits := LsbBits(x, n);
    forall j | 0 <= j < n
      ensures BitSet(LsbValue(bits), j) == BitSet(x, j)
    {
      LsbValueBit(bits, j);
    }
    BitsDetermine(LsbValue(bits), x, n);
  }

  /** Reading the low `n` bits of `x` MSB-first and shifting them back in gives `x` back. */
  lemma MsbRoundTrip(x: nat, n: nat)
    requires x < Pow2(n)
    ensures MsbValue(MsbBits(x, n)) == x
  {
    var bits := MsbBits(x, n);
    forall j | 0 <= j < n
      ensures BitSet(MsbValue(bits), j) == BitSet(x, j)
    {
      MsbValueBit(bits, j);
    }
    BitsDetermine(MsbValue(bits), x, n);
  }
}
