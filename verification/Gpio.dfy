/**
 GPIO port registers of the STM32H7 as 32-bit words.

 MODER, OSPEEDR and PUPDR hold one 2-bit field per pin, OTYPER and ODR one
 bit per pin, AFR[1] one 4-bit field per pin 8..15. BSRR is write-only: a
 write sets the outputs named in its low half and resets those named in
 its high half, atomically.
 */
module Gpio {

  /** A pin number of a GPIO port. */
  type Pin = p: bv32 | p < 16

  /** Bit `q` of a register word. */
  predicate WordBit(w: bv32, q: bv32)
    requires q < 32
  {
    (w >> q) & 1 == 1
  }

  /** The 2-bit field of pin `p` in MODER, OSPEEDR or PUPDR. */
  function Field2(r: bv32, p: Pin): bv32
  {
    (r >> (2 * p)) & 3
  }

  /** The 4-bit alternate-function field number `n` of AFR[1], which belongs to pin `8 + n`. */
  function Nibble(r: bv32, n: bv32): bv32
    requires n < 8
  {
    (r >> (4 * n)) & 0xF
  }

  /** `1UL << p`: the BSRR word that drives pin `p` high. */
  function SetMask(p: Pin): (w: bv32)
    ensures forall q: bv32 :: q < 32 ==> (WordBit(w, q) <==> q == p)
  {
    1 << p
  }

  /** `1UL << (p + 16U)`: the BSRR word that drives pin `p` low. */
  function ResetMask(p: Pin): (w: bv32)
    ensures forall q: bv32 :: q < 32 ==> (WordBit(w, q) <==> q == p + 16)
  {
    1 << (p + 16)
  }

  /** The BSRR word one of the `*_high` / `*_low` helpers writes for pin `p`. */
  function DriveMask(p: Pin, high: bool): bv32
  {
    if high then SetMask(p) else ResetMask(p)
  }

  /**
   The output data register after `w` is written to BSRR: the high half of
   `w` resets outputs, the low half sets them, and a set wins when both
   name the same pin.
   */
  function ApplyBsrr(odr: bv32, w: bv32): bv32
  {
    (odr & !(w >> 16)) | (w & 0xFFFF)
  }

  /**
   A BSRR write bit by bit: an output named in the low half goes high, one
   named only in the high half goes low, and every other output bit keeps
   its value. A set wins over a reset of the same pin.
   */
  lemma ApplyBsrrBit(odr: bv32, w: bv32, q: bv32)
    requires q < 32
    ensures q < 16 && WordBit(w, q) ==> WordBit(ApplyBsrr(odr, w), q)
    ensures q < 16 && !WordBit(w, q) && WordBit(w, q + 16) ==> !WordBit(ApplyBsrr(odr, w), q)
    ensures (q >= 16 || (!WordBit(w, q) && !WordBit(w, q + 16))) ==> WordBit(ApplyBsrr(odr, w), q) == WordBit(odr, q)
  {
  }

  /** Writing a helper's BSRR word drives exactly its own pin and leaves every other output bit alone. */
  lemma DriveChangesOnlyPin(odr: bv32, p: Pin, high: bool)
    ensures WordBit(ApplyBsrr(odr, DriveMask(p, high)), p) == high
    ensures forall q: bv32 :: q < 32 && q != p ==>
      WordBit(ApplyBsrr(odr, DriveMask(p, high)), q) == WordBit(odr, q)
  {
  }

  /** One output bit after a helper's BSRR write: the driven pin takes the level, any other bit keeps its value. */
  lemma DriveBit(odr: bv32, p: Pin, high: bool, q: bv32)
    requires q < 32
    ensures WordBit(ApplyBsrr(odr, DriveMask(p, high)), q) == if q == p then high else WordBit(odr, q)
  {
    DriveChangesOnlyPin(odr, p, high);
  }
}
