/**
 The register values of `UART_Perifericos/main.c`, which hands the line to
 the USART3 peripheral: the baud divisor `brr_from` and the configuration of
 PB10 (TX) and PB11 (RX) as alternate function 7.
 */
module UartPeripheral {
  import opened Word
  import opened Gpio

  const UART_BAUDRATE: u32 := 9600
  const USART3_CLK_HZ: u32 := 64_000_000

  const TX_PIN: Pin := 10
  const RX_PIN: Pin := 11

  /** The alternate function that routes a PB10/PB11 pin to USART3. */
  const AF_USART3: bv32 := 7

  // ---------------------------------------------------------------------
  // Baud divisor

  /**
   `brr_from(fclk, baud)`: `(fclk + baud / 2) / baud` with the sum formed in
   32 bits. Without a wrap it is the floor of that quotient, which rounds
   `fclk / baud` half up; with a wrap it is the floor of the wrapped sum.
   */
  function BrrFrom(fclk: u32, baud: u32): (r: u32)
    requires baud > 0
    ensures fclk + baud / 2 < MOD32 ==> r * baud <= fclk + baud / 2 < r * baud + baud
    ensures fclk + baud / 2 < MOD32 ==> 2 * Dist(r * baud, fclk) <= baud
    ensures fclk + baud / 2 >= MOD32 ==> r * baud <= fclk + baud / 2 - MOD32 < r * baud + baud
  {
    QuotientBounds(fclk, baud, Wrap32(fclk + baud / 2));
    Wrap32(fclk + baud / 2) / baud
  }

  /** The distance between two integers. */
  function Dist(x: int, y: int): nat
  {
    if x >= y then x - y else y - x
  }

  lemma QuotientBounds(fclk: u32, baud: u32, x: nat)
    requires baud > 0
    requires x == if fclk + baud / 2 < MOD32 then fclk + baud / 2 else fclk + baud / 2 - MOD32
    ensures fclk + baud / 2 < MOD32 ==> (x / baud) * baud <= fclk + baud / 2 < (x / baud) * baud + baud
    ensures fclk + baud / 2 < MOD32 ==> 2 * Dist((x / baud) * baud, fclk) <= baud
    ensures fclk + baud / 2 >= MOD32 ==> (x / baud) * baud <= fclk + baud / 2 - MOD32 < (x / baud) * baud + baud
  {
    DivRounds(x, baud);
    var m := (x / baud) * baud;
    assert m <= x < m + baud;
  }

  /**
   When the sum does not wrap, the divisor is the nearest multiple: no other
   divisor `n` puts `n * baud` closer to `fclk`.
   */
  lemma {:induction false} BrrIsNearest(fclk: u32, baud: u32, n: nat)
    requires baud > 0
    requires fclk + baud / 2 < MOD32
    ensures Dist(BrrFrom(fclk, baud) * baud, fclk) <= Dist(n * baud, fclk)
  {
    var r: int := BrrFrom(fclk, baud);
    var rb, nb := r * baud, n * baud;
    assert Dist(rb, fclk) <= baud / 2;
    if n > r {
      MulMonotone(r + 1, n, baud);
      assert (r + 1) * baud == rb + baud;
      assert nb - fclk >= baud - baud / 2;
      assert Dist(nb, fclk) == nb - fclk;
    } else if n < r {
      MulMonotone(n + 1, r, baud);
      assert (n + 1) * baud == nb + baud;
      assert fclk - nb >= baud - baud / 2;
      assert Dist(nb, fclk) == fclk - nb;
    }
    assert Dist(rb, fclk) <= Dist(nb, fclk);
  }

  /** The divisor of the program's configuration: 64 MHz at 9600 baud gives 6667. */
  lemma BrrAt64MHz()
    ensures BrrFrom(USART3_CLK_HZ, UART_BAUDRATE) == 6667
  {
  }

  /**
   With a clock within half a baud of 2^32 the 32-bit sum wraps and the
   divisor collapses: at the largest clock and 2 baud it is 0.
   */
  lemma BrrWrapsNearTop()
    ensures BrrFrom(0xFFFF_FFFF, 2) == 0
    ensures Dist(BrrFrom(0xFFFF_FFFF, 2) * 2, 0xFFFF_FFFF) == 0xFFFF_FFFF
  {
  }

  // ---------------------------------------------------------------------
  // Port configuration of GPIO_Init_USART3_PB10_PB11

  /** MODER: PB10 and PB11 become alternate-function pins (10). */
  function Usart3Moder(moder: bv32): (r: bv32)
    ensures Field2(r, TX_PIN) == 2 && Field2(r, RX_PIN) == 2
  {
    var cleared := moder & !((3 << (TX_PIN * 2)) | (3 << (RX_PIN * 2)));
    cleared | ((2 << (TX_PIN * 2)) | (2 << (RX_PIN * 2)))
  }

  /** The MODER update leaves the mode of every other pin as it was. */
  lemma Usart3ModerKeepsOthers(moder: bv32)
    ensures forall p: Pin :: p != TX_PIN && p != RX_PIN ==> Field2(Usart3Moder(moder), p) == Field2(moder, p)
  {
  }

  /** AFR[1]: the nibbles of PB10 and PB11 select AF7, USART3. */
  function Usart3Afr1(afr: bv32): (r: bv32)
    ensures Nibble(r, TX_PIN - 8) == AF_USART3 && Nibble(r, RX_PIN - 8) == AF_USART3
  {
    var cleared := afr & !((0xF << ((TX_PIN - 8) * 4)) | (0xF << ((RX_PIN - 8) * 4)));
    cleared | ((AF_USART3 << ((TX_PIN - 8) * 4)) | (AF_USART3 << ((RX_PIN - 8) * 4)))
  }

  /** The AFR[1] update leaves the six other alternate-function nibbles as they were. */
  lemma Usart3Afr1KeepsOthers(afr: bv32)
    ensures forall n: bv32 :: n < 8 && n != TX_PIN - 8 && n != RX_PIN - 8 ==> Nibble(Usart3Afr1(afr), n) == Nibble(afr, n)
  {
  }

  /** OTYPER: PB10 and PB11 become push-pull. */
  function Usart3Otyper(otyper: bv32): (r: bv32)
    ensures !WordBit(r, TX_PIN) && !WordBit(r, RX_PIN)
  {
    otyper & !((1 << TX_PIN) | (1 << RX_PIN))
  }

  /** The OTYPER update leaves every other bit as it was. */
  lemma Usart3OtyperKeepsOthers(otyper: bv32)
    ensures forall q: bv32 :: q < 32 && q != TX_PIN && q != RX_PIN ==> WordBit(Usart3Otyper(otyper), q) == WordBit(otyper, q)
  {
  }

  /** OSPEEDR: PB10 and PB11 become very high speed (11). */
  function Usart3Ospeedr(ospeedr: bv32): (r: bv32)
    ensures Field2(r, TX_PIN) == 3 && Field2(r, RX_PIN) == 3
  {
    ospeedr | (3 << (TX_PIN * 2)) | (3 << (RX_PIN * 2))
  }

  /** The OSPEEDR update leaves the speed of every other pin as it was. */
  lemma Usart3OspeedrKeepsOthers(ospeedr: bv32)
    ensures forall p: Pin :: p != TX_PIN && p != RX_PIN ==> Field2(Usart3Ospeedr(ospeedr), p) == Field2(ospeedr, p)
  {
  }

  /** PUPDR: pull-up on the receive pin PB11 (01), which idles the line high. */
  function Usart3Pupdr(pupdr: bv32): (r: bv32)
    ensures Field2(r, RX_PIN) == 1
  {
    (pupdr & !(3 << (RX_PIN * 2))) | (1 << (RX_PIN * 2))
  }

  /** The PUPDR update leaves the pull of every other pin, PB10 included, as it was. */
  lemma Usart3PupdrKeepsOthers(pupdr: bv32)
    ensures forall p: Pin :: p != RX_PIN ==> Field2(Usart3Pupdr(pupdr), p) == Field2(pupdr, p)
  {
  }
}
