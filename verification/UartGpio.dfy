/**
 The bit-banged asynchronous transmitter of `UART_GPIO/main.c`: 8 data
 bits LSB first, one start bit (low), one stop bit (high), no parity, on
 output PA5, each level held until the next deadline of a schedule
 anchored at one counter sample.

 `UART_SendByte` is modelled as the trace of what it does: interrupt
 masking, BSRR writes of the line level, and the `wait_until` calls with
 their deadlines. The counter is supplied by the environment as the run of
 readings the code would see: `readings[0]` is the sample taken after the
 start bit, the waits poll `readings[1..]` in order.
 */
module UartGpio {
  import opened Word
  import opened Gpio
  import opened CycleClock
  import opened BusyWait
  import opened Deadline

  const TX_PIN: Pin := 5
  const BAUD_RATE: nat := 9600

  /** Line levels in one frame: start, 8 data bits, stop. */
  const FRAME_BITS: nat := 10

  /** Events of one complete `UART_SendByte`: mask, 10 (drive, wait) pairs, unmask. */
  const SEND_LENGTH: nat := 22

  datatype UartEvent =
    | IrqOff               // `__disable_irq()`
    | IrqOn                // `__enable_irq()`
    | Drive(high: bool)    // `tx_high()` / `tx_low()`
    | Wait(deadline: u32)  // `wait_until(deadline)` returned

  /** `BIT_CYCLES`: counter cycles per bit, `SystemCoreClock / BAUD_RATE` in 32-bit division. */
  function BitCycles(sysClk: u32): (c: nat)
    ensures c * BAUD_RATE <= sysClk < c * BAUD_RATE + BAUD_RATE
    ensures FRAME_BITS * c <= HALF32
  {
    DivRounds(sysClk, BAUD_RATE);
    sysClk / BAUD_RATE
  }

  /** At a 64 MHz core clock a bit lasts 6666 cycles and a frame fits well within 2^31 cycles. */
  lemma BitCyclesAt64MHz()
    ensures BitCycles(64_000_000) == 6666
    ensures FRAME_BITS * BitCycles(64_000_000) <= HALF32
  {
  }

  /** The BSRR words of `tx_high()` and `tx_low()`. */
  function TxMask(high: bool): (w: bv32)
    ensures high ==> w == 0x20
    ensures !high ==> w == 0x20_0000
  {
    DriveMask(TX_PIN, high)
  }

  // ---------------------------------------------------------------------
  // Port configuration of GPIO_Init_TX

  /** MODER: PA5 becomes an output (01). */
  function TxModer(moder: bv32): (r: bv32)
    ensures Field2(r, TX_PIN) == 1
  {
    (moder & !(3 << (TX_PIN * 2))) | (1 << (TX_PIN * 2))
  }

  /** The MODER update leaves the mode of every other pin as it was. */
  lemma TxModerKeepsOthers(moder: bv32)
    ensures forall p: Pin :: p != TX_PIN ==> Field2(TxModer(moder), p) == Field2(moder, p)
  {
  }

  /** OTYPER: PA5 becomes push-pull. */
  function TxOtyper(otyper: bv32): (r: bv32)
    ensures !WordBit(r, TX_PIN)
  {
    otyper & !(1 << TX_PIN)
  }

  /** The OTYPER update leaves every other bit as it was. */
  lemma TxOtyperKeepsOthers(otyper: bv32)
    ensures forall q: bv32 :: q < 32 && q != TX_PIN ==> WordBit(TxOtyper(otyper), q) == WordBit(otyper, q)
  {
  }

  /** OSPEEDR: PA5 becomes very high speed (11). */
  function TxOspeedr(ospeedr: bv32): (r: bv32)
    ensures Field2(r, TX_PIN) == 3
  {
    ospeedr | (3 << (TX_PIN * 2))
  }

  /** The OSPEEDR update leaves the speed of every other pin as it was. */
  lemma TxOspeedrKeepsOthers(ospeedr: bv32)
    ensures forall p: Pin :: p != TX_PIN ==> Field2(TxOspeedr(ospeedr), p) == Field2(ospeedr, p)
  {
  }

  /** PUPDR: no pull on PA5 (00). */
  function TxPupdr(pupdr: bv32): (r: bv32)
    ensures Field2(r, TX_PIN) == 0
  {
    pupdr & !(3 << (TX_PIN * 2))
  }

  /** The PUPDR update leaves the pull of every other pin as it was. */
  lemma TxPupdrKeepsOthers(pupdr: bv32)
    ensures forall p: Pin :: p != TX_PIN ==> Field2(TxPupdr(pupdr), p) == Field2(pupdr, p)
  {
  }

  /** The closing `tx_high()`: the line idles high. */
  function TxIdleOdr(odr: bv32): (r: bv32)
    ensures WordBit(r, TX_PIN)
  {
    DriveChangesOnlyPin(odr, TX_PIN, true);
    ApplyBsrr(odr, TxMask(true))
  }

  /** The idle write leaves every other output bit as it was. */
  lemma TxIdleOdrKeepsOthers(odr: bv32)
    ensures forall q: bv32 :: q < 32 && q != TX_PIN ==> WordBit(TxIdleOdr(odr), q) == WordBit(odr, q)
  {
    DriveChangesOnlyPin(odr, TX_PIN, true);
  }

  // ---------------------------------------------------------------------
  // The frame and the reference trace

  /** The ten line levels of a frame for byte `b`. */
  function Frame(b: u8): (f: seq<bool>)
    ensures |f| == FRAME_BITS
  {
    [false] + LsbBits(b, 8) + [true]
  }

  /** The frame is a start bit, the byte LSB first, and a stop bit: a receiver gets `b` back. */
  lemma FrameRoundTrip(b: u8)
    ensures |Frame(b)| == FRAME_BITS
    ensures !Frame(b)[0] && Frame(b)[FRAME_BITS - 1]
    ensures forall i :: 0 <= i < 8 ==> Frame(b)[1 + i] == BitSet(b, i)
    ensures LsbValue(Frame(b)[1..9]) == b
  {
    assert Frame(b)[1..9] == LsbBits(b, 8);
    LsbRoundTrip(b, 8);
  }

  /** Sending `'H'` (0x48 = 0b0100_1000) puts 0, 0,0,0,1,0,0,1,0, 1 on the line. */
  lemma FrameOfH()
    ensures Frame(0x48) == [false, false, false, false, true, false, false, true, false, true]
  {
    assert BitSet(0x48, 3) && BitSet(0x48, 6);
    assert !BitSet(0x48, 0) && !BitSet(0x48, 1) && !BitSet(0x48, 2);
    assert !BitSet(0x48, 4) && !BitSet(0x48, 5) && !BitSet(0x48, 7);
  }

  /** The first `k` levels of a frame, each driven and then held until its deadline. */
  function Levels(frame: seq<bool>, s: u32, period: nat, k: nat): (t: seq<UartEvent>)
    requires k <= |frame|
    ensures |t| == 2 * k
  {
    if k == 0 then []
    else Levels(frame, s, period, k - 1) + [Drive(frame[k - 1]), Wait(DeadlineAt(s, k, period))]
  }

  /** A complete `UART_SendByte(b)` whose counter sample after the start bit was `s`. */
  function SendTrace(b: u8, s: u32, period: nat): (t: seq<UartEvent>)
    ensures |t| == SEND_LENGTH
  {
    [IrqOff] + Levels(Frame(b), s, period, FRAME_BITS) + [IrqOn]
  }

  /**
   What `UART_SendByte(b)` has emitted once `m` waits have returned: all of
   it when `m` is 10, otherwise everything up to the level it is holding.
   */
  function Emitted(b: u8, s: u32, period: nat, m: nat): seq<UartEvent>
    requires m <= FRAME_BITS
  {
    if m == FRAME_BITS then SendTrace(b, s, period)
    else [IrqOff] + Levels(Frame(b), s, period, m) + [Drive(Frame(b)[m])]
  }

  /** Where the `k`-th wait starts polling: right after the previous wait's last reading. */
  function WaitFrom(exits: seq<nat>, k: nat): nat
    requires k <= |exits|
  {
    if k == 0 then 1 else exits[k - 1] + 1
  }

  /** Each wait `k` returned at the first reading, from where it started, that reached deadline `k + 1`. */
  predicate ExitChain(readings: seq<u32>, s: u32, period: nat, exits: seq<nat>)
    decreases |exits|
  {
    if |exits| == 0 then true
    else
      var m := |exits| - 1;
      ExitChain(readings, s, period, exits[..m]) &&
      FirstReached(readings, WaitFrom(exits, m), DeadlineAt(s, m + 1, period), exits[m])
  }

  /** A wait that returns on schedule extends the chain by its exit. */
  lemma ExitChainSnoc(readings: seq<u32>, s: u32, period: nat, exits: seq<nat>, e: nat)
    requires |exits| > 0 ==> ExitChain(readings, s, period, exits)
    requires FirstReached(readings, WaitFrom(exits, |exits|), DeadlineAt(s, |exits| + 1, period), e)
    ensures ExitChain(readings, s, period, exits + [e])
  {
    assert (exits + [e])[..|exits|] == exits;
  }

  /** The chain spelled out for one wait. */
  lemma {:induction false} ExitChainAt(readings: seq<u32>, s: u32, period: nat, exits: seq<nat>, k: nat)
    requires ExitChain(readings, s, period, exits)
    requires k < |exits|
    ensures FirstReached(readings, WaitFrom(exits, k), DeadlineAt(s, k + 1, period), exits[k])
  {
    var m := |exits| - 1;
    if k < m {
      ExitChainAt(readings, s, period, exits[..m], k);
      assert WaitFrom(exits[..m], k) == WaitFrom(exits, k);
    }
  }

  /** The level the send drives for level `k` of the frame: the start bit, data bit `k - 1`, or the stop bit. */
  function LevelOf(b: u8, k: nat): (level: bool)
    requires k < FRAME_BITS
    ensures level == Frame(b)[k]
  {
    if k == 0 then false else if k == FRAME_BITS - 1 then true else BitSet(b, k - 1)
  }

  /** `deadline += BIT_CYCLES` in 32-bit arithmetic: from the `k`-th deadline to the `k + 1`-th. */
  method NextDeadline(s: u32, k: nat, bit: nat, deadline: u32) returns (next: u32)
    requires deadline == DeadlineAt(s, k, bit)
    ensures next == DeadlineAt(s, k + 1, bit)
  {
    next := Wrap32(deadline + bit);
    AdvanceDeadline(s, k, bit);
  }

  /**
   `UART_SendByte(b)` at core clock `sysClk`. Returns the events emitted,
   the index of the reading at which each wait returned, and whether the
   frame completed; it does not when the readings run out while a wait is
   still spinning.
   */
  method UartSendByte(b: u8, sysClk: u32, readings: seq<u32>)
    returns (trace: seq<UartEvent>, exits: seq<nat>, done: bool)
    ensures |exits| <= FRAME_BITS
    ensures done <==> |exits| == FRAME_BITS
    ensures |readings| == 0 ==> trace == [IrqOff, Drive(false)] && exits == []
    ensures |readings| > 0 ==> trace == Emitted(b, readings[0], BitCycles(sysClk), |exits|)
    ensures |readings| > 0 ==> ExitChain(readings, readings[0], BitCycles(sysClk), exits)
    ensures |readings| > 0 && !done ==>
      NeverReached(readings, WaitFrom(exits, |exits|), DeadlineAt(readings[0], |exits| + 1, BitCycles(sysClk)))
  {
    var bit := BitCycles(sysClk);
    ghost var frame := Frame(b);
    trace := [IrqOff];
    exits := [];
    done := false;
    var s: u32 := 0;
    var deadline: u32 := 0;
    var k := 0;
    while k < FRAME_BITS
      invariant 0 <= k <= FRAME_BITS
      invariant |exits| == k
      invariant k > 0 ==> |readings| > 0 && s == readings[0] && deadline == DeadlineAt(s, k, bit)
      invariant trace == [IrqOff] + Levels(frame, s, bit, k)
      invariant k > 0 ==> ExitChain(readings, s, bit, exits)
    {
      var level := LevelOf(b, k);
      trace := trace + [Drive(level)];
      if k == 0 {
        // the anchor sample, taken right after the start bit is driven
        if |readings| == 0 {
          return;
        }
        s := readings[0];
        deadline := Wrap32(s + bit);
        FirstDeadline(s, bit);
      } else {
        deadline := NextDeadline(s, k, bit, deadline);
      }
      var w := WaitUntil(readings, WaitFrom(exits, k), deadline);
      if w.StillSpinning? {
        assert trace == Emitted(b, s, bit, k);
        return;
      }
      ExitChainSnoc(readings, s, bit, exits, w.at);
      assert Levels(frame, s, bit, k + 1) == Levels(frame, s, bit, k) + [Drive(level), Wait(deadline)];
      trace := trace + [Wait(deadline)];
      exits := exits + [w.at];
      k := k + 1;
    }
    trace := trace + [IrqOn];
    done := true;
  }

  // ---------------------------------------------------------------------
  // Properties of a send

  lemma {:induction false} LevelsIndex(frame: seq<bool>, s: u32, period: nat, m: nat, k: nat)
    requires k < m <= |frame|
    ensures Levels(frame, s, period, m)[2 * k] == Drive(frame[k])
    ensures Levels(frame, s, period, m)[2 * k + 1] == Wait(DeadlineAt(s, k + 1, period))
  {
    if k < m - 1 {
      LevelsIndex(frame, s, period, m - 1, k);
    }
  }

  lemma {:induction false} LevelsPrefix(frame: seq<bool>, s: u32, period: nat, m: nat, k: nat)
    requires k <= m <= |frame|
    ensures Levels(frame, s, period, m)[..2 * k] == Levels(frame, s, period, k)
  {
    if k < m {
      LevelsPrefix(frame, s, period, m - 1, k);
      assert Levels(frame, s, period, m)[..2 * (m - 1)] == Levels(frame, s, period, m - 1);
    }
  }

  /**
   Frame shape: interrupts are masked first and unmasked last; level `k` of
   the frame is driven and followed by the wait for deadline `k + 1`, which
   lies `k + 1` bit periods after the anchor sample, before the next level.
   */
  lemma SendShape(b: u8, s: u32, period: nat)
    ensures SendTrace(b, s, period)[0] == IrqOff
    ensures SendTrace(b, s, period)[SEND_LENGTH - 1] == IrqOn
    ensures forall k :: 0 <= k < FRAME_BITS ==>
      SendTrace(b, s, period)[1 + 2 * k] == Drive(Frame(b)[k]) &&
      SendTrace(b, s, period)[2 + 2 * k] == Wait(Wrap32(s + (k + 1) * period))
  {
    forall k | 0 <= k < FRAME_BITS
      ensures SendTrace(b, s, period)[1 + 2 * k] == Drive(Frame(b)[k])
      ensures SendTrace(b, s, period)[2 + 2 * k] == Wait(Wrap32(s + (k + 1) * period))
    {
      LevelsIndex(Frame(b), s, period, FRAME_BITS, k);
    }
  }

  /** A send that stopped while waiting has emitted a proper prefix of the complete send, without the unmask. */
  lemma EmittedIsPrefix(b: u8, s: u32, period: nat, m: nat)
    requires m < FRAME_BITS
    ensures Emitted(b, s, period, m) == SendTrace(b, s, period)[..2 * m + 2]
  {
    var all := Levels(Frame(b), s, period, FRAME_BITS);
    LevelsPrefix(Frame(b), s, period, FRAME_BITS, m);
    LevelsIndex(Frame(b), s, period, FRAME_BITS, m);
    assert all[..2 * m + 1] == all[..2 * m] + [all[2 * m]];
    assert SendTrace(b, s, period)[..2 * m + 2] == [IrqOff] + all[..2 * m + 1];
  }

  /** Whether interrupts are enabled after the events of `t`, starting from `init`. */
  function IrqEnabledAfter(init: bool, t: seq<UartEvent>): bool
  {
    if |t| == 0 then init
    else if t[|t| - 1] == IrqOff then false
    else if t[|t| - 1] == IrqOn then true
    else IrqEnabledAfter(init, t[..|t| - 1])
  }

  /** The line level after the events of `t`, starting from `init`. */
  function LineAfter(init: bool, t: seq<UartEvent>): bool
  {
    if |t| == 0 then init
    else if t[|t| - 1].Drive? then t[|t| - 1].high
    else LineAfter(init, t[..|t| - 1])
  }

  lemma {:induction false} IrqUntouched(init: bool, t: seq<UartEvent>)
    requires forall n :: 0 <= n < |t| ==> t[n] != IrqOff && t[n] != IrqOn
    ensures IrqEnabledAfter(init, t) == init
  {
    if |t| > 0 {
      IrqUntouched(init, t[..|t| - 1]);
    }
  }

  lemma {:induction false} IrqAfterAppend(init: bool, a: seq<UartEvent>, b: seq<UartEvent>)
    ensures IrqEnabledAfter(init, a + b) == IrqEnabledAfter(IrqEnabledAfter(init, a), b)
    decreases |b|
  {
    if |b| > 0 {
      assert (a + b)[..|a + b| - 1] == a + b[..|b| - 1];
      assert (a + b)[|a + b| - 1] == b[|b| - 1];
      IrqAfterAppend(init, a, b[..|b| - 1]);
    } else {
      assert a + b == a;
    }
  }

  lemma {:induction false} LevelsNeverTouchIrq(frame: seq<bool>, s: u32, period: nat, m: nat)
    requires m <= |frame|
    ensures forall n :: 0 <= n < 2 * m ==>
      Levels(frame, s, period, m)[n] != IrqOff && Levels(frame, s, period, m)[n] != IrqOn
  {
    if m > 0 {
      LevelsNeverTouchIrq(frame, s, period, m - 1);
    }
  }

  /**
   Interrupts are masked from the first event to the last, so every level
   change and every wait of the frame happens with them off; the closing
   unmask turns them back on.
   */
  lemma IrqMaskedDuringFrame(b: u8, s: u32, period: nat)
    ensures forall n :: 1 <= n < SEND_LENGTH ==> !IrqEnabledAfter(true, SendTrace(b, s, period)[..n])
    ensures IrqEnabledAfter(false, SendTrace(b, s, period))
  {
    var t := SendTrace(b, s, period);
    var all := Levels(Frame(b), s, period, FRAME_BITS);
    LevelsNeverTouchIrq(Frame(b), s, period, FRAME_BITS);
    forall n | 1 <= n < SEND_LENGTH
      ensures !IrqEnabledAfter(true, t[..n])
    {
      assert t[..n] == [IrqOff] + all[..n - 1];
      IrqAfterAppend(true, [IrqOff], all[..n - 1]);
      IrqUntouched(false, all[..n - 1]);
    }
  }

  /**
   Each level stays on the line through its own wait: after the drive of
   level `k` and after the wait that follows it the line is at
   `Frame(b)[k]`. After the stop bit the line is back at its idle high.
   */
  lemma LineHeldUntilDeadline(b: u8, s: u32, period: nat)
    ensures forall k :: 0 <= k < FRAME_BITS ==>
      LineAfter(true, SendTrace(b, s, period)[..2 + 2 * k]) == Frame(b)[k] &&
      LineAfter(true, SendTrace(b, s, period)[..3 + 2 * k]) == Frame(b)[k]
    ensures LineAfter(true, SendTrace(b, s, period))
  {
    var t := SendTrace(b, s, period);
    SendShape(b, s, period);
    forall k | 0 <= k < FRAME_BITS
      ensures LineAfter(true, t[..2 + 2 * k]) == Frame(b)[k]
      ensures LineAfter(true, t[..3 + 2 * k]) == Frame(b)[k]
    {
      assert t[..2 + 2 * k][2 * k + 1] == Drive(Frame(b)[k]);
      assert t[..3 + 2 * k][..2 + 2 * k] == t[..2 + 2 * k];
      assert t[..3 + 2 * k][2 + 2 * k] == t[2 + 2 * k];
    }
    assert t[..SEND_LENGTH - 1] == t[..3 + 2 * (FRAME_BITS - 1)];
    assert t[..SEND_LENGTH][..SEND_LENGTH - 1] == t[..SEND_LENGTH - 1];
    assert t[..SEND_LENGTH] == t;
    FrameRoundTrip(b);
  }

  /**
   No drift across the frame: the wait for bit `k` returns at a reading
   that is exactly `k + 1` bit periods after the anchor sample plus that
   wait's own lateness, so loop overhead of earlier bits never accumulates.
   */
  lemma FrameOnSchedule(readings: seq<u32>, s: u32, period: nat, exits: seq<nat>)
    requires ExitChain(readings, s, period, exits)
    requires |exits| <= FRAME_BITS
    requires FRAME_BITS * period <= HALF32
    ensures forall k :: 0 <= k < |exits| ==> exits[k] < |readings|
    ensures forall k :: 0 <= k < |exits| ==>
      Elapsed(s, readings[exits[k]]) == (k + 1) * period + Elapsed(DeadlineAt(s, k + 1, period), readings[exits[k]])
    ensures forall k :: 0 <= k < |exits| ==> Elapsed(DeadlineAt(s, k + 1, period), readings[exits[k]]) < HALF32
  {
    forall k | 0 <= k < |exits|
      ensures exits[k] < |readings|
      ensures Elapsed(s, readings[exits[k]]) == (k + 1) * period + Elapsed(DeadlineAt(s, k + 1, period), readings[exits[k]])
      ensures Elapsed(DeadlineAt(s, k + 1, period), readings[exits[k]]) < HALF32
    {
      WaitOnSchedule(readings, s, period, exits, k);
    }
  }

  /** One wait of the frame, on schedule. */
  lemma WaitOnSchedule(readings: seq<u32>, s: u32, period: nat, exits: seq<nat>, k: nat)
    requires ExitChain(readings, s, period, exits)
    requires k < |exits| <= FRAME_BITS
    requires FRAME_BITS * period <= HALF32
    ensures exits[k] < |readings|
    ensures Elapsed(s, readings[exits[k]]) == (k + 1) * period + Elapsed(DeadlineAt(s, k + 1, period), readings[exits[k]])
    ensures Elapsed(DeadlineAt(s, k + 1, period), readings[exits[k]]) < HALF32
  {
    ExitChainAt(readings, s, period, exits, k);
    MulMonotone(k + 1, FRAME_BITS, period);
    NoDrift(s, k + 1, period, readings[exits[k]]);
  }
}
