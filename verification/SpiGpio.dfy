/**
 The bit-banged SPI master of `SPI_GPIO/main.c`: mode 0 (clock idle low,
 data sampled on the rising edge), MSB first, on GPIOA with SCK = PA5,
 MOSI = PA8, MISO = PA6 and an active-low chip select on PA4.

 A transfer is modelled as the trace of what it does on the port: BSRR
 writes that drive one output line, reads of MISO, and `delay_us` calls.
 The eight MISO levels are supplied by the environment, one per read.
 */
module SpiGpio {
  import opened Word
  import opened Gpio
  import opened BusyWait

  const SCK: Pin := 5
  const MOSI: Pin := 8
  const MISO: Pin := 6
  const CS: Pin := 4

  /** The fixed `delay_us` argument after each clock edge. */
  const HALF_PERIOD_US: nat := 10

  /** At the default 64 MHz each `delay_us(10)` of a clock phase waits 640 cycles. */
  lemma HalfPeriodCycles()
    ensures UsBudget(CLOCK_64MHZ, HALF_PERIOD_US) == 640
  {
  }

  /** Number of events one transfer emits: select, 8 bit slots of 6 events, deselect. */
  const TRANSFER_LENGTH: nat := 50

  /** The output lines the transfer drives. */
  datatype Line = Sck | Mosi | Cs

  function LinePin(l: Line): Pin
  {
    match l
    case Sck => SCK
    case Mosi => MOSI
    case Cs => CS
  }

  datatype SpiEvent =
    | Drive(line: Line, high: bool)  // a `*_high()` / `*_low()` BSRR write
    | SampleMiso(level: bool)        // a read of IDR bit MISO
    | DelayUs(us: nat)               // a `delay_us(us)` call

  // ---------------------------------------------------------------------
  // Port configuration of GPIO_Init_SPI

  /** MODER: SCK, MOSI and CS become outputs (01), MISO an input (00). */
  function SpiModer(moder: bv32): (r: bv32)
    ensures Field2(r, SCK) == 1 && Field2(r, MOSI) == 1 && Field2(r, CS) == 1
    ensures Field2(r, MISO) == 0
  {
    var cleared := moder & !((3 << (SCK * 2)) | (3 << (MOSI * 2)) | (3 << (CS * 2)) | (3 << (MISO * 2)));
    cleared | (1 << (SCK * 2)) | (1 << (MOSI * 2)) | (1 << (CS * 2))
  }

  /** The MODER update leaves the mode of every other pin of the port as it was. */
  lemma SpiModerKeepsOthers(moder: bv32)
    ensures forall p: Pin :: p != SCK && p != MOSI && p != CS && p != MISO ==>
      Field2(SpiModer(moder), p) == Field2(moder, p)
  {
  }

  /** OTYPER: the three outputs become push-pull (bit 0). */
  function SpiOtyper(otyper: bv32): (r: bv32)
    ensures !WordBit(r, SCK) && !WordBit(r, MOSI) && !WordBit(r, CS)
  {
    otyper & !((1 << SCK) | (1 << MOSI) | (1 << CS))
  }

  /** The OTYPER update leaves every other bit as it was. */
  lemma SpiOtyperKeepsOthers(otyper: bv32)
    ensures forall q: bv32 :: q < 32 && q != SCK && q != MOSI && q != CS ==>
      WordBit(SpiOtyper(otyper), q) == WordBit(otyper, q)
  {
  }

  /** OSPEEDR: the three outputs become high speed (11). */
  function SpiOspeedr(ospeedr: bv32): (r: bv32)
    ensures Field2(r, SCK) == 3 && Field2(r, MOSI) == 3 && Field2(r, CS) == 3
  {
    ospeedr | (3 << (SCK * 2)) | (3 << (MOSI * 2)) | (3 << (CS * 2))
  }

  /** The OSPEEDR update leaves the speed of every other pin as it was. */
  lemma SpiOspeedrKeepsOthers(ospeedr: bv32)
    ensures forall p: Pin :: p != SCK && p != MOSI && p != CS ==>
      Field2(SpiOspeedr(ospeedr), p) == Field2(ospeedr, p)
  {
  }

  /** PUPDR: no pull on the outputs (00), pull-up on MISO (01). */
  function SpiPupdr(pupdr: bv32): (r: bv32)
    ensures Field2(r, SCK) == 0 && Field2(r, MOSI) == 0 && Field2(r, CS) == 0
    ensures Field2(r, MISO) == 1
  {
    var cleared := pupdr & !((3 << (SCK * 2)) | (3 << (MOSI * 2)) | (3 << (CS * 2)) | (3 << (MISO * 2)));
    cleared | (1 << (MISO * 2))
  }

  /** The PUPDR update leaves the pull of every other pin as it was. */
  lemma SpiPupdrKeepsOthers(pupdr: bv32)
    ensures forall p: Pin :: p != SCK && p != MOSI && p != CS && p != MISO ==>
      Field2(SpiPupdr(pupdr), p) == Field2(pupdr, p)
  {
  }

  /** The closing `sck_low(); mosi_low(); cs_high();`: clock idle low, slave deselected. */
  function SpiIdleOdr(odr: bv32): (r: bv32)
    ensures !WordBit(r, SCK) && !WordBit(r, MOSI) && WordBit(r, CS)
  {
    var afterSck := ApplyBsrr(odr, DriveMask(SCK, false));
    var afterMosi := ApplyBsrr(afterSck, DriveMask(MOSI, false));
    DriveChangesOnlyPin(odr, SCK, false);
    DriveChangesOnlyPin(afterSck, MOSI, false);
    DriveChangesOnlyPin(afterMosi, CS, true);
    ApplyBsrr(afterMosi, DriveMask(CS, true))
  }

  /** The three closing writes leave every other output bit as it was. */
  lemma SpiIdleOdrKeepsOthers(odr: bv32)
    ensures forall q: bv32 :: q < 32 && q != SCK && q != MOSI && q != CS ==>
      WordBit(SpiIdleOdr(odr), q) == WordBit(odr, q)
  {
    var afterSck := ApplyBsrr(odr, DriveMask(SCK, false));
    var afterMosi := ApplyBsrr(afterSck, DriveMask(MOSI, false));
    DriveChangesOnlyPin(odr, SCK, false);
    DriveChangesOnlyPin(afterSck, MOSI, false);
    DriveChangesOnlyPin(afterMosi, CS, true);
  }

  // ---------------------------------------------------------------------
  // Reference trace of SPI_Transfer

  /** The six events of the iteration that sends bit `i` of `data` and reads `sample`. */
  function BitSlot(data: u8, i: nat, sample: bool): seq<SpiEvent>
  {
    [Drive(Mosi, BitSet(data, i)), Drive(Sck, true), DelayUs(HALF_PERIOD_US),
     SampleMiso(sample), Drive(Sck, false), DelayUs(HALF_PERIOD_US)]
  }

  /** The first `k` iterations of the loop: iteration `j` sends bit `7 - j` and reads `miso[j]`. */
  function Slots(data: u8, miso: seq<bool>, k: nat): (t: seq<SpiEvent>)
    requires k <= |miso| == 8
    ensures |t| == 6 * k
  {
    if k == 0 then [] else Slots(data, miso, k - 1) + BitSlot(data, 7 - (k - 1), miso[k - 1])
  }

  /** The whole transfer: select, eight bit slots, deselect. */
  function SpiTrace(data: u8, miso: seq<bool>): (t: seq<SpiEvent>)
    requires |miso| == 8
    ensures |t| == TRANSFER_LENGTH
  {
    [Drive(Cs, false)] + Slots(data, miso, 8) + [Drive(Cs, true)]
  }

  /**
   `SPI_Transfer(data)`, given the MISO level seen at each of its eight
   reads: returns the port trace and the received byte `rx`.
   */
  method SpiTransfer(data: u8, miso: seq<bool>) returns (trace: seq<SpiEvent>, rx: u8)
    requires |miso| == 8
    ensures trace == SpiTrace(data, miso)
    ensures rx == MsbValue(miso)
  {
    rx := 0;
    trace := [Drive(Cs, false)];
    var i := 7;
    while i >= 0
      invariant -1 <= i <= 7
      invariant trace == [Drive(Cs, false)] + Slots(data, miso, 7 - i)
      invariant rx == MsbValue(miso[..7 - i])
    {
      var events;
      events, rx := TransferBit(data, miso, i, rx);
      trace := trace + events;
      i := i - 1;
    }
    assert miso[..8] == miso;
    trace := trace + [Drive(Cs, true)];
  }

  /**
   One iteration of the transfer loop: send bit `i`, clock it, and shift in
   the sample `miso[7 - i]` taken while SCK is high.
   */
  method TransferBit(data: u8, miso: seq<bool>, i: nat, rx: u8) returns (events: seq<SpiEvent>, rx': u8)
    requires i < |miso| == 8
    requires rx == MsbValue(miso[..7 - i])
    ensures events == BitSlot(data, i, miso[7 - i])
    ensures Slots(data, miso, 8 - i) == Slots(data, miso, 7 - i) + events
    ensures rx' == MsbValue(miso[..8 - i])
  {
    var k := 7 - i;
    var sample := miso[k];
    events := [Drive(Mosi, BitSet(data, i)), Drive(Sck, true), DelayUs(HALF_PERIOD_US)];
    // `rx <<= 1` on a uint8_t, then `rx |= 1U` sets the bit the shift cleared
    ShiftInStep(miso, k);
    SlotsStep(data, miso, i);
    var shifted := rx * 2;
    ModOfSmall(shifted, 256);
    rx' := shifted % 256;
    if sample {
      rx' := rx' + 1;
    }
    assert rx' == MsbValue(miso[..k]) * 2 + BitValue(miso[k]);
    events := events + [SampleMiso(sample), Drive(Sck, false), DelayUs(HALF_PERIOD_US)];
  }

  /** Iteration `7 - i`, which sends bit `i`, appends one slot to the trace. */
  lemma SlotsStep(data: u8, miso: seq<bool>, i: nat)
    requires i < |miso| == 8
    ensures Slots(data, miso, 8 - i) == Slots(data, miso, 7 - i) + BitSlot(data, i, miso[7 - i])
  {
  }

  /** One step of the shift register: shifting in sample `k` extends the MSB-first value by that sample. */
  lemma ShiftInStep(miso: seq<bool>, k: nat)
    requires k < |miso| == 8
    ensures MsbValue(miso[..k]) < 128
    ensures MsbValue(miso[..k]) * 2 + BitValue(miso[k]) == MsbValue(miso[..k + 1])
  {
    assert miso[..k + 1][..k] == miso[..k];
    Pow2Monotone(k, 7);
  }

  // ---------------------------------------------------------------------
  // Properties of a transfer

  /** Event `o` of slot `j` sits at offset `6 * j + o` of the slots. */
  lemma {:induction false} SlotsIndex(data: u8, miso: seq<bool>, m: nat, j: nat, o: nat)
    requires m <= |miso| == 8 && j < m && o < 6
    ensures Slots(data, miso, m)[6 * j + o] == BitSlot(data, 7 - j, miso[j])[o]
  {
    if j < m - 1 {
      SlotsIndex(data, miso, m - 1, j, o);
    }
  }

  /** The first `6 * j` events of the slots are the first `j` slots. */
  lemma {:induction false} SlotsPrefix(data: u8, miso: seq<bool>, m: nat, j: nat)
    requires j <= m <= |miso| == 8
    ensures Slots(data, miso, m)[..6 * j] == Slots(data, miso, j)
  {
    if j < m {
      SlotsPrefix(data, miso, m - 1, j);
      assert Slots(data, miso, m)[..6 * (m - 1)] == Slots(data, miso, m - 1);
    }
  }

  /** MOSI is driven with bit `7 - k` of `data` in slot `k` (MSB first), and MISO is read once per slot. */
  lemma MosiMsbFirst(data: u8, miso: seq<bool>)
    requires |miso| == 8
    ensures forall k :: 0 <= k < 8 ==> SpiTrace(data, miso)[1 + 6 * k] == Drive(Mosi, BitSet(data, 7 - k))
    ensures forall k :: 0 <= k < 8 ==> SpiTrace(data, miso)[4 + 6 * k] == SampleMiso(miso[k])
  {
    forall k | 0 <= k < 8
      ensures SpiTrace(data, miso)[1 + 6 * k] == Drive(Mosi, BitSet(data, 7 - k))
      ensures SpiTrace(data, miso)[4 + 6 * k] == SampleMiso(miso[k])
    {
      SlotsIndex(data, miso, 8, k, 0);
      SlotsIndex(data, miso, 8, k, 3);
    }
  }

  /** The received byte holds the `k`-th MISO sample in bit `7 - k`. */
  lemma ReceivedMsbFirst(miso: seq<bool>)
    requires |miso| == 8
    ensures forall k :: 0 <= k < 8 ==> BitSet(MsbValue(miso), 7 - k) == miso[k]
  {
    forall k | 0 <= k < 8
      ensures BitSet(MsbValue(miso), 7 - k) == miso[k]
    {
      MsbValueBit(miso, 7 - k);
    }
  }

  /** Loopback: when MISO echoes each MOSI bit just driven, the transfer returns `data`. */
  lemma Loopback(data: u8, miso: seq<bool>)
    requires |miso| == 8
    requires forall k :: 0 <= k < 8 ==> miso[k] == BitSet(data, 7 - k)
    ensures MsbValue(miso) == data
  {
    assert miso == MsbBits(data, 8);
    MsbRoundTrip(data, 8);
  }

  /** Whether `e` drives output `l`. */
  predicate Drives(e: SpiEvent, l: Line)
  {
    e.Drive? && e.line == l
  }

  lemma {:induction false} SlotsNeverTouchCs(data: u8, miso: seq<bool>, m: nat)
    requires m <= |miso| == 8
    ensures forall n :: 0 <= n < 6 * m ==> !Drives(Slots(data, miso, m)[n], Cs)
  {
    if m > 0 {
      SlotsNeverTouchCs(data, miso, m - 1);
    }
  }

  /** Chip select is driven low first, high last, and not touched in between. */
  lemma CsBrackets(data: u8, miso: seq<bool>)
    requires |miso| == 8
    ensures SpiTrace(data, miso)[0] == Drive(Cs, false)
    ensures SpiTrace(data, miso)[TRANSFER_LENGTH - 1] == Drive(Cs, true)
    ensures forall n :: 0 < n < TRANSFER_LENGTH - 1 ==> !Drives(SpiTrace(data, miso)[n], Cs)
  {
    SlotsNeverTouchCs(data, miso, 8);
  }

  // ---------------------------------------------------------------------
  // Line levels along a trace

  /** The level of output `l` after the events of `t`, starting from `init`. */
  function LevelAfter(l: Line, init: bool, t: seq<SpiEvent>): bool
  {
    if |t| == 0 then init
    else if Drives(t[|t| - 1], l) then t[|t| - 1].high
    else LevelAfter(l, init, t[..|t| - 1])
  }

  /** The output data register after the BSRR writes of `t`. */
  function OdrAfter(odr: bv32, t: seq<SpiEvent>): bv32
  {
    if |t| == 0 then odr
    else
      var last := t[|t| - 1];
      var before := OdrAfter(odr, t[..|t| - 1]);
      if last.Drive? then ApplyBsrr(before, DriveMask(LinePin(last.line), last.high)) else before
  }

  /** The register view and the line view agree: each line's ODR bit is its level. */
  lemma {:induction false} OdrMatchesLevels(odr: bv32, t: seq<SpiEvent>, l: Line)
    ensures WordBit(OdrAfter(odr, t), LinePin(l)) == LevelAfter(l, WordBit(odr, LinePin(l)), t)
  {
    if |t| > 0 {
      var last := t[|t| - 1];
      var before := OdrAfter(odr, t[..|t| - 1]);
      OdrMatchesLevels(odr, t[..|t| - 1], l);
      if last.Drive? {
        DriveBit(before, LinePin(last.line), last.high, LinePin(l));
        assert LinePin(last.line) == LinePin(l) <==> last.line == l;
      }
    }
  }

  lemma {:induction false} LevelAfterAppend(l: Line, init: bool, a: seq<SpiEvent>, b: seq<SpiEvent>)
    ensures LevelAfter(l, init, a + b) == LevelAfter(l, LevelAfter(l, init, a), b)
    decreases |b|
  {
    if |b| > 0 {
      assert (a + b)[..|a + b| - 1] == a + b[..|b| - 1];
      assert (a + b)[|a + b| - 1] == b[|b| - 1];
      LevelAfterAppend(l, init, a, b[..|b| - 1]);
    } else {
      assert a + b == a;
    }
  }

  lemma {:induction false} LevelUntouched(l: Line, init: bool, t: seq<SpiEvent>)
    requires forall n :: 0 <= n < |t| ==> !Drives(t[n], l)
    ensures LevelAfter(l, init, t) == init
  {
    if |t| > 0 {
      LevelUntouched(l, init, t[..|t| - 1]);
    }
  }

  /** SCK is low at the end of every slot, given it started low. */
  lemma {:induction false} SckLowAfterSlots(data: u8, miso: seq<bool>, m: nat)
    requires m <= |miso| == 8
    ensures !LevelAfter(Sck, false, Slots(data, miso, m))
  {
    if m > 0 {
      var slot := BitSlot(data, 7 - (m - 1), miso[m - 1]);
      LevelAfterAppend(Sck, false, Slots(data, miso, m - 1), slot);
    }
  }

  lemma PrefixOfAppend<T>(a: seq<T>, b: seq<T>, n: nat)
    requires n <= |b|
    ensures (a + b)[..|a| + n] == a + b[..n]
  {
  }

  /** The trace up to event `o` of slot `k`: the select, the earlier slots, and the start of slot `k`. */
  lemma {:induction false} SlotStartInTrace(data: u8, miso: seq<bool>, k: nat, o: nat)
    requires |miso| == 8 && k < 8 && o <= 6
    ensures SpiTrace(data, miso)[..1 + 6 * k + o] ==
      ([Drive(Cs, false)] + Slots(data, miso, k)) + BitSlot(data, 7 - k, miso[k])[..o]
  {
    var all := Slots(data, miso, 8);
    var before := Slots(data, miso, k);
    var slot := BitSlot(data, 7 - k, miso[k]);
    SlotsPrefix(data, miso, 8, k + 1);
    assert all[..6 * k + 6] == before + slot;
    assert all[..6 * k + o] == (before + slot)[..6 * k + o];
    PrefixOfAppend(before, slot, o);
    assert SpiTrace(data, miso)[..1 + 6 * k + o] == [Drive(Cs, false)] + all[..6 * k + o];
  }

  /** In iteration `k`, SCK is low when MOSI is driven: the slot starts with the clock low. */
  lemma {:induction false} SckLowAtMosi(data: u8, miso: seq<bool>, k: nat)
    requires |miso| == 8 && k < 8
    ensures !LevelAfter(Sck, false, SpiTrace(data, miso)[..2 + 6 * k])
  {
    var head := [Drive(Cs, false)] + Slots(data, miso, k);
    var slot := BitSlot(data, 7 - k, miso[k]);
    SckLowAfterSlots(data, miso, k);
    LevelAfterAppend(Sck, false, [Drive(Cs, false)], Slots(data, miso, k));
    SlotStartInTrace(data, miso, k, 1);
    LevelAfterAppend(Sck, false, head, slot[..1]);
  }

  /** In iteration `k`, SCK is high when MISO is sampled: the rising edge comes first. */
  lemma {:induction false} SckHighAtSample(data: u8, miso: seq<bool>, k: nat)
    requires |miso| == 8 && k < 8
    ensures LevelAfter(Sck, false, SpiTrace(data, miso)[..4 + 6 * k])
  {
    var head := [Drive(Cs, false)] + Slots(data, miso, k);
    var slot := BitSlot(data, 7 - k, miso[k]);
    SlotStartInTrace(data, miso, k, 3);
    LevelAfterAppend(Sck, false, head, slot[..3]);
    assert slot[..3][..2] == slot[..2];
  }

  /**
   Mode 0 clocking: before each slot's rising edge SCK is low, while MISO is
   sampled it is high, and after the transfer it is back at its idle low;
   chip select is low for the whole transfer and high after it.
   */
  lemma ClockAndSelectLevels(data: u8, miso: seq<bool>)
    requires |miso| == 8
    ensures forall k :: 0 <= k < 8 ==> !LevelAfter(Sck, false, SpiTrace(data, miso)[..2 + 6 * k])
    ensures forall k :: 0 <= k < 8 ==> LevelAfter(Sck, false, SpiTrace(data, miso)[..4 + 6 * k])
    ensures !LevelAfter(Sck, false, SpiTrace(data, miso))
    ensures forall n :: 1 <= n < TRANSFER_LENGTH ==> !LevelAfter(Cs, true, SpiTrace(data, miso)[..n])
    ensures LevelAfter(Cs, true, SpiTrace(data, miso))
  {
    var t := SpiTrace(data, miso);
    var all := Slots(data, miso, 8);
    forall k | 0 <= k < 8
      ensures !LevelAfter(Sck, false, t[..2 + 6 * k]) && LevelAfter(Sck, false, t[..4 + 6 * k])
    {
      SckLowAtMosi(data, miso, k);
      SckHighAtSample(data, miso, k);
    }
    SckLowAfterSlots(data, miso, 8);
    LevelAfterAppend(Sck, false, [Drive(Cs, false)] + all, [Drive(Cs, true)]);
    LevelAfterAppend(Sck, false, [Drive(Cs, false)], all);
    SlotsNeverTouchCs(data, miso, 8);
    forall n | 1 <= n < TRANSFER_LENGTH
      ensures !LevelAfter(Cs, true, t[..n])
    {
      assert t[..n] == [Drive(Cs, false)] + all[..n - 1];
      LevelAfterAppend(Cs, true, [Drive(Cs, false)], all[..n - 1]);
      LevelUntouched(Cs, false, all[..n - 1]);
    }
  }

  /** Number of rising-edge writes `sck_high()` in `t`. */
  function RisingEdges(t: seq<SpiEvent>): nat
  {
    if |t| == 0 then 0
    else (if t[0] == Drive(Sck, true) then 1 else 0) + RisingEdges(t[1..])
  }

  lemma {:induction false} RisingEdgesAppend(a: seq<SpiEvent>, b: seq<SpiEvent>)
    ensures RisingEdges(a + b) == RisingEdges(a) + RisingEdges(b)
  {
    if |a| > 0 {
      assert (a + b)[1..] == a[1..] + b;
      RisingEdgesAppend(a[1..], b);
    } else {
      assert a + b == b;
    }
  }

  lemma RisingEdgesOfBitSlot(data: u8, i: nat, sample: bool)
    ensures RisingEdges(BitSlot(data, i, sample)) == 1
  {
    var slot := BitSlot(data, i, sample);
    assert slot == slot[..2] + slot[2..];
    RisingEdgesAppend(slot[..2], slot[2..]);
    assert slot[..2][1..][1..] == [];
    NoRisingEdges(slot[2..]);
  }

  lemma {:induction false} NoRisingEdges(t: seq<SpiEvent>)
    requires forall n :: 0 <= n < |t| ==> t[n] != Drive(Sck, true)
    ensures RisingEdges(t) == 0
  {
    if |t| > 0 {
      NoRisingEdges(t[1..]);
    }
  }

  lemma {:induction false} RisingEdgesOfSlots(data: u8, miso: seq<bool>, m: nat)
    requires m <= |miso| == 8
    ensures RisingEdges(Slots(data, miso, m)) == m
  {
    if m > 0 {
      RisingEdgesOfSlots(data, miso, m - 1);
      RisingEdgesAppend(Slots(data, miso, m - 1), BitSlot(data, 7 - (m - 1), miso[m - 1]));
      RisingEdgesOfBitSlot(data, 7 - (m - 1), miso[m - 1]);
    }
  }

  /** A transfer clocks exactly eight bits. */
  lemma EightRisingEdges(data: u8, miso: seq<bool>)
    requires |miso| == 8
    ensures RisingEdges(SpiTrace(data, miso)) == 8
  {
    var all := Slots(data, miso, 8);
    RisingEdgesOfSlots(data, miso, 8);
    RisingEdgesAppend([Drive(Cs, false)], all);
    RisingEdgesAppend([Drive(Cs, false)] + all, [Drive(Cs, true)]);
  }
}
