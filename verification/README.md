# Cycle-counter timing and bit-banged serial framing on an STM32H7

This project models the timing and framing core of three bare-metal STM32H7
programs in Dafny:

- `SPI_GPIO` bit-bangs an SPI master in mode 0 on GPIOA.
- `UART_GPIO` bit-bangs an 8N1 asynchronous transmitter on PA5.
- `UART_Perifericos` configures USART3 on PB10/PB11.

All three use the free-running 32-bit DWT cycle counter (CYCCNT) as their
only clock.

The model has eight modules, one per concept:

| module | file | what it holds |
|---|---|---|
| `Word` | `Word.dfy` | `uint32_t`/`uint64_t` arithmetic as unbounded integers with explicit reduction (`Wrap32`, `Wrap64`); bits of a byte; LSB-first and MSB-first bit strings and their round trips |
| `CycleClock` | `CycleClock.dfy` | a counter reading is the true cycle count modulo 2^32; `(uint32_t)(now - start)` is `Elapsed`, `(int32_t)(now - deadline) >= 0` is `Reached`; both are related back to true cycle counts |
| `BusyWait` | `BusyWait.dfy` | `delay_us` / `delay_ms`: the cycle budgets (truncated to 32 bits in the SPI program, widened to 64 bits in the UART programs) and the spin loop |
| `Deadline` | `Deadline.dfy` | `wait_until` and the advancing deadline `deadline += BIT_CYCLES`, with the no-drift property |
| `Gpio` | `Gpio.dfy` | GPIO register words as `bv32`: 2-bit and 4-bit fields, BSRR set/reset masks, the BSRR write semantics |
| `SpiGpio` | `SpiGpio.dfy` | `GPIO_Init_SPI` register values and `SPI_Transfer` as a trace of port events |
| `UartGpio` | `UartGpio.dfy` | `GPIO_Init_TX` register values and `UART_SendByte` as a trace of interrupt, line and wait events |
| `UartPeripheral` | `UartPeripheral.dfy` | `brr_from` and the PB10/PB11 alternate-function configuration |

## How the hardware is modelled

- **The counter.** The hardware is given to each operation as parameters. A
  busy-wait receives the finite run of counter readings it would see. When
  the run ends before the loop's exit condition holds, the result is
  `StillSpinning`. That is where the program would block. The core clock
  `SystemCoreClock` is a parameter; `CPU_HZ` is the constant 64 MHz.
- **MISO.** `SPI_Transfer` receives the eight levels that its eight IDR
  reads see. It returns its trace and the received byte:
  - BSRR writes that drive SCK, MOSI or CS;
  - MISO reads;
  - `delay_us(10)` calls.
- **The UART loop.** `UART_SendByte` returns a trace of interrupt masking,
  line levels and completed waits, each wait with its deadline. It also
  returns the index of the reading at which each wait ended.
  - The source writes this as a start bit, an 8-iteration loop and a stop
    bit. The model uses one loop over the ten levels of the frame.
  - It emits the same events in the same order, and the deadline step is
    the same.

Notes on the code:

- `delay_us`/`delay_ms` in `SPI_GPIO` form the budget in 32 bits, which
  wraps. They do not widen it.
- `SPI_Transfer` accumulates MSB first (`rx <<= 1; rx |= bit`).
- The demonstration byte is `'H'` (0x48), not 0x55. The comment at
  `UART_Perifericos/main.c` lines 106 and 108 names `'U'`, but the code
  sends `'H'`.
- `brr_from` rounds half up in 32-bit arithmetic, so its sum can wrap. It
  is not an exact `round(fclk / baud)`.

## Model

| member | source | states |
|---|---|---|
| Word.Wrap32 | practicas_vilchis/SPI_GPIO/main.c:69 | the `(uint32_t)` conversion yields a 32-bit word congruent to its argument modulo 2^32 |
| Word.Wrap64 | practicas_vilchis/UART_GPIO/main.c:32 | the `(uint64_t)` conversion yields a value below 2^64 congruent to its argument |
| Word.WrapAdd | practicas_vilchis/UART_GPIO/main.c:64 | reducing after every 32-bit addition gives the same word as reducing once at the end, so repeated `deadline += BIT_CYCLES` composes |
| Word.LsbValue | practicas_vilchis/UART_GPIO/main.c:62-63 | the number reassembled from `n` LSB-first bits is below 2^n |
| Word.MsbValue | practicas_vilchis/SPI_GPIO/main.c:126-127 | the number a shift register accumulates from `n` bits is below 2^n |
| Word.LsbValueBit | practicas_vilchis/UART_GPIO/main.c:62-63 | bit `j` of the LSB-first value is the `j`-th bit sent |
| Word.MsbValueBit | practicas_vilchis/SPI_GPIO/main.c:126-127 | bit `j` of the shift-register value is the bit shifted in `j` steps before the end |
| Word.LsbRoundTrip | practicas_vilchis/UART_GPIO/main.c:62-63 | sending the low `n` bits of `x` LSB first and reassembling them gives `x` back |
| Word.MsbRoundTrip | practicas_vilchis/SPI_GPIO/main.c:118-127 | sending the low `n` bits of `x` MSB first and shifting them into a register gives `x` back |
| CycleClock.Elapsed | practicas_vilchis/SPI_GPIO/main.c:70 | `(uint32_t)(now - start)` is the count that, added to `start` modulo 2^32, reaches `now` |
| CycleClock.Signed32 | practicas_vilchis/UART_GPIO/main.c:27 | `(int32_t)` of a word lies in [-2^31, 2^31) and is congruent to it |
| CycleClock.Reached | practicas_vilchis/UART_GPIO/main.c:27 | `(int32_t)(CYCCNT - deadline) >= 0`, the test that ends `wait_until`, holds exactly when the counter is less than 2^31 cycles past the deadline |
| CycleClock.ElapsedIsTrueDistance | practicas_vilchis/SPI_GPIO/main.c:68-70 | wrap safety: the 32-bit difference of two readings is the true number of cycles between them whenever fewer than 2^32 passed, even across a wrap |
| CycleClock.ElapsedOfAdvance | practicas_vilchis/SPI_GPIO/main.c:70 | a reading `n < 2^32` cycles after `start` measures exactly `n` elapsed |
| CycleClock.ReachedIffPassed | practicas_vilchis/UART_GPIO/main.c:25-28 | when the true distance to the deadline is below 2^31 either way, the signed test holds if and only if the true time has reached the deadline |
| BusyWait.UsBudget | practicas_vilchis/SPI_GPIO/main.c:69 | `(uint32_t)((CPU_HZ / 1000000UL) * us)` is at most the true product and congruent to it modulo 2^32 |
| BusyWait.MsBudget | practicas_vilchis/SPI_GPIO/main.c:75 | `(uint32_t)((CPU_HZ / 1000UL) * ms)` is at most the true product and congruent to it modulo 2^32 |
| BusyWait.SpinDelay | practicas_vilchis/SPI_GPIO/main.c:67-77 | the delay loop returns at the first poll at which at least `cycles` have elapsed since the start sample, and keeps spinning while no poll qualifies |
| BusyWait.MsTicks64 | practicas_vilchis/UART_Perifericos/main.c:27 | `(uint64_t)SystemCoreClock * ms` never overflows 64 bits, and the budget is the exact floor of `SystemCoreClock * ms / 1000` |
| BusyWait.ProductFits64 | practicas_vilchis/UART_Perifericos/main.c:27 | the product of two 32-bit values fits in 64 bits |
| BusyWait.UsBudgetExactIffFits | practicas_vilchis/SPI_GPIO/main.c:69 | the truncated microsecond budget equals the intended product if and only if that product fits in 32 bits |
| BusyWait.UsBudgetAt64MHz | practicas_vilchis/SPI_GPIO/main.c:69 | at 64 MHz the budget is `64 * us` if and only if `us < 2^26`; beyond that it is `64 * us` modulo 2^32 |
| BusyWait.MsBudgetAt64MHz | practicas_vilchis/SPI_GPIO/main.c:75 | at 64 MHz the truncated millisecond budget is `64000 * ms` if and only if `ms <= 67108` |
| BusyWait.BudgetsAgreeIffFits | practicas_vilchis/SPI_GPIO/main.c:75 | the SPI program's 32-bit budget and the UART programs' 64-bit budget agree at 64 MHz if and only if `ms <= 67108` |
| BusyWait.DelayCanEndIff | practicas_vilchis/UART_Perifericos/main.c:26-28 | some counter reading ends the delay if and only if the 64-bit budget is below 2^32 |
| BusyWait.MsDelayCanEndAt64MHz | practicas_vilchis/UART_GPIO/main.c:30-34 | at 64 MHz `delay_ms(ms)` can return if and only if `ms <= 67108`; a longer delay blocks forever |
| BusyWait.DelayReturnsOnTime | practicas_vilchis/SPI_GPIO/main.c:68-70 | for readings taken at true times less than 2^32 cycles after the start, the loop returns at the first poll that is truly `cycles` or more after the start, and every earlier poll was truly short of it |
| Deadline.DeadlineAt | practicas_vilchis/UART_GPIO/main.c:58-64 | the `k`-th value of `deadline` (`CYCCNT + BIT_CYCLES`, then `deadline += BIT_CYCLES`) as `(uint32_t)(s + k * BIT_CYCLES)`; `AdvanceDeadline` shows the running update produces it and `DeadlineDistance` that it lies `k` periods after the anchor |
| Deadline.WaitUntil | practicas_vilchis/UART_GPIO/main.c:25-28 | `wait_until` returns at the first reading from where it starts that has reached the deadline, and spins while none has |
| Deadline.AdvanceDeadline | practicas_vilchis/UART_GPIO/main.c:64 | one `deadline += BIT_CYCLES` in 32 bits moves from the `k`-th deadline of the schedule to the `k + 1`-th |
| Deadline.DeadlineDistance | practicas_vilchis/UART_GPIO/main.c:58 | the `k`-th deadline measures exactly `k` periods after the anchor sample, wrap or not |
| Deadline.NoDrift | practicas_vilchis/UART_GPIO/main.c:58-71 | the reading that ends the wait for the `k`-th deadline lies `k` periods plus that one wait's lateness after the anchor, with the lateness below 2^31: earlier loop overhead never accumulates |
| Gpio.ApplyBsrrBit | practicas_vilchis/SPI_GPIO/main.c:51-56 | a write `GPIO_BSRR = w` sets each output named in the low half, resets each named only in the high half, and leaves every other ODR bit unchanged |
| Gpio.SetMask | practicas_vilchis/SPI_GPIO/main.c:51 | `1UL << p` has exactly bit `p` set |
| Gpio.ResetMask | practicas_vilchis/SPI_GPIO/main.c:52 | `1UL << (p + 16U)` has exactly bit `p + 16` set |
| Gpio.DriveChangesOnlyPin | practicas_vilchis/SPI_GPIO/main.c:51-56 | writing a set or reset mask to BSRR drives output bit `p` to the level and leaves every other output bit unchanged |
| Gpio.DriveBit | practicas_vilchis/SPI_GPIO/main.c:51-56 | after a helper's BSRR write, a given output bit is the driven level if it is pin `p` and its old value otherwise |
| SpiGpio.HalfPeriodCycles | practicas_vilchis/SPI_GPIO/main.c:124 | at 64 MHz `delay_us(10)` waits 640 cycles |
| SpiGpio.SpiModer | practicas_vilchis/SPI_GPIO/main.c:85-88 | MODER fields of SCK, MOSI and CS become 01 (output), MISO's becomes 00 (input) |
| SpiGpio.SpiModerKeepsOthers | practicas_vilchis/SPI_GPIO/main.c:85-88 | the MODER field of every other pin is unchanged |
| SpiGpio.SpiOtyper | practicas_vilchis/SPI_GPIO/main.c:91-93 | OTYPER bits of SCK, MOSI and CS become 0 (push-pull) |
| SpiGpio.SpiOtyperKeepsOthers | practicas_vilchis/SPI_GPIO/main.c:91-93 | every other OTYPER bit is unchanged |
| SpiGpio.SpiOspeedr | practicas_vilchis/SPI_GPIO/main.c:96-98 | OSPEEDR fields of SCK, MOSI and CS become 11 |
| SpiGpio.SpiOspeedrKeepsOthers | practicas_vilchis/SPI_GPIO/main.c:96-98 | the OSPEEDR field of every other pin is unchanged |
| SpiGpio.SpiPupdr | practicas_vilchis/SPI_GPIO/main.c:101-104 | PUPDR fields of SCK, MOSI and CS become 00, MISO's becomes 01 (pull-up) |
| SpiGpio.SpiPupdrKeepsOthers | practicas_vilchis/SPI_GPIO/main.c:101-104 | the PUPDR field of every other pin is unchanged |
| SpiGpio.SpiIdleOdr | practicas_vilchis/SPI_GPIO/main.c:107-109 | after `sck_low(); mosi_low(); cs_high();` SCK and MOSI are low and CS is high |
| SpiGpio.SpiIdleOdrKeepsOthers | practicas_vilchis/SPI_GPIO/main.c:107-109 | those three writes leave every other output bit unchanged |
| SpiGpio.Slots | practicas_vilchis/SPI_GPIO/main.c:118-132 | `k` loop iterations emit `6 * k` events |
| SpiGpio.SpiTrace | practicas_vilchis/SPI_GPIO/main.c:113-136 | a transfer emits 50 events |
| SpiGpio.SpiTransfer | practicas_vilchis/SPI_GPIO/main.c:113-136 | the loop from `i = 7` down to 0 emits exactly the reference trace and returns the MSB-first value of the eight samples |
| SpiGpio.TransferBit | practicas_vilchis/SPI_GPIO/main.c:119-131 | iteration `7 - i` emits the reference slot for bit `i`, which extends the trace of the earlier iterations by one slot, and turns the MSB-first value of the samples so far into that of one more sample |
| SpiGpio.ShiftInStep | practicas_vilchis/SPI_GPIO/main.c:126-127 | `rx <<= 1` on a `uint8_t` followed by setting bit 0 extends the received value by one sample without losing a bit |
| SpiGpio.SlotsIndex | practicas_vilchis/SPI_GPIO/main.c:118-132 | event `o` of iteration `j` is at offset `6 * j + o` |
| SpiGpio.SlotsPrefix | practicas_vilchis/SPI_GPIO/main.c:118-132 | the first `6 * j` events are the first `j` iterations |
| SpiGpio.MosiMsbFirst | practicas_vilchis/SPI_GPIO/main.c:118-120 | iteration `k` drives MOSI with bit `7 - k` of `data` and samples `miso[k]` |
| SpiGpio.ReceivedMsbFirst | practicas_vilchis/SPI_GPIO/main.c:126-127 | sample `k` ends up in bit `7 - k` of `rx` |
| SpiGpio.Loopback | practicas_vilchis/SPI_GPIO/main.c:114-127 | if every sample equals the MOSI bit just driven, the received byte is `data` |
| SpiGpio.SlotsNeverTouchCs | practicas_vilchis/SPI_GPIO/main.c:118-132 | no loop iteration drives CS |
| SpiGpio.CsBrackets | practicas_vilchis/SPI_GPIO/main.c:116-134 | CS is driven low first and high last, and by no event in between |
| SpiGpio.OdrMatchesLevels | practicas_vilchis/SPI_GPIO/main.c:51-56 | the ODR bit of each line after the BSRR writes of a trace is the level the trace leaves on that line |
| SpiGpio.SckLowAfterSlots | practicas_vilchis/SPI_GPIO/main.c:123-131 | SCK is low at the end of every iteration |
| SpiGpio.SckLowAtMosi | practicas_vilchis/SPI_GPIO/main.c:120-123 | in iteration `k`, SCK is still low right after MOSI is driven |
| SpiGpio.SckHighAtSample | practicas_vilchis/SPI_GPIO/main.c:123-127 | in iteration `k`, SCK is high when MISO is sampled |
| SpiGpio.ClockAndSelectLevels | practicas_vilchis/SPI_GPIO/main.c:107-134 | mode 0 from the idle-low clock: SCK low before each rising edge, high at each sample, low at the end; CS low throughout the transfer and high after it |
| SpiGpio.RisingEdgesOfBitSlot | practicas_vilchis/SPI_GPIO/main.c:123-130 | each iteration has exactly one SCK rising edge |
| SpiGpio.RisingEdgesOfSlots | practicas_vilchis/SPI_GPIO/main.c:118-132 | `k` iterations have `k` rising edges |
| SpiGpio.EightRisingEdges | practicas_vilchis/SPI_GPIO/main.c:113-136 | a transfer has exactly eight SCK rising edges |
| UartGpio.BitCycles | practicas_vilchis/UART_GPIO/main.c:11 | `BIT_CYCLES = SystemCoreClock / BAUD_RATE` is the floor of the quotient, and for every 32-bit clock ten bit periods fit within 2^31 cycles |
| UartGpio.BitCyclesAt64MHz | practicas_vilchis/UART_GPIO/main.c:11 | at 64 MHz `BIT_CYCLES` is 6666 and ten of them fit within 2^31 cycles |
| UartGpio.TxMask | practicas_vilchis/UART_GPIO/main.c:14-15 | `tx_high` writes 0x20 and `tx_low` writes 0x200000 to BSRR |
| UartGpio.TxModer | practicas_vilchis/UART_GPIO/main.c:42-43 | the MODER field of PA5 becomes 01 (output) |
| UartGpio.TxModerKeepsOthers | practicas_vilchis/UART_GPIO/main.c:42-43 | the MODER field of every other pin is unchanged |
| UartGpio.TxOtyper | practicas_vilchis/UART_GPIO/main.c:44 | the OTYPER bit of PA5 becomes 0 (push-pull) |
| UartGpio.TxOtyperKeepsOthers | practicas_vilchis/UART_GPIO/main.c:44 | every other OTYPER bit is unchanged |
| UartGpio.TxOspeedr | practicas_vilchis/UART_GPIO/main.c:45 | the OSPEEDR field of PA5 becomes 11 |
| UartGpio.TxOspeedrKeepsOthers | practicas_vilchis/UART_GPIO/main.c:45 | the OSPEEDR field of every other pin is unchanged |
| UartGpio.TxPupdr | practicas_vilchis/UART_GPIO/main.c:46 | the PUPDR field of PA5 becomes 00 (no pull) |
| UartGpio.TxPupdrKeepsOthers | practicas_vilchis/UART_GPIO/main.c:46 | the PUPDR field of every other pin is unchanged |
| UartGpio.TxIdleOdr | practicas_vilchis/UART_GPIO/main.c:49 | after `GPIO_Init_TX` the line is high (idle) |
| UartGpio.TxIdleOdrKeepsOthers | practicas_vilchis/UART_GPIO/main.c:49 | the idle write leaves every other output bit unchanged |
| UartGpio.Frame | practicas_vilchis/UART_GPIO/main.c:56-69 | the levels `UART_SendByte` drives, `tx_low()`, then `b & (1u << i)` for `i` from 0 to 7, then `tx_high()`, are ten; `FrameRoundTrip` states what each one is |
| UartGpio.FrameRoundTrip | practicas_vilchis/UART_GPIO/main.c:56-69 | the ten levels are a low start bit, bits 0..7 of `b`, a high stop bit, and a receiver reassembling the data bits gets `b` back |
| UartGpio.FrameOfH | practicas_vilchis/UART_GPIO/main.c:85 | sending `'H'` puts 0, 0,0,0,1,0,0,1,0, 1 on the line |
| UartGpio.Levels | practicas_vilchis/UART_GPIO/main.c:57-71 | `k` levels emit `2 * k` events |
| UartGpio.SendTrace | practicas_vilchis/UART_GPIO/main.c:53-74 | a complete send emits 22 events |
| UartGpio.ExitChainAt | practicas_vilchis/UART_GPIO/main.c:59-71 | each wait of a send returned at the first reading after the previous wait that reached its own deadline |
| UartGpio.LevelOf | practicas_vilchis/UART_GPIO/main.c:56-69 | the level driven at position `k` is position `k` of the 8N1 frame |
| UartGpio.NextDeadline | practicas_vilchis/UART_GPIO/main.c:64 | `deadline += BIT_CYCLES` takes the `k`-th deadline of the schedule to the `k + 1`-th |
| UartGpio.UartSendByte | practicas_vilchis/UART_GPIO/main.c:53-74 | the send emits the reference trace up to the number of waits completed; each wait ended at the first reading that reached its deadline; the frame completes exactly when all ten waits did, and an unfinished wait never saw its deadline |
| UartGpio.LevelsIndex | practicas_vilchis/UART_GPIO/main.c:57-71 | level `k` is driven at offset `2 * k` and followed by the wait for deadline `k + 1` |
| UartGpio.LevelsPrefix | practicas_vilchis/UART_GPIO/main.c:57-71 | the first `2 * k` events are the first `k` levels |
| UartGpio.SendShape | practicas_vilchis/UART_GPIO/main.c:53-74 | mask first, unmask last; level `k` of the frame is driven and then waited on until `(s + (k + 1) * BIT_CYCLES) mod 2^32`, anchored at the one counter sample `s` |
| UartGpio.EmittedIsPrefix | practicas_vilchis/UART_GPIO/main.c:53-74 | a send stuck in a wait has emitted a proper prefix of the complete send, without the unmask |
| UartGpio.LevelsNeverTouchIrq | practicas_vilchis/UART_GPIO/main.c:57-71 | no level or wait changes the interrupt mask |
| UartGpio.IrqMaskedDuringFrame | practicas_vilchis/UART_GPIO/main.c:54-73 | interrupts are off after every event from the first to the last-but-one, so every level change and wait happens with them masked; the last event turns them back on |
| UartGpio.LineHeldUntilDeadline | practicas_vilchis/UART_GPIO/main.c:57-71 | level `k` is on the line after its drive and still after its wait, so it is never replaced before deadline `k + 1`; the line ends high |
| UartGpio.FrameOnSchedule | practicas_vilchis/UART_GPIO/main.c:58-71 | every wait of the frame ends `k + 1` periods after the anchor plus only that wait's own lateness, below 2^31 |
| UartGpio.WaitOnSchedule | practicas_vilchis/UART_GPIO/main.c:58-71 | the same for one wait of the frame |
| UartPeripheral.BrrFrom | practicas_vilchis/UART_Perifericos/main.c:11-13 | when `fclk + baud / 2` fits in 32 bits, `brr` is the floor of `(fclk + baud / 2) / baud` (so `fclk / baud` rounded half up, within half a baud of `fclk`); when it wraps, `brr` is the floor of the wrapped sum divided by `baud` |
| UartPeripheral.BrrIsNearest | practicas_vilchis/UART_Perifericos/main.c:11-13 | without a wrap no other divisor puts its multiple of `baud` closer to `fclk`: `brr_from` rounds to nearest |
| UartPeripheral.BrrAt64MHz | practicas_vilchis/UART_Perifericos/main.c:5-13 | the configured 64 MHz and 9600 baud give the divisor 6667 |
| UartPeripheral.BrrWrapsNearTop | practicas_vilchis/UART_Perifericos/main.c:11-13 | at `fclk = 2^32 - 1`, `baud = 2` the sum wraps and the divisor is 0, far from the nearest |
| UartPeripheral.Usart3Moder | practicas_vilchis/UART_Perifericos/main.c:38-39 | the MODER fields of PB10 and PB11 become 10 (alternate function) |
| UartPeripheral.Usart3ModerKeepsOthers | practicas_vilchis/UART_Perifericos/main.c:38-39 | the MODER field of every other pin is unchanged |
| UartPeripheral.Usart3Afr1 | practicas_vilchis/UART_Perifericos/main.c:44-45 | AFR[1] nibbles 2 and 3 (PB10, PB11) become 7 (USART3) |
| UartPeripheral.Usart3Afr1KeepsOthers | practicas_vilchis/UART_Perifericos/main.c:44-45 | the six other AFR[1] nibbles are unchanged |
| UartPeripheral.Usart3Otyper | practicas_vilchis/UART_Perifericos/main.c:48 | the OTYPER bits of PB10 and PB11 become 0 (push-pull) |
| UartPeripheral.Usart3OtyperKeepsOthers | practicas_vilchis/UART_Perifericos/main.c:48 | every other OTYPER bit is unchanged |
| UartPeripheral.Usart3Ospeedr | practicas_vilchis/UART_Perifericos/main.c:49 | the OSPEEDR fields of PB10 and PB11 become 11 |
| UartPeripheral.Usart3OspeedrKeepsOthers | practicas_vilchis/UART_Perifericos/main.c:49 | the OSPEEDR field of every other pin is unchanged |
| UartPeripheral.Usart3Pupdr | practicas_vilchis/UART_Perifericos/main.c:52-53 | the PUPDR field of PB11 becomes 01 (pull-up) |
| UartPeripheral.Usart3PupdrKeepsOthers | practicas_vilchis/UART_Perifericos/main.c:52-53 | the PUPDR field of every other pin, PB10 included, is unchanged |

## Left out

- `DWT_Init` in all three programs: it enables and resets the counter, and nothing in it computes a value. The counter is assumed to be running.
- RCC clock enables and resets, and `SystemCoreClockUpdate`: these are hardware state whose code is not part of this model. `SystemCoreClock` is a parameter.
- `USART3_Init_9600_8N1` and `USART3_SendByte`: the peripheral times the bits itself and sets the TEACK/TXE status bits. Only the BRR value written at line 75 is modelled.
- The infinite `main` loops: only their parts are modelled. `FrameOfH` covers the byte `'H'`, and `MsDelayCanEndAt64MHz` / `BudgetsAgreeIffFits` cover `delay_ms(1000)`.
- Real time and interrupt behaviour. Busy-waits run over finite sequences of counter readings, and interrupt masking is a trace event with a derived on/off flag. No interrupt is ever delivered, so there is no concurrency.
- SpiGpio.SpiTransfer: each `delay_us(10)` is recorded as a `DelayUs` event. Its spin is not run inside the transfer; `BusyWait.SpinDelay` models that spin and `HalfPeriodCycles` its budget.
- SpiGpio.SpiTransfer: each MISO read is given as the level the condition checks. The 32-bit IDR word behind it is not modelled.
- UartGpio.UartSendByte: a `Wait` event records the deadline of a wait that returned. The index of the reading that ended the wait is returned separately in `exits`.
- Gpio: register fields are read through `Field2`, `Nibble` and `WordBit`. The registers' reserved bits are not modelled.
