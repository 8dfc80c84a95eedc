# Fast GPIO benchmark: a Dafny model

This project models the core of a Raspberry Pi GPIO benchmark written in C
(`gpio.c`). The program maps three 4 KiB peripheral register windows: the
GPIO controller, the system timer and the interrupt controller. It disables
interrupts, configures pin 4 as an output and then pulses it N times in a
tight loop. On every pulse it records its counter in a 2^20-entry ring
buffer and tracks the largest gap between consecutive readings of the
1 MHz timer. Afterwards it re-enables interrupts and reports the elapsed
time and the largest delay.

Three pieces of that logic are modelled and verified:

- **The GPIO macros** (`GpioSelect`). `INP_GPIO`, `OUT_GPIO`, `SET_GPIO_ALT`,
  `GPIO_SET`, `GPIO_CLR` and `GET_GPIO` are in-place updates and reads of a
  1024-word `array<bv32>`. The bit arithmetic is stated on single words.
  Clearing a pin's field selects input. Each macro changes only the pin's
  own 3-bit field. Input then output gives the output code, and input then
  alternate function a (a <= 5) gives the documented code for that function.
  Output without input first need not give output: a pin left on
  alternate function 0 lands on alternate function 1.
- **The interrupt gate `interrupts(flag)`** (`InterruptGate`). `Step` is the
  transition on the three saved words and the register window. The class
  `Gate` holds the saved words as fields, and its method `Interrupts` is
  proved to perform exactly `Step`. The lemmas cover both refusals of a
  disable, what a successful disable writes, the refusal of an enable, and
  the disable/enable round trip. One lemma covers a corner of the code: a
  disable that reads 0 from word 132 returns 1 but leaves the gate looking
  enabled. The following enable then refuses and does not write words 133
  and 134 back.
- **The timed pulse loop and its driver** (`TimedLoop`, `Benchmark`). The
  timer is a sequence of low-word readings and N is a parameter. The loop
  is a `while` loop over a 2^20-entry `array<u32>` whose initial contents are
  arbitrary. It is proved to end with the counter at N. Each slot holds the
  last count that landed in it, or its old contents if none did. The
  maximum delay equals the largest wrapped difference between consecutive
  readings. The ring index `counter & 0xFFFFF` is a bitwise AND, proved to
  equal the counter modulo 2^20.

Representation: register words that the source manipulates bit by bit are
`bv32`. Counters, timer readings and buffer entries are `u32`, the integers
in [0, 2^32). Their C wrap-around is written out explicitly (`WrapSub`).

Two consequences of the code are worth stating:

- Wrapping 32-bit subtraction is exact for any interval shorter than
  2^32 µs, even across a rollover of the timer's low word
  (`Uint32.ElapsedOfLowWords`). Only intervals of 2^32 µs or more come out
  wrong, reduced modulo 2^32. The code adds no rollover correction and
  neither does the model.
- Disable followed by enable restores words 132-134 only when the disable
  read a nonzero word 132 (`InterruptGate.DisableEnableRoundTrip`,
  `InterruptGate.DisableOfZeroLooksEnabled`).

## Model

| member | source | states |
|---|---|---|
| `Uint32.WrapSub` | gpio.c:232 | `uint32_t` subtraction: the result r satisfies (b + r) mod 2^32 = a; r = a - b when a >= b, and a - b + 2^32 when the subtraction wraps |
| `Uint32.BitAnd` | gpio.c:229 | the bitwise AND of two unsigned integers is at most either operand |
| `Uint32.BitAndLowMask` | gpio.c:229 | ANDing with the mask of k low one-bits gives the value modulo 2^k |
| `Uint32.ElapsedOfLowWords` | gpio.c:243 | the wrapped difference of two low-word timer readings is the true number of ticks in between modulo 2^32, exact below 2^32 ticks even across a rollover |
| `GpioSelect.FieldIndex` | gpio.c:42-44 | a pin's field index `g % 10` is one of the ten fields of a word |
| `GpioSelect.OtherFieldKept` | gpio.c:42-44 | a word update confined to one field leaves every other field unchanged |
| `GpioSelect.ClearField` | gpio.c:42 | `INP_GPIO`'s word expression leaves the pin's field at the code that decodes to input, and every bit outside that field unchanged |
| `GpioSelect.OrIntoField` | gpio.c:43-44 | ORing a 3-bit code shifted to the pin's field ORs that code into the field value and leaves every bit outside the field unchanged |
| `GpioSelect.SetLowBit` | gpio.c:43 | `OUT_GPIO`'s word expression ORs 1 into the pin's field value and leaves every bit outside that field unchanged |
| `GpioSelect.AltCode` | gpio.c:44 | the alternate-function code is a 3-bit code that decodes to alternate function a for a <= 5, and to alternate function 5 for any larger a |
| `GpioSelect.OrAltCode` | gpio.c:44 | `SET_GPIO_ALT`'s word expression ORs the alternate-function code into the pin's field value and leaves every bit outside that field unchanged |
| `GpioSelect.AltCodeAfterClear` | gpio.c:41-44 | after `INP_GPIO`, `SET_GPIO_ALT` leaves exactly the alternate-function code in the field |
| `GpioSelect.InputThenOutput` | gpio.c:41-43 | `INP_GPIO` then `OUT_GPIO` selects output and keeps every other bit |
| `GpioSelect.InputThenAlt` | gpio.c:41-44 | `INP_GPIO` then `SET_GPIO_ALT(g, a)` with a <= 5 selects alternate function a and keeps every other bit |
| `GpioSelect.OutputWithoutInput` | gpio.c:41-43 | `OUT_GPIO` on a pin left on alternate function 0 gives alternate function 1, not output |
| `GpioSelect.PinLevel` | gpio.c:49 | `GET_GPIO` on the level word yields `1 << g` when bit g is set and 0 when it is clear |
| `GpioSelect.InpGpio` | gpio.c:42 | `INP_GPIO(g)` rewrites word g / 10 with the pin's field cleared; no other word changes |
| `GpioSelect.OutGpio` | gpio.c:43 | `OUT_GPIO(g)` rewrites word g / 10 with bit 0 of the pin's field set; no other word changes |
| `GpioSelect.SetGpioAlt` | gpio.c:44 | `SET_GPIO_ALT(g, a)` rewrites word g / 10 with the alternate-function code ORed into the pin's field; no other word changes |
| `GpioSelect.GpioSet` | gpio.c:46 | `GPIO_SET = v` stores v in word 7 and changes no other word |
| `GpioSelect.GpioClr` | gpio.c:47 | `GPIO_CLR = v` stores v in word 10 and changes no other word |
| `GpioSelect.GetGpio` | gpio.c:49 | `GET_GPIO(g)` yields `1 << g` when bit g of word 13 is set (pin high) and 0 when it is clear (pin low) |
| `InterruptGate.Step` | gpio.c:79-121 | a call returns 1 exactly when it succeeds (a disable when not disabled and nothing pending, an enable when disabled) and 0 otherwise; a refusal changes no saved word and no register; no register outside words 132-137 is ever written |
| `InterruptGate.DisableWhenDisabled` | gpio.c:85-91 | a disable while disabled returns 0 and changes nothing, whatever the pending words hold |
| `InterruptGate.SecondDisableRefuses` | gpio.c:85-105 | after a disable that saved a nonzero word 132, a second disable returns 0 and keeps the saved words, whatever the window holds by then |
| `InterruptGate.Pending` | gpio.c:93 | the OR of words 128, 129 and 130 is nonzero exactly when one of those words is nonzero |
| `InterruptGate.DisableWhilePending` | gpio.c:93-97 | a disable while words 128-130 are not all 0 returns 0 and changes nothing |
| `InterruptGate.DisableSucceeds` | gpio.c:100-105 | a successful disable saves words 132-134, writes them to words 135-137, changes no other word and returns 1 |
| `InterruptGate.EnableWhenEnabled` | gpio.c:107-113 | an enable while not disabled returns 0 and writes no register |
| `InterruptGate.EnableRestores` | gpio.c:115-120 | an enable while disabled writes the saved words back to words 132-134, changes no other word, marks the gate enabled and returns 1 |
| `InterruptGate.DisableEnableRoundTrip` | gpio.c:100-120 | after a disable that saved a nonzero word 132, an enable puts back exactly the words 132-134 the disable read, whatever the window held in between, and a second enable refuses |
| `InterruptGate.DisableOfZeroLooksEnabled` | gpio.c:102-113 | a disable that reads 0 from word 132 returns 1 but leaves the gate enabled, so the next enable refuses and words 133-134 are not restored |
| `InterruptGate.Gate.constructor` | gpio.c:81-83 | the saved words start at 0, so the gate starts enabled |
| `InterruptGate.Gate.Interrupts` | gpio.c:79-121 | `interrupts(flag)` returns, saves and writes exactly what `Step` prescribes |
| `TimedLoop.RingIndex` | gpio.c:229 | `counter & 0xFFFFF` is below 2^20, the buffer length, and equals the counter modulo 2^20 |
| `TimedLoop.LastWriter` | gpio.c:225-229 | the last writer of slot i after counts 1..c is the largest k <= c in slot i, or 0 when no count in 1..c lands there |
| `TimedLoop.NewestSurvives` | gpio.c:228-229 | slot `c & 0xFFFFF` holds c itself |
| `TimedLoop.FullRing` | gpio.c:204-229 | once 2^20 counts are written, every slot holds one of the last 2^20 counts |
| `TimedLoop.MaxDelay` | gpio.c:230-234 | the largest delay is at least every wrapped difference of consecutive readings and equals one of them; it is 0 when there are fewer than two readings |
| `TimedLoop.MaxDelayExamples` | gpio.c:230-234 | steady one-tick readings with one 500-tick gap report 500; a one-tick gap across a rollover of the low timer word counts as one tick |
| `TimedLoop.PulseLoop` | gpio.c:223-235 | the loop ends with the counter at N and the delay equal to `MaxDelay` of the readings; each buffer slot holds its last writer or its old contents, and for N >= 1 slot `N & 0xFFFFF` holds N; the only GPIO writes are words 7 and 10 |
| `Benchmark.Run` | gpio.c:203-243 | `main` reports counter N, buffer entry 1234, elapsed time as the wrapped difference of the end and start readings, and `MaxDelay` of the loop's readings; pin 4's word is set to output; the interrupt window ends as a disable followed by an enable leaves it |
| `Benchmark.PulsePinIsOutput` | gpio.c:220-221 | pin 4 ends up configured as an output with the rest of its word unchanged |
| `Benchmark.RunRestoresInterrupts` | gpio.c:214-239 | when the gate starts enabled, nothing is pending and word 132 is nonzero, the run leaves words 132-134 as they were and the gate enabled |

## Left out

- `setup_mmap` (gpio.c:127-188): opening `/dev/mem`, `mmap`, `close` and `exit` are OS I/O. The model takes the GPIO and interrupt windows as two distinct 1024-word arrays.
- The timer window: it is replaced by the sequence of low-word readings the program takes. The high word is read but never used (gpio.c:212, 217, 237), and `TIMER_OFFSET` is unused.
- `printf` output and `printButton` (gpio.c:191-197): console I/O, unused by `main`.
- The frequency `1.0 * NUMBER_OF_PULSES / (...)` (gpio.c:244): floating point.
- Hardware meaning of the registers: write-1-to-set and write-1-to-clear at words 7 and 10, disable registers clearing enable bits, and the timer advancing at 1 MHz. Registers are plain words, and volatile access and ordering are not modelled.
- `GPIO_PULL` and `GPIO_PULLCLK0` (gpio.c:51-52): defined but never used.
- `NUMBER_OF_PULSES` is the parameter N (any 32-bit value), and the physical base addresses are not modelled.
- GpioSelect.SetGpioAlt: takes the alternate-function numbers a >= 0 only. Alternate functions are numbered 0-5; a <= -5 would shift a negative code, which C leaves undefined, and a in -4..-1 would OR in codes 0-3, which the model does not cover.
- GpioSelect.GetGpio: takes pins 0-31 only, because `1 << g` is undefined in C for g >= 32.
- GpioSelect.InpGpio, GpioSelect.OutGpio, GpioSelect.SetGpioAlt: require the pin's word to lie inside the window, which the macros do not check.
