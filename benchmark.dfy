/**
 * The benchmark that gpio.c's `main` runs around the timed loop: disable
 * interrupts, read the start time, make the pulse pin an output, run the
 * loop, read the end time, re-enable interrupts, and report the counter,
 * buffer entry 1234, the elapsed time and the largest delay. The gate's
 * results are not checked, as in the source: a refused disable or enable
 * only skips that change of the interrupt state.
 */
module Benchmark {
  import opened Uint32
  import opened Registers
  import opened GpioSelect
  import opened InterruptGate
  import opened TimedLoop

  /** The buffer entry the summary reports. */
  const REPORTED_SLOT: nat := 1234

  /** The figures the benchmark reports (the frequency is left out). */
  datatype Report = Report(counter: u32, sample: u32, elapsed: u32, maxDelay: u32)

  /**
   * The whole run with n pulses. The timer's low word is read n + 3 times:
   * timer[0] at the start, timer[1] to seed the loop, timer[2 .. n + 1]
   * inside it and timer[n + 2] at the end. The interrupt window ends as a
   * disable followed directly by an enable leaves it; the GPIO window has
   * the pulse pin's field set to output, and the set and clear registers
   * written when the loop ran at all.
   */
  method Run(gpio: array<bv32>, gate: Gate, buffer: array<u32>, n: u32, timer: seq<u32>)
    returns (r: Report)
    requires gpio.Length == WINDOW && gate.Valid() && gpio != gate.intrupt
    requires buffer.Length == RING && |timer| == n + 3
    modifies gpio, buffer, gate, gate.intrupt
    ensures r.counter == n
    ensures r.elapsed == WrapSub(timer[n + 2], timer[0])
    ensures r.maxDelay == MaxDelay(timer[1..n + 2])
    ensures RingHolds(buffer[..], old(buffer[..]), n)
    ensures r.sample == buffer[REPORTED_SLOT]
    ensures var configured := old(gpio[..])[0 := SetLowBit(ClearField(old(gpio[0]), PULSE_PIN), PULSE_PIN)];
            gpio[..] == if n == 0 then configured
                        else configured[SET_WORD := 1 << PULSE_PIN][CLR_WORD := 1 << PULSE_PIN]
    ensures var d := Step(0, old(gate.State()), old(gate.intrupt[..]));
            var e := Step(1, d.saved, d.regs);
            gate.State() == e.saved && gate.intrupt[..] == e.regs
  {
    var _ := gate.Interrupts(0);
    var timerStart := timer[0];
    ghost var before := gpio[..];
    assert FieldIndex(PULSE_PIN as nat) == PULSE_PIN && (PULSE_PIN as nat) / 10 == 0;
    InpGpio(gpio, PULSE_PIN as nat);
    OutGpio(gpio, PULSE_PIN as nat);
    assert gpio[..] == before[0 := SetLowBit(ClearField(before[0], PULSE_PIN), PULSE_PIN)];
    var counter, maxDelay := PulseLoop(gpio, buffer, n, timer[1..n + 2]);
    var timerEnd := timer[n + 2];
    var _ := gate.Interrupts(1);
    r := Report(counter, buffer[REPORTED_SLOT], WrapSub(timerEnd, timerStart), maxDelay);
  }

  /**
   * The pulse pin ends up configured as an output, with every other bit of
   * its function-select word as before.
   */
  lemma PulsePinIsOutput(w: bv32)
    ensures Decode(FieldAt(SetLowBit(ClearField(w, PULSE_PIN), PULSE_PIN), PULSE_PIN)) == Output
    ensures OnlyFieldChanged(w, SetLowBit(ClearField(w, PULSE_PIN), PULSE_PIN), PULSE_PIN)
  {
    InputThenOutput(w, PULSE_PIN);
  }

  /**
   * Around a run that starts with the gate enabled, nothing pending and a
   * nonzero word 132, the interrupt window comes back with words 132-134
   * as they were, the disable registers 135-137 written with them, and the
   * gate enabled again.
   */
  lemma RunRestoresInterrupts(s: Saved, regs: seq<bv32>)
    requires |regs| == WINDOW && !IsDisabled(s) && !Pending(regs) && regs[132] != 0
    ensures var d := Step(0, s, regs);
            var e := Step(1, d.saved, d.regs);
            && e.regs == regs[135 := regs[132]][136 := regs[133]][137 := regs[134]]
            && !IsDisabled(e.saved)
  {
    DisableSucceeds(s, regs);
    DisableEnableRoundTrip(s, regs, Step(0, s, regs).regs, 1);
  }
}
