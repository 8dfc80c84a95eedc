/**
 * The timed pulse loop of gpio.c's `main`: it pulses one GPIO pin N
 * times, records each value of its counter in a 2^20-entry ring buffer
 * indexed through the mask 0xFFFFF, and keeps the largest difference
 * between consecutive readings of the timer's low word. The timer is an
 * input sequence of readings; the differences wrap modulo 2^32 and are not
 * corrected for a rollover.
 */
module TimedLoop {
  import opened Uint32
  import opened Registers
  import opened GpioSelect

  /** Entries in the ring buffer (1024 * 1024 words, 4 MB). */
  const RING: nat := 0x10_0000
  /** The mask that folds the counter into the ring. */
  const RING_MASK: nat := 0xF_FFFF
  /** The pin the loop pulses. */
  const PULSE_PIN: bv32 := 4

  /** The ring slot that count k lands in. */
  function Slot(k: int): int
  {
    k % RING
  }

  /** `counter & 0xFFFFF`: the ring slot of the counter, always inside the buffer. */
  function RingIndex(counter: u32): (i: nat)
    ensures i < RING
    ensures i == Slot(counter)
  {
    BitAndLowMask(counter, 20);
    Pow2Of20();
    BitAnd(counter, RING_MASK)
  }

  /**
   * The count that last wrote slot i after counts 1 .. c: the largest
   * k <= c that lands in slot i, or 0 when no count in 1 .. c does.
   */
  function LastWriter(c: nat, i: nat): (k: nat)
    requires i < RING
    ensures k <= c
    ensures k >= 1 ==> Slot(k) == i
    ensures forall j :: k < j <= c ==> Slot(j) != i
    decreases c
  {
    if c == 0 then 0
    else if Slot(c) == i then c
    else LastWriter(c - 1, i)
  }

  /** After counts 1 .. c, every slot holds its last writer, or its old value if none. */
  ghost predicate RingHolds(buffer: seq<u32>, old_buffer: seq<u32>, c: nat)
    requires |buffer| == RING && |old_buffer| == RING
  {
    forall i :: 0 <= i < RING ==>
      buffer[i] == if LastWriter(c, i) >= 1 then LastWriter(c, i) else old_buffer[i]
  }

  /** The newest count always survives in its own slot. */
  lemma NewestSurvives(c: nat)
    requires c >= 1
    ensures LastWriter(c, Slot(c)) == c
  {
  }

  /** Once at least RING counts are written, every slot holds one of the last RING counts. */
  lemma {:induction false} FullRing(c: nat, i: nat)
    requires i < RING && c >= RING
    ensures c - RING < LastWriter(c, i)
  {
    var k := c - RING + 1 + (i - Slot(c - RING + 1)) % RING;
    assert Slot(k) == i && c - RING < k <= c;
  }

  /** The wrapped difference between readings i and i + 1. */
  function Delta(s: seq<u32>, i: nat): u32
    requires i + 1 < |s|
  {
    WrapSub(s[i + 1], s[i])
  }

  /**
   * The largest wrapped difference between consecutive readings, 0 when
   * there are fewer than two: at least every difference, and equal to one
   * of them.
   */
  function MaxDelay(s: seq<u32>): (m: u32)
    ensures forall i: nat :: i + 1 < |s| ==> Delta(s, i) <= m
    ensures |s| >= 2 ==> exists i: nat :: i + 1 < |s| && Delta(s, i) == m
    ensures |s| < 2 ==> m == 0
    decreases |s|
  {
    if |s| < 2 then 0
    else
      var prefix := s[..|s| - 1];
      assert forall i: nat :: i + 1 < |prefix| ==> Delta(prefix, i) == Delta(s, i);
      var prev := MaxDelay(prefix);
      var d := Delta(s, |s| - 2);
      if d > prev then d else prev
  }

  /**
   * Two runs of readings: steady one-tick gaps with one gap of 500 ticks
   * report 500, and a one-tick gap across a rollover of the low word
   * counts as one tick.
   */
  lemma MaxDelayExamples()
    ensures MaxDelay([10, 11, 12, 512, 513]) == 500
    ensures MaxDelay([0xFFFF_FFFE, 0xFFFF_FFFF, 0, 1]) == 1
  {
  }

  /**
   * The loop, seeded with timer[0] and reading timer[1 .. n] once per
   * pulse. Afterwards the counter is n, the largest delay is MaxDelay(timer),
   * each ring slot holds its last writer (or its old contents), and the
   * only GPIO writes are the set and clear of the pulsed pin.
   */
  method PulseLoop(gpio: array<bv32>, buffer: array<u32>, n: u32, timer: seq<u32>)
    returns (counter: u32, maxDelay: u32)
    requires gpio.Length == WINDOW && buffer.Length == RING && |timer| == n + 1
    modifies gpio, buffer
    ensures counter == n
    ensures maxDelay == MaxDelay(timer)
    ensures RingHolds(buffer[..], old(buffer[..]), n)
    ensures n >= 1 ==> buffer[RingIndex(n)] == n
    ensures gpio[..] == if n == 0 then old(gpio[..])
                        else old(gpio[..])[SET_WORD := 1 << PULSE_PIN][CLR_WORD := 1 << PULSE_PIN]
  {
    counter, maxDelay := 0, 0;
    var delayTimerPrev := timer[0];
    while counter < n
      invariant counter <= n
      invariant delayTimerPrev == timer[counter]
      invariant maxDelay == MaxDelay(timer[..counter + 1])
      invariant RingHolds(buffer[..], old(buffer[..]), counter)
      invariant gpio[..] == if counter == 0 then old(gpio[..])
                            else old(gpio[..])[SET_WORD := 1 << PULSE_PIN][CLR_WORD := 1 << PULSE_PIN]
    {
      GpioSet(gpio, 1 << PULSE_PIN);
      GpioClr(gpio, 1 << PULSE_PIN);
      counter := counter + 1;
      buffer[RingIndex(counter)] := counter;
      var delayTimer := timer[counter];
      // No rollover correction: the difference simply wraps.
      var tmp := WrapSub(delayTimer, delayTimerPrev);
      assert timer[..counter + 1][..counter] == timer[..counter];
      if tmp > maxDelay {
        maxDelay := tmp;
      }
      delayTimerPrev := delayTimer;
    }
    assert timer[..counter + 1] == timer;
    if n >= 1 {
      NewestSurvives(n);
    }
  }
}
