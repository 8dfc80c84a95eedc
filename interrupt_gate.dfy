/**
 * The interrupt gate `interrupts(flag)` of gpio.c: a two-state switch over
 * the interrupt controller's register window. Its only state is three
 * saved words; the gate counts as disabled exactly when the first of them
 * is nonzero. `interrupts(0)` disables, any other flag re-enables; the
 * result is 1 on success and 0 on refusal.
 *
 * Register words of the window used here: 128-130 hold the pending
 * interrupts, 132-134 the enabled ones, and writing 135-137 disables the
 * interrupts whose bits are written.
 */
module InterruptGate {
  import opened Registers


  /** The three words the gate keeps between calls (`sav132`, `sav133`, `sav134`). */
  datatype Saved = Saved(s132: bv32, s133: bv32, s134: bv32)

  /** The state before the first call: all three statics start at 0. */
  const INITIAL: Saved := Saved(0, 0, 0)

  /** The gate's only notion of "interrupts are disabled". */
  predicate IsDisabled(s: Saved)
  {
    s.s132 != 0
  }

  /** Some interrupt is pending: the OR of words 128, 129 and 130 is nonzero. */
  predicate Pending(regs: seq<bv32>): (p: bool)
    requires |regs| == WINDOW
    ensures p <==> regs[128] != 0 || regs[129] != 0 || regs[130] != 0
  {
    regs[128] | regs[129] | regs[130] != 0
  }

  /** What one call returns, and the saved words and register window after it. */
  datatype Outcome = Outcome(ret: int, saved: Saved, regs: seq<bv32>)

  /** Whether a call with this flag, from this state, succeeds. */
  predicate Succeeds(flag: int, s: Saved, regs: seq<bv32>)
    requires |regs| == WINDOW
  {
    if flag == 0 then !IsDisabled(s) && !Pending(regs) else IsDisabled(s)
  }

  /**
   * One call of `interrupts(flag)`. A refusal changes nothing; a call
   * returns 1 exactly when it succeeds; and whatever happens, no register
   * outside words 132-137 is written.
   */
  function Step(flag: int, s: Saved, regs: seq<bv32>): (o: Outcome)
    requires |regs| == WINDOW
    ensures |o.regs| == WINDOW
    ensures o.ret == 0 || o.ret == 1
    ensures o.ret == 1 <==> Succeeds(flag, s, regs)
    ensures o.ret == 0 ==> o.saved == s && o.regs == regs
    ensures forall i :: 0 <= i < WINDOW && !(132 <= i <= 137) ==> o.regs[i] == regs[i]
  {
    if flag == 0 then
      if IsDisabled(s) then Outcome(0, s, regs)
      else if Pending(regs) then Outcome(0, s, regs)
      else
        var saved := Saved(regs[132], regs[133], regs[134]);
        Outcome(1, saved, regs[137 := saved.s134][135 := saved.s132][136 := saved.s133])
    else
      if !IsDisabled(s) then Outcome(0, s, regs)
      else Outcome(1, s.(s132 := 0), regs[132 := s.s132][133 := s.s133][134 := s.s134])
  }

  /** A disable while already disabled refuses without looking at the pending words. */
  lemma DisableWhenDisabled(s: Saved, regs: seq<bv32>)
    requires |regs| == WINDOW && IsDisabled(s)
    ensures Step(0, s, regs) == Outcome(0, s, regs)
  {
  }

  /** A disable while an interrupt is pending refuses and changes nothing. */
  lemma DisableWhilePending(s: Saved, regs: seq<bv32>)
    requires |regs| == WINDOW && !IsDisabled(s) && Pending(regs)
    ensures Step(0, s, regs) == Outcome(0, s, regs)
  {
  }

  /**
   * A successful disable saves words 132, 133 and 134, writes them to
   * words 135, 136 and 137, changes no other word and returns 1.
   */
  lemma DisableSucceeds(s: Saved, regs: seq<bv32>)
    requires |regs| == WINDOW && !IsDisabled(s) && !Pending(regs)
    ensures Step(0, s, regs).ret == 1
    ensures Step(0, s, regs).saved == Saved(regs[132], regs[133], regs[134])
    ensures Step(0, s, regs).regs == regs[135 := regs[132]][136 := regs[133]][137 := regs[134]]
  {
  }

  /**
   * After a disable that saved a nonzero word 132, a second disable
   * refuses and keeps the saved words, whatever the window holds by then.
   */
  lemma SecondDisableRefuses(s: Saved, regs: seq<bv32>, later: seq<bv32>)
    requires |regs| == WINDOW && |later| == WINDOW
    requires !IsDisabled(s) && !Pending(regs) && regs[132] != 0
    ensures var d := Step(0, s, regs);
            Step(0, d.saved, later) == Outcome(0, d.saved, later)
  {
  }

  /** An enable while not disabled refuses and writes no register. */
  lemma EnableWhenEnabled(flag: int, s: Saved, regs: seq<bv32>)
    requires |regs| == WINDOW && flag != 0 && !IsDisabled(s)
    ensures Step(flag, s, regs) == Outcome(0, s, regs)
  {
  }

  /** An enable while disabled writes the saved words back to 132-134 and marks the gate enabled. */
  lemma EnableRestores(flag: int, s: Saved, regs: seq<bv32>)
    requires |regs| == WINDOW && flag != 0 && IsDisabled(s)
    ensures Step(flag, s, regs).ret == 1
    ensures Step(flag, s, regs).regs == regs[132 := s.s132][133 := s.s133][134 := s.s134]
    ensures !IsDisabled(Step(flag, s, regs).saved)
  {
  }

  /**
   * Disable then enable, whatever the window holds in between: when the
   * disable saved a nonzero word 132, the enable succeeds, puts back exactly
   * the words 132-134 the disable saw and touches no other word, and an
   * immediate second enable refuses.
   */
  lemma DisableEnableRoundTrip(s: Saved, regs: seq<bv32>, between: seq<bv32>, flag: int)
    requires |regs| == WINDOW && |between| == WINDOW && flag != 0
    requires !IsDisabled(s) && !Pending(regs) && regs[132] != 0
    ensures var d := Step(0, s, regs);
            var e := Step(flag, d.saved, between);
            && e.ret == 1
            && e.regs == between[132 := regs[132]][133 := regs[133]][134 := regs[134]]
            && Step(flag, e.saved, e.regs) == Outcome(0, e.saved, e.regs)
  {
  }

  /**
   * A disable that reads 0 from word 132 reports success, yet the gate
   * still counts as enabled: the next enable refuses and does not write
   * words 133 and 134 back.
   */
  lemma DisableOfZeroLooksEnabled(s: Saved, regs: seq<bv32>, between: seq<bv32>, flag: int)
    requires |regs| == WINDOW && |between| == WINDOW && flag != 0
    requires !IsDisabled(s) && !Pending(regs) && regs[132] == 0
    ensures var d := Step(0, s, regs);
            && d.ret == 1
            && d.regs[136] == regs[133] && d.regs[137] == regs[134]
            && !IsDisabled(d.saved)
            && Step(flag, d.saved, between) == Outcome(0, d.saved, between)
  {
  }

  /** The gate's saved words and the interrupt controller's register window. */
  class Gate {
    const intrupt: array<bv32>
    var sav132: bv32
    var sav133: bv32
    var sav134: bv32

    predicate Valid()
    {
      intrupt.Length == WINDOW
    }

    function State(): Saved
      reads this
    {
      Saved(sav132, sav133, sav134)
    }

    constructor (intrupt: array<bv32>)
      requires intrupt.Length == WINDOW
      ensures Valid() && this.intrupt == intrupt && State() == INITIAL
    {
      this.intrupt := intrupt;
      sav132, sav133, sav134 := 0, 0, 0;
    }

    /** `interrupts(flag)`: the register reads and writes in the source's order. */
    method Interrupts(flag: int) returns (ret: int)
      requires Valid()
      modifies this, intrupt
      ensures Outcome(ret, State(), intrupt[..]) == Step(flag, old(State()), old(intrupt[..]))
    {
      if flag == 0 {
        if sav132 != 0 {
          return 0;
        }
        if intrupt[128] | intrupt[129] | intrupt[130] != 0 {
          return 0;
        }
        sav134 := intrupt[134];
        intrupt[137] := sav134;
        sav132 := intrupt[132];
        intrupt[135] := sav132;
        sav133 := intrupt[133];
        intrupt[136] := sav133;
      } else {
        if sav132 == 0 {
          return 0;
        }
        intrupt[132] := sav132;
        intrupt[133] := sav133;
        intrupt[134] := sav134;
        sav132 := 0;
      }
      return 1;
    }
  }
}
