/** The exception handling framework in the form of the source: per-CPU fields and a mask register that
    each call updates in place. */
module EhfCpu {
  import opened Bits
  import opened EhfModel

  /** The CPU interface of the interrupt controller. */
  class Gic {
    var pmr: nat
    var running: nat

    constructor (pmr: nat, running: nat)
      ensures this.pmr == pmr && this.running == running
    {
      this.pmr, this.running := pmr, running;
    }

    /** plat_ic_set_priority_mask: program the mask and return the previous one. */
    method SetPriorityMask(mask: nat) returns (previous: nat)
      modifies this`pmr
      ensures previous == old(pmr) && pmr == mask
    {
      previous := pmr;
      pmr := mask;
    }
  }

  /** How a call ended: it returned, or the machine stopped. */
  datatype Ending = Returned | Halted(reason: Reason)

  ghost predicate Matches(r: Result, e: Ending, after: Pe) {
    match r
    case Panic(reason) => e == Halted(reason)
    case Go(pe) => e == Returned && after == pe
  }

  class ExceptionData {
    const levels: Levels
    const gic: Gic
    var activePriBits: nat
    var initPriMask: nat
    var nsPriMask: nat

    constructor (levels: Levels, gic: Gic)
      ensures this.levels == levels && this.gic == gic
      ensures View() == Pe(0, 0, 0, gic.pmr)
    {
      this.levels, this.gic := levels, gic;
      activePriBits, initPriMask, nsPriMask := 0, 0, 0;
    }

    ghost function View(): Pe
      reads this, gic
    {
      Pe(activePriBits, initPriMask, nsPriMask, gic.pmr)
    }

    method HighestActiveIdx() returns (idx: int)
      ensures idx == HighestActive(View())
    {
      if activePriBits == 0 { return -1; }
      return Ctz(activePriBits);
    }

    /** ehf_activate_priority */
    method ActivatePriority(priority: nat) returns (e: Ending)
      requires WellFormed(levels)
      modifies this, gic`pmr
      ensures Matches(Activate(levels, old(View()), old(gic.running), priority), e, View())
    {
      if priority >= gic.running { return Halted(RunningPriority); }
      var cur := HighestActiveIdx();
      var idx := PriToIdx(levels, priority);
      if idx !in levels.valid { return Halted(BadIndex); }
      if cur != -1 && idx >= cur { return Halted(Mismatch); }
      activePriBits := Or(activePriBits, Pow2(idx));
      var oldMask := gic.SetPriorityMask(priority);
      if priority >= oldMask { return Halted(MaskNotLower); }
      if cur == -1 { initPriMask := oldMask % 0x100; }
      return Returned;
    }

    /** ehf_deactivate_priority */
    method DeactivatePriority(priority: nat) returns (e: Ending)
      requires WellFormed(levels)
      modifies this, gic`pmr
      ensures Matches(Deactivate(levels, old(View()), old(gic.running), priority), e, View())
    {
      if priority >= gic.running { return Halted(RunningPriority); }
      var cur := HighestActiveIdx();
      var idx := PriToIdx(levels, priority);
      if idx !in levels.valid { return Halted(BadIndex); }
      if cur == -1 || idx != cur { return Halted(Mismatch); }
      activePriBits := And(activePriBits, activePriBits - 1);
      cur := HighestActiveIdx();
      var oldMask;
      if cur == -1 {
        oldMask := gic.SetPriorityMask(initPriMask);
      } else {
        oldMask := gic.SetPriorityMask(priority);
      }
      if oldMask > priority { return Halted(MaskAbove); }
      return Returned;
    }

    /** ehf_exited_normal_world */
    method ExitedNormal() returns (e: Ending)
      modifies this, gic`pmr
      ensures Matches(ExitedNormalWorld(old(View()), old(gic.running)), e, View())
    {
      if IsSecure(gic.running) { return Returned; }
      if activePriBits != 0 { return Returned; }
      if nsPriMask != 0 { return Halted(StashHeld); }
      var oldMask := gic.SetPriorityMask(GIC_HIGHEST_NS_PRIORITY);
      nsPriMask := oldMask % 0x100;
      if IsSecure(nsPriMask) { return Halted(MaskSecure); }
      return Returned;
    }

    /** ehf_entering_normal_world */
    method EnteringNormal() returns (e: Ending)
      modifies this, gic`pmr
      ensures Matches(EnteringNormalWorld(old(View()), old(gic.running)), e, View())
    {
      if IsSecure(gic.running) { return Returned; }
      if activePriBits != 0 { return Returned; }
      if nsPriMask == 0 { return Returned; }
      var oldPmr := gic.SetPriorityMask(nsPriMask);
      if oldPmr != GIC_HIGHEST_NS_PRIORITY && oldPmr != nsPriMask { return Halted(MaskForeign); }
      nsPriMask := 0;
      return Returned;
    }

    /** ehf_allow_ns_preemption */
    method AllowPreemption() returns (e: Ending)
      modifies this, gic`pmr
      ensures Matches(AllowNsPreemption(old(View())), e, View())
    {
      if nsPriMask == 0 { return Halted(NothingStashed); }
      if activePriBits != 0 { return Halted(Activations); }
      var _ := gic.SetPriorityMask(nsPriMask);
      nsPriMask := 0;
      return Returned;
    }
  }
}
