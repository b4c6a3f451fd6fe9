/** EL3 exception priorities (bl31/ehf.c): a bitmap that stands for a stack of active priorities, coupled
    to the priority mask of the interrupt controller and two stashed masks. */
module EhfModel {
  import opened Bits

  const GIC_HIGHEST_NS_PRIORITY: nat := 0x80

  /** `exception_data`: the priority bits in use and the priority indices that have a descriptor. */
  datatype Levels = Levels(priBits: nat, valid: set<nat>)

  /** Indices fit the 32-bit bitmap. */
  predicate WellFormed(l: Levels) {
    1 <= l.priBits <= 7 && forall i :: i in l.valid ==> i < 32
  }

  /** EHF_PRI_TO_IDX: the top `priBits` of the lower seven bits. */
  function PriToIdx(l: Levels, pri: nat): nat
    requires WellFormed(l)
  {
    Shr(pri % 0x80, 7 - l.priBits)
  }

  /** IDX_TO_PRI */
  function IdxToPri(l: Levels, idx: nat): nat
    requires WellFormed(l)
  {
    Shl(idx, 7 - l.priBits) % 0x80
  }

  /** A secure priority of the platform that is the priority of its own index. */
  predicate Canonical(l: Levels, pri: nat)
    requires WellFormed(l)
  {
    pri < 0x80 && pri == IdxToPri(l, PriToIdx(l, pri))
  }

  predicate IsSecure(pri: nat) { pri % 0x100 < 0x80 }

  /** `pe_exc_data_t` and the priority mask register of the processing element. */
  datatype Pe = Pe(active: nat, init: nat, ns: nat, pmr: nat)

  /** Where a run can end. */
  datatype Reason =
    | RunningPriority   // a higher priority is running, lines 111 and 178
    | BadIndex          // the assertions of pri_to_idx, lines 59-60
    | Mismatch          // not above, or not equal to, the current activation, lines 124 and 191
    | MaskNotLower      // the mask is not above the priority to activate, line 140
    | MaskAbove         // the mask was above the priority to deactivate, line 211
    | StashHeld         // a mask is stashed already, the assertion at line 245
    | MaskSecure        // the mask to stash is a secure one, line 251
    | MaskForeign       // neither the stash nor the mask set on entry is in force, line 302
    | NothingStashed    // no mask to give back, the assertion at line 336
    | Activations       // preemption requested with priorities active, line 339

  datatype Result = Panic(reason: Reason) | Go(pe: Pe)

  // ----- Operations -----

  /** The current priority index, the right-most bit; none with an empty bitmap. */
  function HighestActive(pe: Pe): int {
    if pe.active == 0 then -1 else Ctz(pe.active)
  }

  /** ehf_activate_priority */
  function Activate(l: Levels, pe: Pe, running: nat, pri: nat): Result
    requires WellFormed(l)
  {
    var cur, idx := HighestActive(pe), PriToIdx(l, pri);
    if pri >= running then Panic(RunningPriority)
    else if idx !in l.valid then Panic(BadIndex)
    else if cur != -1 && idx >= cur then Panic(Mismatch)
    else if pri >= pe.pmr then Panic(MaskNotLower)
    else Go(Pe(Or(pe.active, Pow2(idx)), if cur == -1 then pe.pmr % 0x100 else pe.init, pe.ns, pri))
  }

  /** ehf_deactivate_priority.  With priorities left, the mask is set to the priority just deactivated. */
  function Deactivate(l: Levels, pe: Pe, running: nat, pri: nat): Result
    requires WellFormed(l)
  {
    var idx := PriToIdx(l, pri);
    if pri >= running then Panic(RunningPriority)
    else if idx !in l.valid then Panic(BadIndex)
    else if HighestActive(pe) != idx then Panic(Mismatch)
    else if pe.pmr > pri then Panic(MaskAbove)
    else
      var active := And(pe.active, pe.active - 1);
      Go(Pe(active, pe.init, pe.ns, if active == 0 then pe.init else pri))
  }

  /** ehf_exited_normal_world */
  function ExitedNormalWorld(pe: Pe, running: nat): Result {
    if IsSecure(running) || pe.active != 0 then Go(pe)
    else if pe.ns != 0 then Panic(StashHeld)
    else if IsSecure(pe.pmr) then Panic(MaskSecure)
    else Go(pe.(ns := pe.pmr % 0x100, pmr := GIC_HIGHEST_NS_PRIORITY))
  }

  /** ehf_entering_normal_world */
  function EnteringNormalWorld(pe: Pe, running: nat): Result {
    if IsSecure(running) || pe.active != 0 || pe.ns == 0 then Go(pe)
    else if pe.pmr != GIC_HIGHEST_NS_PRIORITY && pe.pmr != pe.ns then Panic(MaskForeign)
    else Go(pe.(ns := 0, pmr := pe.ns))
  }

  /** ehf_allow_ns_preemption */
  function AllowNsPreemption(pe: Pe): Result {
    if pe.ns == 0 then Panic(NothingStashed)
    else if pe.active != 0 then Panic(Activations)
    else Go(pe.(ns := 0, pmr := pe.ns))
  }

  /** ehf_is_ns_preemption_allowed */
  predicate IsNsPreemptionAllowed(pe: Pe, running: nat) {
    !IsSecure(running) && pe.active == 0 && pe.ns == 0
  }

  // ----- The bitmap is a stack -----

  /** The set bits, the highest first; indices count from `k`. */
  function StackFrom(x: nat, k: nat): seq<nat>
    decreases x
  {
    if x == 0 then [] else StackFrom(x / 2, k + 1) + (if x % 2 == 1 then [k] else [])
  }

  /** The active indices in the order of their activation. */
  function Stack(pe: Pe): seq<nat> { StackFrom(pe.active, 0) }

  ghost predicate Decreasing(s: seq<nat>) {
    forall i, j :: 0 <= i < j < |s| ==> s[i] > s[j]
  }

  lemma {:induction false} StackFromShape(x: nat, k: nat)
    ensures forall i :: 0 <= i < |StackFrom(x, k)| ==> StackFrom(x, k)[i] >= k
    ensures Decreasing(StackFrom(x, k))
    ensures StackFrom(x, k) == [] <==> x == 0
    ensures x != 0 ==> StackFrom(x, k)[|StackFrom(x, k)| - 1] == k + Ctz(x)
    decreases x
  {
    if x != 0 { StackFromShape(x / 2, k + 1); }
  }

  /** The members of the stack are the set bits. */
  lemma {:induction false} StackFromMembers(x: nat, k: nat, i: nat)
    ensures k + i in StackFrom(x, k) <==> Bit(x, i)
    decreases x
  {
    StackFromShape(x / 2, k + 1);
    if x == 0 {
      ZeroHasNoBits(i);
    } else if i == 0 {
      assert k !in StackFrom(x / 2, k + 1);
    } else {
      StackFromMembers(x / 2, k + 1, i - 1);
    }
  }

  /** Setting a bit below all others pushes its index. */
  lemma {:induction false} SetBitPushes(x: nat, i: nat, k: nat)
    requires x == 0 || i < Ctz(x)
    ensures StackFrom(Or(x, Pow2(i)), k) == StackFrom(x, k) + [k + i]
    decreases i
  {
    if i == 0 {
      assert Or(x, 1) == x + 1 by { if x != 0 { assert Or(x / 2, 0) == x / 2; } }
      assert (x + 1) / 2 == x / 2;
    } else {
      SetBitPushes(x / 2, i - 1, k + 1);
      assert Pow2(i) / 2 == Pow2(i - 1) && Pow2(i) % 2 == 0;
      if x == 0 { assert Or(0, Pow2(i - 1)) == Pow2(i - 1); }
    }
  }

  /** Clearing the right-most bit pops it. */
  lemma {:induction false} ClearBitPops(x: nat, k: nat)
    requires x != 0
    ensures StackFrom(And(x, x - 1), k) + [k + Ctz(x)] == StackFrom(x, k)
    decreases x
  {
    if x % 2 == 1 {
      assert (x - 1) / 2 == x / 2;
      AndSelfPositive(x / 2);
      assert And(x, x - 1) == x - 1;
      assert StackFrom(x - 1, k) == StackFrom(x / 2, k + 1);
    } else {
      assert (x - 1) / 2 == x / 2 - 1;
      assert And(x, x - 1) == 2 * And(x / 2, x / 2 - 1);
      ClearBitPops(x / 2, k + 1);
      var y := And(x / 2, x / 2 - 1);
      assert StackFrom(2 * y, k) == StackFrom(y, k + 1);
    }
  }

  /** Activation pushes and deactivation pops: what a run does to the bitmap is what it does to a stack. */
  lemma ActivatePushes(l: Levels, pe: Pe, running: nat, pri: nat)
    requires WellFormed(l) && Activate(l, pe, running, pri).Go?
    ensures Stack(Activate(l, pe, running, pri).pe) == Stack(pe) + [PriToIdx(l, pri)]
    ensures Decreasing(Stack(pe) + [PriToIdx(l, pri)])
  {
    SetBitPushes(pe.active, PriToIdx(l, pri), 0);
    StackFromShape(Or(pe.active, Pow2(PriToIdx(l, pri))), 0);
  }

  lemma DeactivatePops(l: Levels, pe: Pe, running: nat, pri: nat)
    requires WellFormed(l) && Deactivate(l, pe, running, pri).Go?
    ensures Stack(pe) == Stack(Deactivate(l, pe, running, pri).pe) + [PriToIdx(l, pri)]
  {
    ClearBitPops(pe.active, 0);
  }

  /** Clearing the right-most bit undoes setting a bit below all others. */
  lemma {:induction false} ClearUndoesSet(x: nat, i: nat)
    requires x == 0 || i < Ctz(x)
    ensures var y := Or(x, Pow2(i));
            y != 0 && Ctz(y) == i && And(y, y - 1) == x
    decreases i
  {
    if i == 0 {
      ClearUndoesSetLowest(x);
    } else {
      var z := Or(x / 2, Pow2(i - 1));
      ClearUndoesSet(x / 2, i - 1);
      assert Pow2(i) == 2 * Pow2(i - 1) && x == 2 * (x / 2) && Or(x, Pow2(i)) == 2 * z;
      ClearDouble(z);
    }
  }

  lemma ClearUndoesSetLowest(x: nat)
    requires x % 2 == 0
    ensures Or(x, 1) == x + 1 && Ctz(x + 1) == 0 && And(x + 1, x) == x
  {
    AndSelfPositive(x / 2);
    assert (x + 1) / 2 == x / 2;
  }

  lemma ClearDouble(z: nat)
    requires z != 0
    ensures Ctz(2 * z) == 1 + Ctz(z) && And(2 * z, 2 * z - 1) == 2 * And(z, z - 1)
  {
    assert (2 * z - 1) / 2 == z - 1 && (2 * z) / 2 == z;
  }

  /** A deactivation that follows the matching activation gives the bitmap back, and the mask as well if that
      was the only activation. */
  lemma DeactivateUndoesActivate(l: Levels, pe: Pe, running: nat, pri: nat)
    requires WellFormed(l) && Activate(l, pe, running, pri).Go?
    ensures var r := Deactivate(l, Activate(l, pe, running, pri).pe, running, pri);
            && r.Go? && r.pe.active == pe.active && r.pe.ns == pe.ns
            && r.pe.pmr == if pe.active == 0 then pe.pmr % 0x100 else pri
  {
    ClearUndoesSet(pe.active, PriToIdx(l, pri));
  }
}
