/** Runs of one processing element through normal world and EL3: what the priority mask is, and which
    panics cannot happen. */
module EhfRuns {
  import opened Bits
  import opened EhfModel
  import Runs

  datatype World = Normal | El3

  datatype Event =
    | Exit                     // leave the normal world for EL3
    | Enter                    // return to the normal world
    | Push(pri: nat)           // ehf_activate_priority
    | Pop(pri: nat)            // ehf_deactivate_priority
    | Allow                    // ehf_allow_ns_preemption
    | SetRunning(pri: nat)     // an interrupt is acknowledged or completed at EL3
    | WriteMask(mask: nat)     // the normal world writes its priority mask

  datatype Cpu = Cpu(pe: Pe, world: World, running: nat)

  /** Priorities are the platform's own, the running priority changes at EL3 only, and the normal world can
      only ask for non-secure masks. */
  ghost predicate Enabled(l: Levels, c: Cpu, e: Event)
    requires WellFormed(l)
  {
    match e
    case Exit => c.world == Normal
    case Enter => c.world == El3
    case Push(pri) => c.world == El3 && Canonical(l, pri)
    case Pop(pri) => c.world == El3 && Canonical(l, pri)
    case Allow => c.world == El3
    case SetRunning(pri) => c.world == El3 && pri < 0x100
    case WriteMask(mask) => c.world == Normal && 0x80 <= mask < 0x100
  }

  /** The interrupt controller ignores a non-secure write while the mask is in the secure range. */
  function NonSecureWrite(pe: Pe, mask: nat): Pe {
    if IsSecure(pe.pmr) then pe else pe.(pmr := mask)
  }

  function Serve(l: Levels, c: Cpu, e: Event): Result
    requires WellFormed(l)
  {
    match e
    case Exit => ExitedNormalWorld(c.pe, c.running)
    case Enter => EnteringNormalWorld(c.pe, c.running)
    case Push(pri) => Activate(l, c.pe, c.running, pri)
    case Pop(pri) => Deactivate(l, c.pe, c.running, pri)
    case Allow => AllowNsPreemption(c.pe)
    case SetRunning(_) => Go(c.pe)
    case WriteMask(mask) => Go(NonSecureWrite(c.pe, mask))
  }

  function After(l: Levels, c: Cpu, e: Event): Cpu
    requires WellFormed(l) && Serve(l, c, e).Go?
  {
    Cpu(Serve(l, c, e).pe,
        if e.Exit? then El3 else if e.Enter? then Normal else c.world,
        if e.SetRunning? then e.pri else c.running)
  }

  /** Neither an interrupt nor an activation is in the way. */
  predicate Unmasked(c: Cpu) { !IsSecure(c.running) && c.pe.active == 0 }

  /** The mask the normal world had when it last ran unmasked; history only. */
  function Noted(c: Cpu, mask: nat, e: Event): nat {
    if e.WriteMask? && !IsSecure(c.pe.pmr) then e.mask else mask
  }

  // ----- The invariant -----

  /** The mask in force beneath all activations. */
  function Under(pe: Pe): nat { if pe.active == 0 then pe.pmr else pe.init }

  ghost predicate Levelled(l: Levels, active: nat)
    requires WellFormed(l)
  {
    active < Pow2(32) && forall i :: Bit(active, i) ==> i < 32 && Shl(i, 7 - l.priBits) < 0x80
  }

  /** The part that needs nothing of the normal world: with priorities active the mask is a secure one and at most
      the priority on top; masks have eight bits. */
  ghost predicate Capped(l: Levels, c: Cpu)
    requires WellFormed(l)
  {
    && Levelled(l, c.pe.active)
    && (c.pe.active != 0 ==> c.pe.pmr <= IdxToPri(l, Ctz(c.pe.active)) && c.pe.pmr < 0x80 && c.pe.init < 0x100)
    && c.pe.pmr < 0x100 && c.pe.ns < 0x100
  }

  ghost predicate Inv(l: Levels, c: Cpu, mask: nat)
    requires WellFormed(l)
  {
    && 0x80 <= mask < 0x100 && Capped(l, c)
    && (if c.pe.ns == 0 then Under(c.pe) == mask
        else c.pe.ns == mask && (Under(c.pe) == GIC_HIGHEST_NS_PRIORITY || Under(c.pe) == mask))
    && (c.world == Normal && c.pe.ns != 0 ==> !Unmasked(c))
  }

  /** While EL3 holds the mask of the normal world stashed and a write gets through to the interrupt controller, the
      normal world writes nothing but the stashed value. */
  ghost predicate HandsOff(c: Cpu, e: Event) {
    e.WriteMask? && c.pe.ns != 0 && !IsSecure(c.pe.pmr) ==> e.mask == c.pe.ns
  }

  // ----- One step -----

  /** Priorities of indices are ordered like the indices. */
  lemma PriorityOrder(l: Levels, i: nat, j: nat)
    requires WellFormed(l) && i < j && Shl(j, 7 - l.priBits) < 0x80
    ensures IdxToPri(l, i) < IdxToPri(l, j) < 0x80
  {
    ShlMonotone(i, j, 7 - l.priBits);
  }

  lemma CanonicalShift(l: Levels, pri: nat)
    requires WellFormed(l) && Canonical(l, pri)
    ensures Shl(PriToIdx(l, pri), 7 - l.priBits) == pri
  {
    DivSmall(pri, 0x80);
    ShiftBack(pri, 7 - l.priBits);
    DivSmall(Shl(Shr(pri, 7 - l.priBits), 7 - l.priBits), 0x80);
  }

  lemma PushLevelled(l: Levels, pe: Pe, running: nat, pri: nat)
    requires WellFormed(l) && Canonical(l, pri) && Levelled(l, pe.active) && Activate(l, pe, running, pri).Go?
    ensures var active := Activate(l, pe, running, pri).pe.active;
            active != 0 && Levelled(l, active) && Ctz(active) == PriToIdx(l, pri)
  {
    var idx := PriToIdx(l, pri);
    var active := Or(pe.active, Pow2(idx));
    CanonicalShift(l, pri);
    Pow2Monotone(idx, 32);
    OrBound(pe.active, Pow2(idx), 32);
    forall i | Bit(active, i)
      ensures i < 32 && Shl(i, 7 - l.priBits) < 0x80
    {
      OrBit(pe.active, Pow2(idx), i);
      Pow2Bit(idx, i);
    }
    SetBitPushes(pe.active, idx, 0);
    StackFromShape(active, 0);
  }

  lemma PopLevelled(l: Levels, pe: Pe)
    requires WellFormed(l) && pe.active != 0 && Levelled(l, pe.active)
    ensures var active := And(pe.active, pe.active - 1);
            && Levelled(l, active)
            && (active != 0 ==> Ctz(pe.active) < Ctz(active) && Shl(Ctz(active), 7 - l.priBits) < 0x80)
  {
    var active := And(pe.active, pe.active - 1);
    ClearedIsSubset(pe.active);
    FewerLevelled(l, pe.active, active);
    if active != 0 { NextIsHigher(pe.active); }
  }

  lemma FewerLevelled(l: Levels, x: nat, y: nat)
    requires WellFormed(l) && Levelled(l, x) && y <= x && forall i :: Bit(y, i) ==> Bit(x, i)
    ensures Levelled(l, y)
  {
  }

  lemma ClearedIsSubset(x: nat)
    requires x != 0
    ensures And(x, x - 1) <= x && forall i :: Bit(And(x, x - 1), i) ==> Bit(x, i)
  {
    AndAtMost(x, x - 1);
    forall i: nat
      ensures Bit(And(x, x - 1), i) ==> Bit(x, i)
    {
      ClearLowest(x, i);
    }
  }

  /** The right-most bit but one lies above the right-most. */
  lemma NextIsHigher(x: nat)
    requires x != 0 && And(x, x - 1) != 0
    ensures var y := And(x, x - 1);
            Bit(y, Ctz(y)) && Ctz(x) < Ctz(y)
  {
    var y := And(x, x - 1);
    CtzIsLeast(y, 0);
    ClearLowest(x, Ctz(y));
    CtzIsLeast(x, Ctz(y));
  }

  /** The priority on top lies above the one beneath. */
  lemma PopOrder(l: Levels, pe: Pe, pri: nat)
    requires WellFormed(l) && Canonical(l, pri) && Levelled(l, pe.active)
    requires pe.active != 0 && Ctz(pe.active) == PriToIdx(l, pri)
    ensures var active := And(pe.active, pe.active - 1);
            Levelled(l, active) && (active != 0 ==> pri < IdxToPri(l, Ctz(active)) < 0x80)
  {
    PopLevelled(l, pe);
    var active := And(pe.active, pe.active - 1);
    if active != 0 { PriorityOrder(l, PriToIdx(l, pri), Ctz(active)); }
  }

  /** Activation and deactivation: the mask never exceeds the top active priority, so the check at line 211
      cannot fail. */
  lemma PushCapped(l: Levels, c: Cpu, pri: nat)
    requires WellFormed(l) && Capped(l, c) && Enabled(l, c, Push(pri)) && Serve(l, c, Push(pri)).Go?
    ensures Capped(l, After(l, c, Push(pri)))
  {
    PushLevelled(l, c.pe, c.running, pri);
    var pe := Activate(l, c.pe, c.running, pri).pe;
    assert pe.pmr == pri == IdxToPri(l, Ctz(pe.active));
  }

  lemma PopCapped(l: Levels, c: Cpu, pri: nat)
    requires WellFormed(l) && Capped(l, c) && Enabled(l, c, Pop(pri))
    ensures Serve(l, c, Pop(pri)) != Panic(MaskAbove)
    ensures Serve(l, c, Pop(pri)).Go? ==> Capped(l, After(l, c, Pop(pri)))
  {
    if c.pe.active != 0 && HighestActive(c.pe) == PriToIdx(l, pri) { PopOrder(l, c.pe, pri); }
  }

  /** Every event keeps the cap, whatever the normal world does. */
  lemma StepCapped(l: Levels, c: Cpu, e: Event)
    requires WellFormed(l) && Capped(l, c) && Enabled(l, c, e)
    ensures Serve(l, c, e) != Panic(MaskAbove)
    ensures Serve(l, c, e).Go? ==> Capped(l, After(l, c, e))
  {
    match e
    case Push(pri) => if Serve(l, c, e).Go? { PushCapped(l, c, pri); }
    case Pop(pri) => PopCapped(l, c, pri);
    case _ =>
  }

  /** They do not touch the mask beneath. */
  lemma PushKeeps(l: Levels, c: Cpu, mask: nat, pri: nat)
    requires WellFormed(l) && Inv(l, c, mask) && Enabled(l, c, Push(pri)) && Serve(l, c, Push(pri)).Go?
    ensures Inv(l, After(l, c, Push(pri)), mask)
  {
    PushCapped(l, c, pri);
    var pe := Activate(l, c.pe, c.running, pri).pe;
    OrNonZero(c.pe.active, Pow2(PriToIdx(l, pri)));
    assert Under(pe) == Under(c.pe) && pe.ns == c.pe.ns;
  }

  lemma PopKeeps(l: Levels, c: Cpu, mask: nat, pri: nat)
    requires WellFormed(l) && Inv(l, c, mask) && Enabled(l, c, Pop(pri)) && Serve(l, c, Pop(pri)).Go?
    ensures Inv(l, After(l, c, Pop(pri)), mask)
  {
    PopCapped(l, c, pri);
    var pe := Deactivate(l, c.pe, c.running, pri).pe;
    assert Under(pe) == Under(c.pe) && pe.ns == c.pe.ns;
  }

  lemma CrossingKeeps(l: Levels, c: Cpu, mask: nat, e: Event)
    requires WellFormed(l) && Inv(l, c, mask) && Enabled(l, c, e) && (e.Exit? || e.Enter?)
    ensures Serve(l, c, e).Go? && Inv(l, After(l, c, e), mask)
  {
    StepCapped(l, c, e);
  }

  lemma MaskKeeps(l: Levels, c: Cpu, mask: nat, e: Event)
    requires WellFormed(l) && Inv(l, c, mask) && Enabled(l, c, e) && HandsOff(c, e)
    requires (e.Allow? || e.SetRunning? || e.WriteMask?) && Serve(l, c, e).Go?
    ensures Inv(l, After(l, c, e), Noted(c, mask, e))
  {
    StepCapped(l, c, e);
  }

  /** Every event keeps the invariant, and four of the ways to end a run are closed: the panics at lines 211,
      251 and 302 and the assertion at line 245. */
  lemma StepKeeps(l: Levels, c: Cpu, mask: nat, e: Event)
    requires WellFormed(l) && Inv(l, c, mask) && Enabled(l, c, e) && HandsOff(c, e)
    ensures Serve(l, c, e).Panic? ==> Serve(l, c, e).reason !in {MaskAbove, StashHeld, MaskSecure, MaskForeign}
    ensures Serve(l, c, e).Go? ==> Inv(l, After(l, c, e), Noted(c, mask, e))
  {
    match e
    case Push(pri) => if Serve(l, c, e).Go? { PushKeeps(l, c, mask, pri); }
    case Pop(pri) =>
      PopCapped(l, c, pri);
      if Serve(l, c, e).Go? { PopKeeps(l, c, mask, pri); }
    case Exit => CrossingKeeps(l, c, mask, e);
    case Enter => CrossingKeeps(l, c, mask, e);
    case _ => if Serve(l, c, e).Go? { MaskKeeps(l, c, mask, e); }
  }

  /** The first activation passes the mask check whenever the others pass. */
  lemma FirstActivation(l: Levels, c: Cpu, mask: nat, pri: nat)
    requires WellFormed(l) && Inv(l, c, mask) && Canonical(l, pri) && c.pe.active == 0
    ensures Activate(l, c.pe, c.running, pri).Go? <==> pri < c.running && PriToIdx(l, pri) in l.valid
  {
  }

  /** ehf_is_ns_preemption_allowed says yes only with the mask of the normal world in force. */
  lemma PreemptionMask(l: Levels, c: Cpu, mask: nat)
    requires WellFormed(l) && Inv(l, c, mask) && IsNsPreemptionAllowed(c.pe, c.running)
    ensures c.pe.pmr == mask
  {
  }

  // ----- The mask after a deactivation -----

  /** The comment in the source promises the mask of the next priority.  With priorities left, the mask is
      instead the one of the priority just deactivated, which is strictly lower. */
  lemma MaskAfterDeactivation(l: Levels, c: Cpu, pri: nat)
    requires WellFormed(l) && Capped(l, c) && Enabled(l, c, Pop(pri)) && Serve(l, c, Pop(pri)).Go?
    ensures var pe := After(l, c, Pop(pri)).pe;
            if pe.active == 0 then pe.pmr == c.pe.init else pe.pmr == pri < IdxToPri(l, Ctz(pe.active))
  {
    PopOrder(l, c.pe, pri);
  }

  /** In consequence a priority above the current one can be activated next exactly if it is also above the
      one just deactivated; in particular a nested priority cannot be activated a second time. */
  lemma NextActivation(l: Levels, c: Cpu, pri: nat, next: nat)
    requires WellFormed(l) && Capped(l, c) && Enabled(l, c, Pop(pri)) && Serve(l, c, Pop(pri)).Go?
    requires After(l, c, Pop(pri)).pe.active != 0
    requires Canonical(l, next) && next < c.running && PriToIdx(l, next) in l.valid
    requires PriToIdx(l, next) < Ctz(After(l, c, Pop(pri)).pe.active)
    ensures var r := Activate(l, After(l, c, Pop(pri)).pe, c.running, next);
            if next < pri then r.Go? else r == Panic(MaskNotLower)
  {
  }

  // ----- Whole runs -----

  datatype Point = Point(cpu: Cpu, mask: nat)

  type Trace = Runs.Trace<Event, Point>

  ghost predicate Follows(l: Levels, p: Point, e: Event, p': Point)
    requires WellFormed(l)
  {
    && Enabled(l, p.cpu, e) && Serve(l, p.cpu, e).Go?
    && p' == Point(After(l, p.cpu, e), Noted(p.cpu, p.mask, e))
  }

  /** Runs start in EL3, before the first entry to the normal world, with a non-secure mask and nothing active. */
  ghost predicate IsStart(p: Point) {
    && p.cpu.world == El3 && p.cpu.pe.active == 0 && p.cpu.pe.ns == 0
    && p.mask == p.cpu.pe.pmr && 0x80 <= p.mask < 0x100
  }

  ghost predicate IsRun(l: Levels, t: Trace)
    requires WellFormed(l)
  {
    && |t.points| == |t.steps| + 1 && IsStart(t.points[0])
    && forall i {:trigger t.steps[i]} :: 0 <= i < |t.steps| ==> Follows(l, t.points[i], t.steps[i], t.points[i + 1])
  }

  ghost predicate HandsOffRun(t: Trace) {
    forall i {:trigger t.steps[i]} :: 0 <= i < |t.steps| && i < |t.points| ==> HandsOff(t.points[i].cpu, t.steps[i])
  }

  lemma StartInv(l: Levels, p: Point)
    requires WellFormed(l) && IsStart(p)
    ensures Inv(l, p.cpu, p.mask)
  {
    forall i: nat
      ensures !Bit(0, i)
    {
      ZeroHasNoBits(i);
    }
  }

  lemma RunInv(l: Levels, t: Trace, n: nat)
    requires WellFormed(l) && IsRun(l, t) && HandsOffRun(t) && n < |t.points|
    ensures Inv(l, t.points[n].cpu, t.points[n].mask)
  {
    StartInv(l, t.points[0]);
    forall i | 0 < i < |t.points| && Inv(l, t.points[i - 1].cpu, t.points[i - 1].mask)
      ensures Inv(l, t.points[i].cpu, t.points[i].mask)
    {
      StepKeeps(l, t.points[i - 1].cpu, t.points[i - 1].mask, t.steps[i - 1]);
    }
    Runs.Along(t.points, (p: Point) => Inv(l, p.cpu, p.mask), n);
  }

  lemma RunCapped(l: Levels, t: Trace, n: nat)
    requires WellFormed(l) && IsRun(l, t) && n < |t.points|
    ensures Capped(l, t.points[n].cpu)
  {
    StartInv(l, t.points[0]);
    forall i | 0 < i < |t.points| && Capped(l, t.points[i - 1].cpu)
      ensures Capped(l, t.points[i].cpu)
    {
      StepCapped(l, t.points[i - 1].cpu, t.steps[i - 1]);
    }
    Runs.Along(t.points, (p: Point) => Capped(l, p.cpu), n);
  }

  /** In every run at all, while priorities are active the mask is at most the priority on top of the stack; so no
      event ends a run in the panic at line 211. */
  lemma MaskBelowTop(l: Levels, t: Trace, n: nat, e: Event)
    requires WellFormed(l) && IsRun(l, t) && n < |t.points|
    ensures var pe := t.points[n].cpu.pe;
            pe.active != 0 ==> pe.pmr <= IdxToPri(l, Ctz(pe.active)) < 0x80
    ensures Enabled(l, t.points[n].cpu, e) ==> Serve(l, t.points[n].cpu, e) != Panic(MaskAbove)
  {
    RunCapped(l, t, n);
    if Enabled(l, t.points[n].cpu, e) { StepCapped(l, t.points[n].cpu, e); }
  }

  /** In every run that leaves a stashed mask alone, the normal world runs unmasked only with the very mask it last
      had, and with nothing stashed. */
  lemma NormalWorldMask(l: Levels, t: Trace, n: nat)
    requires WellFormed(l) && IsRun(l, t) && HandsOffRun(t) && n < |t.points|
    ensures var p := t.points[n];
            p.cpu.world == Normal && Unmasked(p.cpu) ==> p.cpu.pe.pmr == p.mask && p.cpu.pe.ns == 0
  {
    RunInv(l, t, n);
  }

  /** The next event of a run never ends it in the panics at lines 211, 251 and 302 or the assertion at
      line 245. */
  lemma ClosedPanics(l: Levels, t: Trace, e: Event)
    requires WellFormed(l) && IsRun(l, t) && HandsOffRun(t)
    requires Enabled(l, t.points[|t.steps|].cpu, e) && HandsOff(t.points[|t.steps|].cpu, e)
    ensures var r := Serve(l, t.points[|t.steps|].cpu, e);
            r.Panic? ==> r.reason !in {MaskAbove, StashHeld, MaskSecure, MaskForeign}
  {
    RunInv(l, t, |t.steps|);
    StepKeeps(l, t.points[|t.steps|].cpu, t.points[|t.steps|].mask, e);
  }

  // ----- Activations as a bracket -----

  /** The first activation saves the mask, the last deactivation puts it back, and nothing in between touches it. */
  lemma BracketStep(l: Levels, c: Cpu, e: Event)
    requires WellFormed(l) && Capped(l, c) && Enabled(l, c, e) && Serve(l, c, e).Go?
    ensures var pe, pe' := c.pe, After(l, c, e).pe;
            && (pe'.active != 0 ==> pe'.init == if pe.active == 0 then pe.pmr else pe.init)
            && (pe.active != 0 && pe'.active == 0 ==> pe'.pmr == pe.init)
  {
    if e.Push? { OrNonZero(c.pe.active, Pow2(PriToIdx(l, e.pri))); }
  }

  /** While priorities are active, the mask saved at the first activation stays, whatever happens in between. */
  lemma {:induction false} SavedMaskStays(l: Levels, t: Trace, i: nat, j: nat)
    requires WellFormed(l) && IsRun(l, t) && i < j < |t.points|
    requires t.points[i].cpu.pe.active == 0
    requires forall k :: i < k <= j ==> t.points[k].cpu.pe.active != 0
    ensures t.points[j].cpu.pe.init == t.points[i].cpu.pe.pmr
    decreases j
  {
    RunCapped(l, t, j - 1);
    BracketStep(l, t.points[j - 1].cpu, t.steps[j - 1]);
    if i < j - 1 {
      SavedMaskStays(l, t, i, j - 1);
    }
  }

  /** From the first activation to the last deactivation the run is a bracket: afterwards the priority mask is
      what it was before. */
  lemma LastDeactivationRestores(l: Levels, t: Trace, i: nat, j: nat)
    requires WellFormed(l) && IsRun(l, t) && i + 1 < j < |t.points|
    requires t.points[i].cpu.pe.active == 0 && t.points[j].cpu.pe.active == 0
    requires forall k :: i < k < j ==> t.points[k].cpu.pe.active != 0
    ensures t.points[j].cpu.pe.pmr == t.points[i].cpu.pe.pmr
  {
    SavedMaskStays(l, t, i, j - 1);
    RunCapped(l, t, j - 1);
    BracketStep(l, t.points[j - 1].cpu, t.steps[j - 1]);
  }

  // ----- What the normal world must not do -----

  /** A write by the normal world while its mask is stashed, once nothing masks it any more.  The return to the normal
      world panics exactly if the value is neither the stash nor the mask set on entry, and it leaves the value in
      force exactly if it is the stash: the mask set on entry, if it is another one, goes through and is lost. */
  lemma WriteUnderStash(l: Levels, c: Cpu, mask: nat, v: nat, running: nat)
    requires WellFormed(l) && Inv(l, c, mask) && Enabled(l, c, WriteMask(v))
    requires c.pe.ns != 0 && c.pe.active == 0 && !IsSecure(running)
    ensures var r := EnteringNormalWorld(Serve(l, c, WriteMask(v)).pe, running);
            && (r == Panic(MaskForeign) <==> v != GIC_HIGHEST_NS_PRIORITY && v != mask)
            && (r.Go? && r.pe.pmr == v <==> v == mask)
            && (r.Go? && r.pe.pmr != v <==> v == GIC_HIGHEST_NS_PRIORITY && v != mask)
            && (r.Go? ==> r.pe.pmr == mask && r.pe.ns == 0)
  {
  }

  /** So the condition on the normal world is exact: from any state that meets the invariant, after any other write EL3
      can complete the interrupt and return, and that panics or leaves the normal world unmasked without its mask. */
  lemma HandsOffNeeded(l: Levels, c: Cpu, mask: nat, v: nat)
    requires WellFormed(l) && Inv(l, c, mask) && Enabled(l, c, WriteMask(v)) && !HandsOff(c, WriteMask(v))
    ensures var c1 := After(l, c, WriteMask(v));
            && Enabled(l, c1, Exit) && Serve(l, c1, Exit).Go?
            && var c2 := After(l, c1, Exit);
               && Enabled(l, c2, SetRunning(0xff))
               && var c3 := After(l, c2, SetRunning(0xff));
                  && Enabled(l, c3, Enter)
                  && var r := Serve(l, c3, Enter);
                     r == Panic(MaskForeign) || (r.Go? && Unmasked(After(l, c3, Enter)) && r.pe.pmr != v)
  {
  }

  lemma Extend(l: Levels, t: Trace, e: Event) returns (t': Trace)
    requires WellFormed(l) && IsRun(l, t) && Enabled(l, t.Last().cpu, e) && Serve(l, t.Last().cpu, e).Go?
    ensures IsRun(l, t')
    ensures t'.Last() == Point(After(l, t.Last().cpu, e), Noted(t.Last().cpu, t.Last().mask, e))
  {
    t' := t.Then(e, Point(After(l, t.Last().cpu, e), Noted(t.Last().cpu, t.Last().mask, e)));
    assert t'.points[|t.steps|] == t.Last();
    forall i | 0 <= i < |t'.steps|
      ensures Follows(l, t'.points[i], t'.steps[i], t'.points[i + 1])
    {
      if i < |t.steps| { assert Follows(l, t.points[i], t.steps[i], t.points[i + 1]); }
    }
  }

  function IdleCpu(world: World, running: nat, ns: nat, pmr: nat): Cpu {
    Cpu(Pe(0, 0, ns, pmr), world, running)
  }

  /** On every platform the normal world can come to run on a stashed mask: it is entered while a secure interrupt is
      still running. */
  lemma StashedRun(l: Levels) returns (t: Trace)
    requires WellFormed(l)
    ensures IsRun(l, t) && t.Last() == Point(IdleCpu(Normal, 0x10, 0xff, 0x80), 0xff)
  {
    t := Runs.Trace([], [Point(IdleCpu(El3, 0xff, 0, 0xff), 0xff)]);
    t := Extend(l, t, Enter);
    t := Extend(l, t, Exit);
    t := Extend(l, t, SetRunning(0x10));
    t := Extend(l, t, Enter);
  }

  /** It writes its mask there, and EL3 completes the interrupt. */
  lemma WriteStashed(l: Levels, v: nat) returns (t: Trace)
    requires WellFormed(l) && 0x80 <= v < 0x100
    ensures IsRun(l, t) && t.Last() == Point(IdleCpu(El3, 0xff, 0xff, v), v)
  {
    t := StashedRun(l);
    t := Extend(l, t, WriteMask(v));
    t := Extend(l, t, Exit);
    t := Extend(l, t, SetRunning(0xff));
  }

  /** Then the return panics for any value but two, */
  lemma StashWriteRun(l: Levels, v: nat) returns (t: Trace)
    requires WellFormed(l) && 0x80 < v < 0xff
    ensures IsRun(l, t) && Enabled(l, t.Last().cpu, Enter)
    ensures Serve(l, t.Last().cpu, Enter) == Panic(MaskForeign)
  {
    t := WriteStashed(l, v);
  }

  /** and for the mask set on entry it goes through: the normal world runs unmasked with the old mask instead of the
      one it wrote. */
  lemma LostWriteRun(l: Levels) returns (t: Trace)
    requires WellFormed(l)
    ensures IsRun(l, t) && t.Last().cpu.world == Normal && Unmasked(t.Last().cpu)
    ensures t.Last().mask == 0x80 && t.Last().cpu.pe.pmr == 0xff
  {
    t := WriteStashed(l, 0x80);
    t := Extend(l, t, Enter);
  }

  // ----- A priority that cannot be activated again -----

  lemma IndexOrder(l: Levels, p: nat, q: nat)
    requires WellFormed(l) && Canonical(l, p) && Canonical(l, q) && p < q
    ensures PriToIdx(l, p) < PriToIdx(l, q)
  {
    CanonicalShift(l, p);
    CanonicalShift(l, q);
    if PriToIdx(l, p) > PriToIdx(l, q) { ShlMonotone(PriToIdx(l, q), PriToIdx(l, p), 7 - l.priBits); }
  }

  /** On every platform with two priorities: both are activated, the higher one is deactivated, */
  lemma NestedRun(l: Levels, p: nat, q: nat) returns (t: Trace)
    requires WellFormed(l) && Canonical(l, p) && Canonical(l, q) && p < q
    requires PriToIdx(l, p) in l.valid && PriToIdx(l, q) in l.valid
    ensures IsRun(l, t) && t.Last().cpu.world == El3 && t.Last().cpu.running == 0xff
    ensures t.Last().cpu.pe.active == Pow2(PriToIdx(l, q)) && t.Last().cpu.pe.pmr == p
  {
    var i, j := PriToIdx(l, p), PriToIdx(l, q);
    IndexOrder(l, p, q);
    t := Runs.Trace([], [Point(IdleCpu(El3, 0xff, 0, 0xff), 0xff)]);
    t := Extend(l, t, Push(q));
    ClearUndoesSet(0, j);
    assert t.Last().cpu.pe.active == Pow2(j) && Ctz(Pow2(j)) == j;
    t := Extend(l, t, Push(p));
    ClearUndoesSet(Pow2(j), i);
    t := Extend(l, t, Pop(p));
  }

  /** and cannot be activated again although it is above the one that is active. */
  lemma ReactivationRun(l: Levels, p: nat, q: nat) returns (t: Trace)
    requires WellFormed(l) && Canonical(l, p) && Canonical(l, q) && p < q
    requires PriToIdx(l, p) in l.valid && PriToIdx(l, q) in l.valid
    ensures IsRun(l, t) && Enabled(l, t.Last().cpu, Push(p)) && PriToIdx(l, p) < Ctz(Pow2(PriToIdx(l, q)))
    ensures t.Last().cpu.pe.active == Pow2(PriToIdx(l, q))
    ensures Serve(l, t.Last().cpu, Push(p)) == Panic(MaskNotLower)
  {
    IndexOrder(l, p, q);
    ClearUndoesSet(0, PriToIdx(l, q));
    t := NestedRun(l, p, q);
  }
}
