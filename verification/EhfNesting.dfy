/** Which events go through in a run of one processing element, exactly, and which nested activations complete. */
module EhfNesting {
  import opened Bits
  import opened Common
  import opened EhfModel
  import opened EhfRuns
  import Runs

  // ----- Every event -----

  /** The mask beneath all activations is never a secure one, whatever the normal world does. */
  ghost predicate Beneath(c: Cpu) {
    0x80 <= Under(c.pe) < 0x100 && (c.pe.ns != 0 ==> 0x80 <= c.pe.ns < 0x100)
  }

  lemma StepBeneath(l: Levels, c: Cpu, e: Event)
    requires WellFormed(l) && Capped(l, c) && Beneath(c) && Enabled(l, c, e) && Serve(l, c, e).Go?
    ensures Beneath(After(l, c, e))
  {
    if e.Push? { OrNonZero(c.pe.active, Pow2(PriToIdx(l, e.pri))); }
  }

  lemma RunBeneath(l: Levels, t: Trace, n: nat)
    requires WellFormed(l) && IsRun(l, t) && n < |t.points|
    ensures Capped(l, t.points[n].cpu) && Beneath(t.points[n].cpu)
  {
    forall i | 0 < i < |t.points| && Beneath(t.points[i - 1].cpu)
      ensures Beneath(t.points[i].cpu)
    {
      RunCapped(l, t, i - 1);
      StepBeneath(l, t.points[i - 1].cpu, t.steps[i - 1]);
    }
    Runs.Along(t.points, (p: Point) => Beneath(p.cpu), n);
    RunCapped(l, t, n);
  }

  /** A priority of the platform above the running one. */
  ghost predicate Usable(l: Levels, running: nat, pri: nat)
    requires WellFormed(l)
  {
    pri < running && PriToIdx(l, pri) in l.valid
  }

  /** The index activated last. */
  ghost predicate OnTop(pe: Pe, idx: nat) {
    Stack(pe) != [] && Stack(pe)[|Stack(pe)| - 1] == idx
  }

  /** The event goes through. */
  ghost predicate Goes(l: Levels, c: Cpu, e: Event)
    requires WellFormed(l)
  {
    match e
    case Exit => IsSecure(c.running) || Stack(c.pe) != [] || c.pe.ns == 0
    case Enter =>
      || IsSecure(c.running) || Stack(c.pe) != []
      || c.pe.ns == 0 || c.pe.pmr == GIC_HIGHEST_NS_PRIORITY || c.pe.pmr == c.pe.ns
    case Push(pri) => Usable(l, c.running, pri) && (Stack(c.pe) == [] || pri < c.pe.pmr)
    case Pop(pri) => Usable(l, c.running, pri) && OnTop(c.pe, PriToIdx(l, pri))
    case Allow => c.pe.ns != 0 && Stack(c.pe) == []
    case SetRunning(_) => true
    case WriteMask(_) => true
  }

  lemma PushExactly(l: Levels, c: Cpu, pri: nat)
    requires WellFormed(l) && Capped(l, c) && Beneath(c) && Canonical(l, pri)
    ensures Activate(l, c.pe, c.running, pri).Go? <==>
            Usable(l, c.running, pri) && (c.pe.active == 0 || pri < c.pe.pmr)
  {
    if c.pe.active != 0 && pri < c.pe.pmr { BelowMaskIsAbove(l, c, pri); }
  }

  /** With priorities active, what is below the mask has an index below the one on top. */
  lemma BelowMaskIsAbove(l: Levels, c: Cpu, pri: nat)
    requires WellFormed(l) && Capped(l, c) && Canonical(l, pri) && c.pe.active != 0 && pri < c.pe.pmr
    ensures PriToIdx(l, pri) < Ctz(c.pe.active)
  {
    CanonicalShift(l, pri);
    if PriToIdx(l, pri) > Ctz(c.pe.active) { PriorityOrder(l, Ctz(c.pe.active), PriToIdx(l, pri)); }
  }

  lemma PopExactly(l: Levels, c: Cpu, pri: nat)
    requires WellFormed(l) && Capped(l, c) && Canonical(l, pri)
    ensures Deactivate(l, c.pe, c.running, pri).Go? <==>
            Usable(l, c.running, pri) && OnTop(c.pe, PriToIdx(l, pri))
  {
    StackFromShape(c.pe.active, 0);
  }

  /** At every point of every run, whatever the normal world does, an event goes through exactly under its condition.
      In particular a deactivation goes through exactly if the priority is the one activated last, and a mask of the
      normal world is never taken for a secure one. */
  lemma GoesExactly(l: Levels, t: Trace, n: nat, e: Event)
    requires WellFormed(l) && IsRun(l, t) && n < |t.points| && Enabled(l, t.points[n].cpu, e)
    ensures Serve(l, t.points[n].cpu, e).Go? <==> Goes(l, t.points[n].cpu, e)
  {
    var c := t.points[n].cpu;
    RunBeneath(l, t, n);
    StackFromShape(c.pe.active, 0);
    if e.Push? { PushExactly(l, c, e.pri); }
    if e.Pop? { PopExactly(l, c, e.pri); }
  }

  // ----- Nested activations -----

  /** An activation, what is activated and deactivated within it, and its deactivation. */
  datatype Bracket = Bracket(pri: nat, inner: seq<Bracket>)

  function Events(bs: seq<Bracket>): seq<Event> {
    if bs == [] then []
    else [Push(bs[0].pri)] + Events(bs[0].inner) + [Pop(bs[0].pri)] + Events(bs[1..])
  }

  /** The platform has these priorities. */
  ghost predicate AllCanonical(l: Levels, bs: seq<Bracket>)
    requires WellFormed(l)
  {
    bs == [] || (Canonical(l, bs[0].pri) && AllCanonical(l, bs[0].inner) && AllCanonical(l, bs[1..]))
  }

  /** The order the framework demands: what is nested is above what it is nested in, and above what was nested there
      before it.  Nothing ties together the outermost ones. */
  ghost predicate Orderly(l: Levels, running: nat, outermost: bool, bound: nat, bs: seq<Bracket>)
    requires WellFormed(l)
  {
    bs == [] ||
    (&& Usable(l, running, bs[0].pri) && (outermost || bs[0].pri < bound)
     && Orderly(l, running, false, bs[0].pri, bs[0].inner)
     && Orderly(l, running, outermost, if outermost then bound else bs[0].pri, bs[1..]))
  }

  /** Events served one after the other, unless one panics. */
  function Play(l: Levels, c: Cpu, es: seq<Event>): Option<Cpu>
    requires WellFormed(l)
    decreases |es|
  {
    if es == [] then Some(c)
    else if Serve(l, c, es[0]).Panic? then None
    else Play(l, After(l, c, es[0]), es[1..])
  }

  lemma {:induction false} PlayConcat(l: Levels, c: Cpu, a: seq<Event>, b: seq<Event>)
    requires WellFormed(l)
    ensures Play(l, c, a + b) == match Play(l, c, a) case None => None case Some(c1) => Play(l, c1, b)
    decreases |a|
  {
    if a == [] {
      assert a + b == b;
    } else {
      assert (a + b)[1..] == a[1..] + b;
      if Serve(l, c, a[0]).Go? { PlayConcat(l, After(l, c, a[0]), a[1..], b); }
    }
  }

  /** The state after brackets: activations, stash and saved mask are as before, and so is the mask if nothing was
      active; otherwise it is the priority of the last bracket. */
  ghost predicate Settled(l: Levels, c: Cpu, c': Cpu, bs: seq<Bracket>)
    requires WellFormed(l)
  {
    && Capped(l, c') && c'.world == c.world && c'.running == c.running
    && c'.pe.active == c.pe.active && c'.pe.ns == c.pe.ns && (c.pe.active != 0 ==> c'.pe.init == c.pe.init)
    && c'.pe.pmr == if c.pe.active == 0 || bs == [] then c.pe.pmr else bs[|bs| - 1].pri
  }

  /** The state a bracket can start from. */
  ghost predicate Ready(l: Levels, c: Cpu)
    requires WellFormed(l)
  {
    Capped(l, c) && Beneath(c) && c.world == El3
  }

  /** A deactivation puts back what its activation changed, if what came in between is settled. */
  lemma Closes(l: Levels, c: Cpu, c1: Cpu, c2: Cpu, pri: nat, inner: seq<Bracket>)
    requires WellFormed(l) && Ready(l, c) && Canonical(l, pri) && Serve(l, c, Push(pri)).Go?
    requires c1 == After(l, c, Push(pri)) && Settled(l, c1, c2, inner)
    ensures Serve(l, c2, Pop(pri)).Go? && Settled(l, c, After(l, c2, Pop(pri)), [Bracket(pri, inner)])
  {
    ClearUndoesSet(c.pe.active, PriToIdx(l, pri));
    DivSmall(c.pe.pmr, 0x100);
    PopCapped(l, c2, pri);
  }

  lemma ReadyAfter(l: Levels, c: Cpu, pri: nat)
    requires WellFormed(l) && Ready(l, c) && Canonical(l, pri) && Serve(l, c, Push(pri)).Go?
    ensures var c1 := After(l, c, Push(pri));
            Ready(l, c1) && c1.pe.active != 0 && c1.pe.pmr == pri && c1.running == c.running
  {
    OrNonZero(c.pe.active, Pow2(PriToIdx(l, pri)));
    PushCapped(l, c, pri);
    StepBeneath(l, c, Push(pri));
  }

  /** Playing brackets: open the first, play what is in it, close it, play the others. */
  lemma PlayParts(l: Levels, c: Cpu, bs: seq<Bracket>)
    requires WellFormed(l) && bs != []
    ensures Play(l, c, Events(bs)) ==
            if Serve(l, c, Push(bs[0].pri)).Panic? then None
            else match Play(l, After(l, c, Push(bs[0].pri)), Events(bs[0].inner))
                 case None => None
                 case Some(c2) => PlayRest(l, c2, bs)
  {
    var inner, rest := Events(bs[0].inner), [Pop(bs[0].pri)] + Events(bs[1..]);
    assert Events(bs) == [Push(bs[0].pri)] + (inner + rest);
    PlayFirst(l, c, Push(bs[0].pri), inner + rest);
    if Serve(l, c, Push(bs[0].pri)).Go? {
      var c1 := After(l, c, Push(bs[0].pri));
      PlayConcat(l, c1, inner, rest);
      var r := Play(l, c1, inner);
      if r.Some? { PlayFirst(l, r.value, Pop(bs[0].pri), Events(bs[1..])); }
    }
  }

  lemma PlayFirst(l: Levels, c: Cpu, e: Event, es: seq<Event>)
    requires WellFormed(l)
    ensures Play(l, c, [e] + es) == if Serve(l, c, e).Panic? then None else Play(l, After(l, c, e), es)
  {
    assert ([e] + es)[1..] == es;
  }

  function PlayRest(l: Levels, c: Cpu, bs: seq<Bracket>): Option<Cpu>
    requires WellFormed(l) && bs != []
  {
    if Serve(l, c, Pop(bs[0].pri)).Panic? then None
    else Play(l, After(l, c, Pop(bs[0].pri)), Events(bs[1..]))
  }

  /** The brackets complete exactly if they are in order, and then all is settled. */
  ghost predicate CompletesInOrder(l: Levels, c: Cpu, bs: seq<Bracket>)
    requires WellFormed(l)
  {
    var r := Play(l, c, Events(bs));
    && (r.Some? <==> Orderly(l, c.running, c.pe.active == 0, c.pe.pmr, bs))
    && (r.Some? ==> Settled(l, c, r.value, bs))
  }

  lemma {:induction false} NestingExactly(l: Levels, c: Cpu, bs: seq<Bracket>)
    requires WellFormed(l) && Ready(l, c) && AllCanonical(l, bs)
    ensures CompletesInOrder(l, c, bs)
    decreases bs
  {
    if bs != [] {
      var pri, inner := bs[0].pri, bs[0].inner;
      PlayParts(l, c, bs);
      PushExactly(l, c, pri);
      if Serve(l, c, Push(pri)).Go? {
        var c1 := After(l, c, Push(pri));
        ReadyAfter(l, c, pri);
        NestingExactly(l, c1, inner);
        var r := Play(l, c1, Events(inner));
        if r.Some? {
          Closes(l, c, c1, r.value, pri, inner);
          var c3 := After(l, r.value, Pop(pri));
          NestingExactly(l, c3, bs[1..]);
          Continues(l, c, c3, bs);
        }
      }
    }
  }

  lemma Continues(l: Levels, c: Cpu, c3: Cpu, bs: seq<Bracket>)
    requires WellFormed(l) && Ready(l, c) && bs != [] && Settled(l, c, c3, [bs[0]]) && CompletesInOrder(l, c3, bs[1..])
    ensures var r := Play(l, c3, Events(bs[1..]));
            && (r.Some? <==>
                Orderly(l, c.running, c.pe.active == 0, if c.pe.active == 0 then c.pe.pmr else bs[0].pri, bs[1..]))
            && (r.Some? ==> Settled(l, c, r.value, bs))
  {
  }

  /** At every point of every run at EL3, whatever came before: nested activations and deactivations complete exactly if
      they are in order, and leave everything but the mask, and the mask as well if nothing was active. */
  lemma BracketsComplete(l: Levels, t: Trace, bs: seq<Bracket>)
    requires WellFormed(l) && IsRun(l, t) && t.Last().cpu.world == El3 && AllCanonical(l, bs)
    ensures CompletesInOrder(l, t.Last().cpu, bs)
  {
    RunBeneath(l, t, |t.points| - 1);
    NestingExactly(l, t.Last().cpu, bs);
  }

  // ----- Preemption by the normal world -----

  /** The mask of the normal world is held back: the last event that moved it was an exit from the normal world.  Events
      at a secure running priority, or with priorities active, do not move it. */
  ghost predicate HeldBack(t: Trace, n: nat)
    requires n < |t.points| && n <= |t.steps|
  {
    if n == 0 then false
    else
      var c, e := t.points[n - 1].cpu, t.steps[n - 1];
      if e.Allow? then false
      else if e.Exit? && Unmasked(c) then true
      else if e.Enter? && Unmasked(c) then false
      else HeldBack(t, n - 1)
  }

  lemma {:induction false} StashExactly(l: Levels, t: Trace, n: nat)
    requires WellFormed(l) && IsRun(l, t) && n < |t.points|
    ensures t.points[n].cpu.pe.ns != 0 <==> HeldBack(t, n)
  {
    if n > 0 {
      StashExactly(l, t, n - 1);
      RunBeneath(l, t, n - 1);
      assert Follows(l, t.points[n - 1], t.steps[n - 1], t.points[n]);
      StashStep(l, t.points[n - 1].cpu, t.steps[n - 1]);
    }
  }

  lemma StashStep(l: Levels, c: Cpu, e: Event)
    requires WellFormed(l) && Beneath(c) && Serve(l, c, e).Go?
    ensures var ns := After(l, c, e).pe.ns;
            ns != 0 <==> !e.Allow? && (if (e.Exit? || e.Enter?) && Unmasked(c) then e.Exit? else c.pe.ns != 0)
  {
    if e.Exit? && Unmasked(c) { DivSmall(c.pe.pmr, 0x100); }
  }

  /** Step `i` leaves the normal world unmasked, and up to point `j` it is neither entered nor allowed to preempt. */
  ghost predicate Shielded(t: Trace, i: nat, j: nat)
    requires i < j < |t.points| <= |t.steps| + 1
  {
    && t.steps[i].Exit? && Unmasked(t.points[i].cpu)
    && forall k :: i < k < j ==> !t.steps[k].Enter? && !t.steps[k].Allow?
  }

  /** EL3 runs with the mask that keeps non-secure interrupts out beneath the activations, and this one stashed. */
  ghost predicate Shield(c: Cpu, ns: nat) {
    c.world == El3 && Under(c.pe) == GIC_HIGHEST_NS_PRIORITY && c.pe.ns == ns
  }

  /** In every run at all, all that time non-secure interrupts are kept out and the mask of the normal world is
      stashed. */
  lemma {:induction false} ShieldHolds(l: Levels, t: Trace, i: nat, j: nat)
    requires WellFormed(l) && IsRun(l, t) && i < j < |t.points| && Shielded(t, i, j)
    ensures Shield(t.points[j].cpu, t.points[i].cpu.pe.pmr)
    decreases j
  {
    RunBeneath(l, t, j - 1);
    if i == j - 1 {
      ShieldStarts(l, t.points[i], t.steps[i], t.points[j]);
    } else {
      ShieldHolds(l, t, i, j - 1);
      ShieldStep(l, t.points[j - 1], t.steps[j - 1], t.points[j], t.points[i].cpu.pe.pmr);
    }
  }

  lemma ShieldStarts(l: Levels, p: Point, e: Event, p': Point)
    requires WellFormed(l) && Beneath(p.cpu) && Unmasked(p.cpu) && e.Exit? && Follows(l, p, e, p')
    ensures Shield(p'.cpu, p.cpu.pe.pmr)
  {
    DivSmall(p.cpu.pe.pmr, 0x100);
  }

  lemma ShieldStep(l: Levels, p: Point, e: Event, p': Point, ns: nat)
    requires WellFormed(l) && Capped(l, p.cpu) && Follows(l, p, e, p')
    requires Shield(p.cpu, ns) && !e.Enter? && !e.Allow?
    ensures Shield(p'.cpu, ns)
  {
    if e.Push? {
      OrNonZero(p.cpu.pe.active, Pow2(PriToIdx(l, e.pri)));
      DivSmall(p.cpu.pe.pmr, 0x100);
    }
  }

  /** The framework says that preemption is allowed exactly if no secure interrupt runs, no priority is active and the
      mask is not held back; then it is in force, in runs that leave a stashed mask alone. */
  lemma PreemptionExactly(l: Levels, t: Trace, n: nat)
    requires WellFormed(l) && IsRun(l, t) && n < |t.points|
    ensures var c := t.points[n].cpu;
            IsNsPreemptionAllowed(c.pe, c.running) <==> !IsSecure(c.running) && Stack(c.pe) == [] && !HeldBack(t, n)
    ensures HandsOffRun(t) && IsNsPreemptionAllowed(t.points[n].cpu.pe, t.points[n].cpu.running) ==>
              t.points[n].cpu.pe.pmr == t.points[n].mask
  {
    StashExactly(l, t, n);
    StackFromShape(t.points[n].cpu.pe.active, 0);
    if HandsOffRun(t) { RunInv(l, t, n); }
  }

  /** Allowing preemption goes through exactly if the mask is held back and no priority is active.  In runs that leave a
      stashed mask alone it puts the mask of the normal world in force, and preemption is allowed from then on unless a
      secure interrupt runs. */
  lemma AllowGivesBack(l: Levels, t: Trace)
    requires WellFormed(l) && IsRun(l, t) && t.Last().cpu.world == El3
    ensures var c := t.Last().cpu;
            && (Serve(l, c, Allow).Go? <==> HeldBack(t, |t.steps|) && Stack(c.pe) == [])
            && (HandsOffRun(t) && Serve(l, c, Allow).Go? ==>
                  var c' := After(l, c, Allow);
                  c'.pe.pmr == t.Last().mask && (IsNsPreemptionAllowed(c'.pe, c'.running) <==> !IsSecure(c.running)))
  {
    StashExactly(l, t, |t.steps|);
    StackFromShape(t.Last().cpu.pe.active, 0);
    if HandsOffRun(t) { RunInv(l, t, |t.steps|); }
  }
}
