/** Exclusion on SCMI shared-memory channels (drivers/scmi-msg/smt.c) under every interleaving of cores.

    Each core serves messages one after the other; a step of the machine is one access of one core to the lock,
    to a busy flag or to shared memory.  What is read from shared memory is an input of the step, since the
    agent can write there at any time. */
module ScmiChannel {
  import opened Bits
  import Runs

  const PAYLOAD_MAX: nat := 92

  /** SMT_STATUS_FREE and SMT_STATUS_ERROR as flags. */
  datatype Status = Status(free: bool, error: bool)

  /** Where a core is in scmi_proccess_smt and channel_set_busy. */
  datatype Pc =
    | Idle
    | Wants(ch: nat, status: Status)      // status read, about to take the lock
    | Locked(ch: nat, status: Status)     // in the critical section
    | SawFree(ch: nat, status: Status)    // read the busy flag as clear
    | GotIt(ch: nat, status: Status)      // has set the busy flag, still holds the lock
    | SawBusy(ch: nat)                    // read the busy flag as set, still holds the lock
    | Entered(ch: nat, status: Status)    // channel_set_busy returned true
    | Sized(ch: nat, status: Status, size: nat) // payload size computed
    | Copied(ch: nat, size: nat)          // payload copied to secure memory
    | Answered(ch: nat)                   // message processed, about to clear the busy flag
    | Refused(ch: nat)                    // on the way out with an error
    | Finished(ch: nat)                   // on the way out without

  datatype State = State(holder: int, busy: set<nat>, pcs: map<nat, Pc>)

  /** No core holds the lock. */
  const NOBODY: int := -1

  datatype Event =
    | Begin(core: nat, ch: nat, status: Status)
    | TakeLock(core: nat)
    | ReadBusy(core: nat)
    | SetBusy(core: nat)
    | Unlock(core: nat)
    | ReadLength(core: nat, length: nat)
    | Check(core: nat)
    | Process(core: nat)
    | ClearBusy(core: nat)
    | Leave(core: nat)

  function At(s: State, core: nat): Pc { if core in s.pcs then s.pcs[core] else Idle }

  function Goto(s: State, core: nat, pc: Pc): State { s.(pcs := s.pcs[core := pc]) }

  /** The size of the payload: the length field without the message header, in `size_t`. */
  function PayloadSize(length: nat): nat
    requires length < U32
  {
    Minus64(length, 4)
  }

  predicate Enabled(s: State, e: Event) {
    match e
    case Begin(c, _, _) => At(s, c).Idle?
    case TakeLock(c) => At(s, c).Wants? && s.holder == NOBODY
    case ReadBusy(c) => At(s, c).Locked?
    case SetBusy(c) => At(s, c).SawFree?
    case Unlock(c) => At(s, c).GotIt? || At(s, c).SawBusy?
    case ReadLength(c, length) => At(s, c).Entered? && length < U32
    case Check(c) => At(s, c).Sized?
    case Process(c) => At(s, c).Copied?
    case ClearBusy(c) => At(s, c).Answered?
    case Leave(c) => At(s, c).Refused? || At(s, c).Finished?
  }

  /** One step of one core. */
  function Step(s: State, e: Event): State
    requires Enabled(s, e)
  {
    var pc := At(s, e.core);
    match e
    case Begin(c, ch, status) => Goto(s, c, Wants(ch, status))
    case TakeLock(c) => Goto(s, c, Locked(pc.ch, pc.status)).(holder := c)
    case ReadBusy(c) => Goto(s, c, if pc.ch in s.busy then SawBusy(pc.ch) else SawFree(pc.ch, pc.status))
    case SetBusy(c) => Goto(s, c, GotIt(pc.ch, pc.status)).(busy := s.busy + {pc.ch})
    case Unlock(c) =>
      Goto(s, c, if pc.GotIt? then Entered(pc.ch, pc.status) else Refused(pc.ch)).(holder := NOBODY)
    case ReadLength(c, length) => Goto(s, c, Sized(pc.ch, pc.status, PayloadSize(length)))
    case Check(c) =>
      Goto(s, c, if BadMessage(pc.size, pc.status) then Refused(pc.ch) else Copied(pc.ch, pc.size))
    case Process(c) => Goto(s, c, Answered(pc.ch))
    case ClearBusy(c) => Goto(s, c, Finished(pc.ch)).(busy := s.busy - {pc.ch})
    case Leave(c) => Goto(s, c, Idle)
  }

  // ----- The invariant -----

  predicate HoldsLock(pc: Pc) { pc.Locked? || pc.SawFree? || pc.GotIt? || pc.SawBusy? }

  /** Between a successful channel_set_busy and the release. */
  predicate Inside(pc: Pc) { pc.GotIt? || pc.Entered? || pc.Sized? || pc.Copied? || pc.Answered? }

  ghost predicate Inv(s: State) {
    && (forall c: nat :: HoldsLock(At(s, c)) ==> s.holder == c)
    && (forall c: nat :: Inside(At(s, c)) ==> At(s, c).ch in s.busy)
    && (forall c: nat :: At(s, c).SawFree? ==> At(s, c).ch !in s.busy)
    && (forall c: nat, d: nat :: c != d && Inside(At(s, c)) && Inside(At(s, d)) ==> At(s, c).ch != At(s, d).ch)
    && (forall c: nat :: At(s, c).Copied? ==> At(s, c).size <= PAYLOAD_MAX)
  }

  lemma StepKeeps(s: State, e: Event)
    requires Inv(s) && Enabled(s, e)
    ensures Inv(Step(s, e))
  {
    var s' := Step(s, e);
    assert forall c: nat :: c != e.core ==> At(s', c) == At(s, c);
  }

  // ----- Runs -----

  type Trace = Runs.Trace<Event, State>

  ghost predicate Follows(s: State, e: Event, s': State) { Enabled(s, e) && s' == Step(s, e) }

  ghost predicate Continues(t: Trace) {
    && |t.points| == |t.steps| + 1
    && forall i {:trigger t.steps[i]} :: 0 <= i < |t.steps| ==> Follows(t.points[i], t.steps[i], t.points[i + 1])
  }

  /** From the state in which all cores are idle and all channels free. */
  ghost predicate IsRun(t: Trace) {
    Continues(t) && t.points[0] == State(NOBODY, {}, map[])
  }

  /** Under every interleaving at most one core is inside a channel, and no core copies more than 92 bytes. */
  lemma AtMostOneInside(t: Trace, n: nat, c: nat, d: nat)
    requires IsRun(t) && n < |t.points|
    ensures var s := t.points[n];
            && (Inside(At(s, c)) && Inside(At(s, d)) && At(s, c).ch == At(s, d).ch ==> c == d)
            && (At(s, c).Copied? ==> At(s, c).size <= PAYLOAD_MAX)
  {
    RunInv(t, n);
  }

  lemma RunInv(t: Trace, n: nat)
    requires IsRun(t) && n < |t.points|
    ensures Inv(t.points[n])
  {
    forall i | 0 < i < |t.points| && Inv(t.points[i - 1])
      ensures Inv(t.points[i])
    {
      StepKeeps(t.points[i - 1], t.steps[i - 1]);
    }
    Runs.Along(t.points, (s: State) => Inv(s), n);
  }

  /** The bound holds for every value of the length field: a field too small for the header wraps around to a
      size that is refused. */
  lemma AcceptedLengths(length: nat)
    requires length < U32
    ensures PayloadSize(length) <= PAYLOAD_MAX <==> 4 <= length <= PAYLOAD_MAX + 4
  {
  }

  // ----- Channels that are never released -----

  /** The flag is set and no core is inside. */
  ghost predicate Abandoned(s: State, ch: nat) {
    ch in s.busy && forall c: nat :: Inside(At(s, c)) ==> At(s, c).ch != ch
  }

  /** The message a core has entered the channel for is not in order: too long by its length field, or with a
      status that says error or free. */
  predicate BadMessage(size: nat, status: Status) { size > PAYLOAD_MAX || status.error || status.free }

  /** A core inside the channel checks a message that is not in order. */
  predicate GivesUp(s: State, e: Event, ch: nat) {
    && e.Check? && At(s, e.core).Sized? && At(s, e.core).ch == ch
    && BadMessage(At(s, e.core).size, At(s, e.core).status)
  }

  lemma GivingUpAbandons(s: State, e: Event, ch: nat)
    requires Inv(s) && Enabled(s, e) && GivesUp(s, e, ch)
    ensures Abandoned(Step(s, e), ch)
  {
    var s' := Step(s, e);
    assert forall d: nat :: d != e.core ==> At(s', d) == At(s, d);
  }

  lemma AbandonedStep(s: State, e: Event, ch: nat)
    requires Inv(s) && Enabled(s, e) && Abandoned(s, ch)
    ensures Abandoned(Step(s, e), ch)
  {
    var s' := Step(s, e);
    assert forall d: nat :: d != e.core ==> At(s', d) == At(s, d);
  }

  /** Any other step leaves somebody inside, or the flag clear. */
  lemma OtherStepsKeep(s: State, e: Event, ch: nat)
    requires Inv(s) && Enabled(s, e) && !Abandoned(s, ch) && !GivesUp(s, e, ch)
    ensures !Abandoned(Step(s, e), ch)
  {
    var s' := Step(s, e);
    assert forall d: nat :: d != e.core ==> At(s', d) == At(s, d);
    if ch in s.busy {
      var c: nat :| Inside(At(s, c)) && At(s, c).ch == ch;
      assert e.core == c ==> e.ClearBusy? || (Inside(At(s', c)) && At(s', c).ch == ch);
      assert e.core != c ==> At(s', c) == At(s, c);
    } else if ch in s'.busy {
      assert Inside(At(s', e.core)) && At(s', e.core).ch == ch;
    }
  }

  /** A step abandons a channel if and only if a core inside it checks a message that is not in order. */
  lemma AbandonsExactly(s: State, e: Event, ch: nat)
    requires Inv(s) && Enabled(s, e) && !Abandoned(s, ch)
    ensures Abandoned(Step(s, e), ch) <==> GivesUp(s, e, ch)
  {
    if GivesUp(s, e, ch) { GivingUpAbandons(s, e, ch); } else { OtherStepsKeep(s, e, ch); }
  }

  /** From then on no core ever enters the channel again, in any continuation. */
  lemma AbandonedForever(t: Trace, n: nat, ch: nat)
    requires Continues(t) && Inv(t.points[0]) && Abandoned(t.points[0], ch) && n < |t.points|
    ensures Abandoned(t.points[n], ch)
  {
    forall i | 0 < i < |t.points| && Inv(t.points[i - 1]) && Abandoned(t.points[i - 1], ch)
      ensures Inv(t.points[i]) && Abandoned(t.points[i], ch)
    {
      StepKeeps(t.points[i - 1], t.steps[i - 1]);
      AbandonedStep(t.points[i - 1], t.steps[i - 1], ch);
    }
    Runs.Along(t.points, (s: State) => Inv(s) && Abandoned(s, ch), n);
  }

  /** Among the first `n` steps of the run, a core gave up a message on the channel. */
  ghost predicate GaveUp(t: Trace, n: nat, ch: nat)
    requires n <= |t.steps| < |t.points|
  {
    exists i {:trigger t.steps[i]} :: 0 <= i < n && GivesUp(t.points[i], t.steps[i], ch)
  }

  /** Throughout every run, a channel is abandoned if and only if some core has given up a message on it. */
  lemma {:induction false} AbandonedExactly(t: Trace, n: nat, ch: nat)
    requires IsRun(t) && n < |t.points|
    ensures Abandoned(t.points[n], ch) <==> GaveUp(t, n, ch)
    decreases n
  {
    if n > 0 {
      AbandonedExactly(t, n - 1, ch);
      RunInv(t, n - 1);
      var s, e := t.points[n - 1], t.steps[n - 1];
      if Abandoned(s, ch) { AbandonedStep(s, e, ch); } else { AbandonsExactly(s, e, ch); }
      assert GaveUp(t, n, ch) <==> GaveUp(t, n - 1, ch) || GivesUp(s, e, ch);
    }
  }

  lemma Extend(t: Trace, e: Event) returns (t': Trace)
    requires IsRun(t) && Enabled(t.Last(), e)
    ensures IsRun(t') && t'.Last() == Step(t.Last(), e)
  {
    t' := t.Then(e, Step(t.Last(), e));
    assert t'.points[|t.steps|] == t.Last();
    forall i | 0 <= i < |t'.steps|
      ensures Follows(t'.points[i], t'.steps[i], t'.points[i + 1])
    {
      if i < |t.steps| { assert Follows(t.points[i], t.steps[i], t.points[i + 1]); }
    }
  }

  /** A core enters a channel nobody has used. */
  lemma EnteringRun(ch: nat, status: Status) returns (t: Trace)
    ensures IsRun(t) && At(t.Last(), 0) == Entered(ch, status)
  {
    t := Runs.Trace([], [State(NOBODY, {}, map[])]);
    t := Extend(t, Begin(0, ch, status));
    t := Extend(t, TakeLock(0));
    t := Extend(t, ReadBusy(0));
    t := Extend(t, SetBusy(0));
    t := Extend(t, Unlock(0));
  }

  /** Every channel, and every message that is not in order: there is a run that abandons the channel over it. */
  lemma AbandoningRun(ch: nat, status: Status, length: nat) returns (t: Trace)
    requires length < U32 && (!(4 <= length <= PAYLOAD_MAX + 4) || status.error || status.free)
    ensures IsRun(t) && Abandoned(t.Last(), ch)
  {
    t := EnteringRun(ch, status);
    t := Extend(t, ReadLength(0, length));
    AcceptedLengths(length);
    RunInv(t, |t.steps|);
    GivingUpAbandons(t.Last(), Check(0), ch);
    t := Extend(t, Check(0));
  }

  // ----- What becomes of a message -----

  /** Steps taken one after the other, as long as they can be. */
  function Play(s: State, es: seq<Event>): State
    decreases |es|
  {
    if es == [] || !Enabled(s, es[0]) then s else Play(Step(s, es[0]), es[1..])
  }

  function Enter(c: nat, ch: nat, status: Status): seq<Event> {
    [Begin(c, ch, status), TakeLock(c), ReadBusy(c), SetBusy(c), Unlock(c)]
  }

  /** A core that finds the lock free and is not disturbed: the attempt on a busy channel is refused and changes
      nothing, any other enters. */
  lemma EntersExactly(s: State, c: nat, ch: nat, status: Status)
    requires At(s, c).Idle? && s.holder == NOBODY
    ensures ch in s.busy ==>
              Play(s, [Begin(c, ch, status), TakeLock(c), ReadBusy(c), Unlock(c)]) == Goto(s, c, Refused(ch))
    ensures ch !in s.busy ==>
              Play(s, Enter(c, ch, status)) == Goto(s, c, Entered(ch, status)).(busy := s.busy + {ch})
  {
    var s1 := Goto(s, c, Wants(ch, status));
    var s2 := Goto(s, c, Locked(ch, status)).(holder := c);
    assert Step(s, Begin(c, ch, status)) == s1 && Step(s1, TakeLock(c)) == s2;
    if ch in s.busy {
      var s3 := Goto(s, c, SawBusy(ch)).(holder := c);
      assert Step(s2, ReadBusy(c)) == s3 && Step(s3, Unlock(c)) == Goto(s, c, Refused(ch));
      PlayFour(s, s1, s2, s3, Begin(c, ch, status), TakeLock(c), ReadBusy(c), Unlock(c));
    } else {
      var s3 := Goto(s, c, SawFree(ch, status)).(holder := c);
      var s4 := Goto(s, c, GotIt(ch, status)).(holder := c, busy := s.busy + {ch});
      assert Step(s2, ReadBusy(c)) == s3 && Step(s3, SetBusy(c)) == s4;
      assert Enter(c, ch, status)[1..] == [TakeLock(c), ReadBusy(c), SetBusy(c), Unlock(c)];
      PlayFour(s1, s2, s3, s4, TakeLock(c), ReadBusy(c), SetBusy(c), Unlock(c));
    }
  }

  lemma PlayFour(s: State, s1: State, s2: State, s3: State, a: Event, b: Event, c: Event, d: Event)
    requires Follows(s, a, s1) && Follows(s1, b, s2) && Follows(s2, c, s3) && Enabled(s3, d)
    ensures Play(s, [a, b, c, d]) == Step(s3, d)
  {
    assert [a, b, c, d][1..] == [b, c, d] && [b, c, d][1..] == [c, d] && [c, d][1..] == [d];
    assert Play(s3, [d]) == Step(s3, d) by { assert [d][1..] == []; }
    assert Play(s2, [c, d]) == Step(s3, d);
    assert Play(s1, [b, c, d]) == Step(s3, d);
  }

  /** A core inside: a message with a length field from 4 to 96 and neither error nor free in its status is copied
      without its header, processed, and the channel is free again; any other is refused and the channel stays busy. */
  lemma ServedExactly(s: State, c: nat, ch: nat, status: Status, length: nat)
    requires At(s, c) == Entered(ch, status) && length < U32
    ensures var s1 := Play(s, [ReadLength(c, length), Check(c)]);
            if 4 <= length <= PAYLOAD_MAX + 4 && !status.error && !status.free then
              && s1 == Goto(s, c, Copied(ch, length - 4))
              && Play(s1, [Process(c), ClearBusy(c)]) == Goto(s, c, Finished(ch)).(busy := s.busy - {ch})
            else s1 == Goto(s, c, Refused(ch))
  {
    AcceptedLengths(length);
    PlayTwo(s, Goto(s, c, Sized(ch, status, PayloadSize(length))), ReadLength(c, length), Check(c));
    var s1 := Play(s, [ReadLength(c, length), Check(c)]);
    if At(s1, c).Copied? {
      PlayTwo(s1, Goto(s, c, Answered(ch)), Process(c), ClearBusy(c));
    }
  }

  lemma PlayTwo(s: State, s1: State, a: Event, b: Event)
    requires Follows(s, a, s1) && Enabled(s1, b)
    ensures Play(s, [a, b]) == Step(s1, b)
  {
    assert [a, b][1..] == [b];
    assert Play(s1, [b]) == Step(s1, b) by { assert [b][1..] == []; }
  }

  // ----- Nobody is stuck -----

  /** The lock has an owner that is in the critical section. */
  ghost predicate Owned(s: State) { s.holder == NOBODY || (s.holder >= 0 && HoldsLock(At(s, s.holder))) }

  lemma StepOwned(s: State, e: Event)
    requires Inv(s) && Owned(s) && Enabled(s, e)
    ensures Owned(Step(s, e))
  {
    assert HoldsLock(At(s, e.core)) ==> s.holder == e.core;
  }

  lemma RunOwned(t: Trace, n: nat)
    requires IsRun(t) && n < |t.points|
    ensures Owned(t.points[n])
  {
    forall i | 0 < i < |t.points| && Owned(t.points[i - 1])
      ensures Owned(t.points[i])
    {
      RunInv(t, i - 1);
      assert Follows(t.points[i - 1], t.steps[i - 1], t.points[i]);
      StepOwned(t.points[i - 1], t.steps[i - 1]);
    }
    Runs.Along(t.points, (s: State) => Owned(s), n);
  }

  /** The next step of a core that is serving a message. */
  function Next(c: nat, pc: Pc): Event
    requires !pc.Idle?
  {
    match pc
    case Wants(_, _) => TakeLock(c)
    case Locked(_, _) => ReadBusy(c)
    case SawFree(_, _) => SetBusy(c)
    case GotIt(_, _) => Unlock(c)
    case SawBusy(_) => Unlock(c)
    case Entered(_, _) => ReadLength(c, 0)
    case Sized(_, _, _) => Check(c)
    case Copied(_, _) => Process(c)
    case Answered(_) => ClearBusy(c)
    case Refused(_) => Leave(c)
    case Finished(_) => Leave(c)
  }

  /** At every point of every run each core that serves a message can take its next step, or waits for the lock, and
      then the core that has it can. */
  lemma NobodyStuck(t: Trace, n: nat, c: nat)
    requires IsRun(t) && n < |t.points| && !At(t.points[n], c).Idle?
    ensures var s := t.points[n];
            || Enabled(s, Next(c, At(s, c)))
            || (At(s, c).Wants? && s.holder >= 0 && HoldsLock(At(s, s.holder)) &&
                Enabled(s, Next(s.holder, At(s, s.holder))))
  {
    RunOwned(t, n);
  }
}
