/** Runs whose callers fit: the secure world calls exactly while a secure image is EXECUTED.  Whether such runs keep
    copied images intact depends on the platform; here, the platforms on which they do.

    A copied image can lose bytes only to the reset of an image that was authenticated in place and still counts bytes
    it once had copied.  For a secure image that takes a secure caller, and so a third party in memory. */
module FwuFitting {
  import opened FwuModel
  import opened FwuInvariant
  import opened FwuScan
  import opened FwuIntegrity
  import opened FwuRegimes
  import Runs

  // ----- Callers -----

  /** The processor is in the secure world: only execution, resumption and completion of a secure image switch it. */
  ghost predicate SecureRuns(s: State) {
    s.secExec in s.descs && s.descs[s.secExec].state == Executed
  }

  /** The caller is the world that runs. */
  ghost predicate Fits(s: State, c: Call) {
    c.caller == Secure <==> SecureRuns(s)
  }

  ghost predicate FittingRun(t: Trace) {
    forall i {:trigger t.steps[i]} :: 0 <= i < |t.steps| && i < |t.points| ==> Fits(t.points[i].state, t.steps[i])
  }

  // ----- Platforms -----

  /** A secure image that can execute, and one that can be copied first, when nothing runs yet. */
  ghost predicate Agent(cfg: Config, e: nat) {
    e in cfg.images && cfg.images[e].world == Secure && cfg.images[e].executable
  }

  ghost predicate Launch(cfg: Config, e: nat) { Agent(cfg, e) && cfg.images[e].maxSize > 0 }

  ghost predicate HasLaunch(cfg: Config) { exists e :: Launch(cfg, e) }

  ghost predicate HasOther(cfg: Config, e: nat) { exists e' :: Agent(cfg, e') && e' != e }

  /** Image `e`, authenticated in place as one of two bytes, passes the overlap check of the first byte of `b`. */
  ghost predicate ClearOf(cfg: Config, e: nat, b: nat)
    requires e in cfg.images && b in cfg.images
  {
    cfg.images[e].base + 1 <= UINTPTR_MAX && !(cfg.images[e].base <= cfg.images[b].base <= cfg.images[e].base + 1)
  }

  /** An image that can execute can be in memory beside a copy of `b`: both are copied, one of them with more than one
      byte, or it is authenticated in place by another one. */
  ghost predicate Beside(cfg: Config, e: nat, b: nat) {
    && Agent(cfg, e) && b in cfg.images
    && ((cfg.images[e].maxSize > 0 && (cfg.images[e].maxSize >= 2 || cfg.images[b].maxSize >= 2)) ||
        (HasLaunch(cfg) && HasOther(cfg, e) && ClearOf(cfg, e, b)))
  }

  /** Image `b` can lose bytes to image `a`: it can execute itself; or it can be copied behind the first two bytes of
      `a` after `a` was authenticated in place; or there are three slots, and an image that can execute beside it. */
  ghost predicate Endangers(cfg: Config, a: nat, b: nat) {
    && Clash(cfg, a, b)
    && (Agent(cfg, b) ||
        (HasLaunch(cfg) && cfg.images[a].base + 2 <= cfg.images[b].base) ||
        (cfg.slots >= 3 && exists e :: Beside(cfg, e, b)))
  }

  ghost predicate Fragile(cfg: Config) {
    cfg.slots >= 2 && exists a, b :: Endangers(cfg, a, b)
  }

  // ----- The invariant -----

  ghost predicate InClash(cfg: Config, b: nat) { exists a :: Clash(cfg, a, b) }

  ghost predicate OutOfReset(p: Point, x: nat) { x in p.state.descs && p.state.descs[x].state != Reset }

  ghost predicate CopiedIn(p: Point, x: nat) {
    x in p.state.descs && x in p.history && ByCopy(p.state.descs[x], p.history[x])
  }

  /** Nothing secure is authenticated in place, and nothing that can execute gets into memory, before there is an image
      to launch; what is authenticated in place has a size, and if it can execute it is not the only one; and with three
      slots no image that can execute is in memory beside a copy of an image that shares addresses. */
  ghost predicate Guard(cfg: Config, p: Point)
    requires Matching(cfg, p)
  {
    && (!HasLaunch(cfg) ==> forall x :: x in cfg.images && cfg.images[x].world == Secure ==>
          !InPlace(p.state.descs[x], p.history[x]) && (Agent(cfg, x) ==> !OutOfReset(p, x)))
    && (forall x :: x in cfg.images && x != cfg.boot && InPlace(p.state.descs[x], p.history[x]) ==>
          p.state.descs[x].imageSize > 0)
    && (forall e :: Agent(cfg, e) && InPlace(p.state.descs[e], p.history[e]) ==> HasOther(cfg, e))
    && (cfg.slots >= 3 ==> forall e, b :: Agent(cfg, e) && OutOfReset(p, e) && CopiedIn(p, b) ==> !InClash(cfg, b))
  }

  lemma GuardGentle(cfg: Config, p: Point, p': Point)
    requires Matching(cfg, p) && Matching(cfg, p') && Guard(cfg, p) && Gentle(cfg, p, p')
    ensures Guard(cfg, p')
  {
    forall x | x in cfg.images
      ensures OutOfReset(p', x) ==> OutOfReset(p, x)
      ensures CopiedIn(p', x) ==> CopiedIn(p, x)
      ensures InPlace(p'.state.descs[x], p'.history[x]) ==>
                InPlace(p.state.descs[x], p.history[x]) && p'.state.descs[x].imageSize == p.state.descs[x].imageSize
    {
      assert GentleAt(p.state.descs[x], p.history[x], p'.state.descs[x], p'.history[x]);
    }
  }

  // ----- A first copy -----

  /** Beside an image that can execute nothing that shares addresses gets past the overlap check. */
  lemma CopyNotBeside(cfg: Config, p: Point, c: Call, e: nat)
    requires !Fragile(cfg) && cfg.slots >= 3 && Tracked(cfg, p.state) && Integrity(cfg, p) && Guard(cfg, p)
    requires FirstCopy(cfg, p.state, c) && Agent(cfg, e) && OutOfReset(p, e) && e != c.id
    ensures !InClash(cfg, c.id)
  {
    FirstCopyFacts(cfg, p.state, c);
    assert Content(cfg.images[e], p.state.descs[e], p.history[e], p.state.mem);
    assert e in Ids(p.state.loaded);
    assert p.state.descs[e].imageSize > 0;
    ClearMeansApart(cfg, p.state, c, e);
    if a :| Clash(cfg, a, c.id) {
      assert Beside(cfg, e, c.id);
      assert Endangers(cfg, a, c.id);
    }
  }

  /** An image that can execute is not copied beside one that shares addresses. */
  lemma AgentNotBeside(cfg: Config, p: Point, c: Call, b: nat)
    requires !Fragile(cfg) && cfg.slots >= 3 && Tracked(cfg, p.state) && Integrity(cfg, p)
    requires FirstCopy(cfg, p.state, c) && Agent(cfg, c.id)
    requires b in cfg.images && b != c.id && ByCopy(p.state.descs[b], p.history[b])
    ensures !InClash(cfg, b)
  {
    FirstCopyFacts(cfg, p.state, c);
    assert Content(cfg.images[b], p.state.descs[b], p.history[b], p.state.mem);
    assert b in Ids(p.state.loaded);
    ClearMeansApart(cfg, p.state, c, b);
    if a :| Clash(cfg, a, b) {
      assert Beside(cfg, c.id, b);
      assert Endangers(cfg, a, b);
    }
  }

  lemma AgentsDoNotClash(cfg: Config, e: nat)
    requires !Fragile(cfg) && cfg.slots >= 2 && Agent(cfg, e)
    ensures !InClash(cfg, e)
  {
    assert forall a :: Clash(cfg, a, e) ==> Endangers(cfg, a, e);
  }

  /** The guard lets an image come in. */
  ghost predicate LetsIn(cfg: Config, p: Point, id: nat, d: Desc, r: Record)
    requires id in cfg.images
  {
    && (Agent(cfg, id) || (InPlace(d, r) && cfg.images[id].world == Secure) ==> HasLaunch(cfg))
    && (InPlace(d, r) ==> d.imageSize > 0 && (Agent(cfg, id) ==> HasOther(cfg, id)))
    && (cfg.slots >= 3 && ByCopy(d, r) ==> forall e :: Agent(cfg, e) && OutOfReset(p, e) ==> !InClash(cfg, id))
    && (cfg.slots >= 3 && Agent(cfg, id) ==> !InClash(cfg, id) && forall b :: CopiedIn(p, b) ==> !InClash(cfg, b))
  }

  lemma GuardComesIn(cfg: Config, p: Point, p': Point, id: nat, d: Desc, r: Record)
    requires Matching(cfg, p) && Matching(cfg, p') && Guard(cfg, p)
    requires ComesIn(cfg, p, p', id, d, r) && LetsIn(cfg, p, id, d, r)
    ensures Guard(cfg, p')
  {
    forall x | x in cfg.images && x != id
      ensures OutOfReset(p', x) <==> OutOfReset(p, x)
      ensures CopiedIn(p', x) <==> CopiedIn(p, x)
    {
    }
  }

  lemma CopyLetIn(cfg: Config, p: Point, c: Call, d: Desc, r: Record)
    requires !Fragile(cfg) && Tracked(cfg, p.state) && Integrity(cfg, p) && Guard(cfg, p) && FirstCopy(cfg, p.state, c)
    requires ByCopy(d, r)
    ensures LetsIn(cfg, p, c.id, d, r)
  {
    FirstCopyFacts(cfg, p.state, c);
    assert Agent(cfg, c.id) ==> Launch(cfg, c.id);
    if cfg.slots >= 3 {
      forall e | Agent(cfg, e) && OutOfReset(p, e)
        ensures !InClash(cfg, c.id)
      {
        CopyNotBeside(cfg, p, c, e);
      }
      if Agent(cfg, c.id) {
        AgentsDoNotClash(cfg, c.id);
        forall b | CopiedIn(p, b)
          ensures !InClash(cfg, b)
        {
          AgentNotBeside(cfg, p, c, b);
        }
      }
    }
  }

  lemma GuardCopy(cfg: Config, p: Point, c: Call)
    requires !Fragile(cfg) && Tracked(cfg, p.state) && Integrity(cfg, p) && Guard(cfg, p) && FirstCopy(cfg, p.state, c)
    requires Matching(cfg, Next(cfg, p, c))
    ensures Guard(cfg, Next(cfg, p, c))
  {
    var p' := Next(cfg, p, c);
    CopyComesIn(cfg, p, c);
    CopyLetIn(cfg, p, c, p'.state.descs[c.id], p'.history[c.id]);
    GuardComesIn(cfg, p, p', c.id, p'.state.descs[c.id], p'.history[c.id]);
  }

  // ----- An authentication in place -----

  /** The secure image that called. */
  lemma CallerIsAgent(cfg: Config, s: State, c: Call)
    requires Tracked(cfg, s) && Fits(s, c) && c.caller == Secure
    ensures Agent(cfg, s.secExec) && s.descs[s.secExec].state == Executed && s.secExec in Ids(s.loaded)
  {
  }

  lemma AuthLetIn(cfg: Config, p: Point, c: Call, d: Desc, r: Record)
    requires !Fragile(cfg) && Tracked(cfg, p.state) && Integrity(cfg, p) && Guard(cfg, p) && Fits(p.state, c)
    requires c.Auth? && c.id in cfg.images && p.state.descs[c.id].state == Reset && c.caller == Secure
    requires InPlace(d, r) && d.imageSize > 0
    ensures LetsIn(cfg, p, c.id, d, r)
  {
    CallerIsAgent(cfg, p.state, c);
    var e := p.state.secExec;
    assert OutOfReset(p, e) && e != c.id;
    assert HasLaunch(cfg) && HasOther(cfg, c.id);
    if cfg.slots >= 3 && Agent(cfg, c.id) { AgentsDoNotClash(cfg, c.id); }
  }

  lemma GuardAuth(cfg: Config, p: Point, c: Call)
    requires !Fragile(cfg) && Tracked(cfg, p.state) && Integrity(cfg, p) && Guard(cfg, p)
    requires InPlaceAuth(cfg, p.state, c) && Fits(p.state, c) && Matching(cfg, Next(cfg, p, c))
    ensures Guard(cfg, Next(cfg, p, c))
  {
    var p' := Next(cfg, p, c);
    AuthComesIn(cfg, p, c);
    if c.caller == Secure { AuthLetIn(cfg, p, c, p'.state.descs[c.id], p'.history[c.id]); }
    GuardComesIn(cfg, p, p', c.id, p'.state.descs[c.id], p'.history[c.id]);
  }

  // ----- Calls that fit are safe -----

  lemma FittingCopy(cfg: Config, p: Point, c: Call, x: nat)
    requires !Fragile(cfg) && Tracked(cfg, p.state) && Integrity(cfg, p) && Guard(cfg, p) && FirstCopy(cfg, p.state, c)
    requires x in cfg.images && x != c.id && InPlace(p.state.descs[x], p.history[x])
    ensures Apart(cfg.images[c.id].base, c.size, cfg.images[x].base, p.state.descs[x].copiedSize)
  {
    FirstCopyFacts(cfg, p.state, c);
    if Clash(cfg, x, c.id) {
      assert x in Ids(p.state.loaded);
      ClearMeansApart(cfg, p.state, c, x);
      TwoSlots(p.state.loaded, x, c.id);
      assert !Endangers(cfg, x, c.id) && HasLaunch(cfg);
    } else {
      NoClash(cfg, p.state, x, c.id, c.size);
    }
  }

  lemma FittingAuth(cfg: Config, p: Point, c: Call, x: nat)
    requires !Fragile(cfg) && Tracked(cfg, p.state) && Integrity(cfg, p) && Guard(cfg, p)
    requires InPlaceAuth(cfg, p.state, c) && Fits(p.state, c)
    requires x in cfg.images && x != c.id && ByCopy(p.state.descs[x], p.history[x])
    ensures Apart(cfg.images[x].base, p.state.descs[x].imageSize,
                  cfg.images[c.id].base, p.state.descs[c.id].copiedSize)
  {
    AuthComesIn(cfg, p, c);
    assert Content(cfg.images[x], p.state.descs[x], p.history[x], p.state.mem);
    if Clash(cfg, c.id, x) {
      CallerIsAgent(cfg, p.state, c);
      var e := p.state.secExec;
      assert x in Ids(p.state.loaded);
      TwoSlots(p.state.loaded, x, c.id);
      AgentsDoNotClash(cfg, e);
      assert InClash(cfg, x);
      ThreeSlots(p.state.loaded, e, x, c.id);
      assert OutOfReset(p, e) && CopiedIn(p, x);
    } else {
      NoClash(cfg, p.state, c.id, x, p.state.descs[x].imageSize);
    }
  }

  lemma FittingSafe(cfg: Config, p: Point, c: Call)
    requires !Fragile(cfg) && Tracked(cfg, p.state) && Integrity(cfg, p) && Guard(cfg, p) && Fits(p.state, c)
    ensures SafeCall(cfg, p, c)
  {
    if FirstCopy(cfg, p.state, c) {
      forall x | x in cfg.images && x != c.id && InPlace(p.state.descs[x], p.history[x])
        ensures Apart(cfg.images[c.id].base, c.size, cfg.images[x].base, p.state.descs[x].copiedSize)
      {
        FittingCopy(cfg, p, c, x);
      }
    }
    if InPlaceAuth(cfg, p.state, c) {
      forall x | x in cfg.images && x != c.id && ByCopy(p.state.descs[x], p.history[x])
        ensures Apart(cfg.images[x].base, p.state.descs[x].imageSize,
                      cfg.images[c.id].base, p.state.descs[c.id].copiedSize)
      {
        FittingAuth(cfg, p, c, x);
      }
    }
  }

  // ----- Whole runs -----

  ghost predicate Guarded(cfg: Config, p: Point) {
    Tracked(cfg, p.state) && Integrity(cfg, p) && Guard(cfg, p)
  }

  lemma GuardStep(cfg: Config, p: Point, c: Call)
    requires !Fragile(cfg) && Guarded(cfg, p) && Sound(cfg, p) && Fits(p.state, c) && Step(cfg, p.state, c).Return?
    requires Matching(cfg, Next(cfg, p, c))
    ensures Guard(cfg, Next(cfg, p, c))
  {
    if FirstCopy(cfg, p.state, c) {
      GuardCopy(cfg, p, c);
    } else if InPlaceAuth(cfg, p.state, c) {
      GuardAuth(cfg, p, c);
    } else {
      StepKinds(cfg, p, c);
      GuardGentle(cfg, p, Next(cfg, p, c));
    }
  }

  lemma FittingStep(cfg: Config, p: Point, c: Call, p': Point)
    requires !Fragile(cfg) && Guarded(cfg, p) && Follows(cfg, p, c, p') && Fits(p.state, c)
    ensures Guarded(cfg, p')
  {
    FollowsTracked(cfg, p, c, p');
    FittingSafe(cfg, p, c);
    StepIntegrity(cfg, p, c);
    GuardStep(cfg, p, c);
  }

  lemma StartGuarded(cfg: Config)
    requires WellFormed(cfg)
    ensures Guarded(cfg, Start(cfg))
  {
    StartIntegrity(cfg);
  }

  lemma CallGuarded(cfg: Config, t: Trace, n: nat)
    requires !Fragile(cfg) && IsRun(cfg, t) && FittingRun(t) && 0 < n < |t.points| && Guarded(cfg, t.points[n - 1])
    ensures Guarded(cfg, t.points[n])
  {
    FittingStep(cfg, t.points[n - 1], t.steps[n - 1], t.points[n]);
  }

  lemma {:induction false} RunGuarded(cfg: Config, t: Trace, n: nat)
    requires WellFormed(cfg) && !Fragile(cfg) && IsRun(cfg, t) && FittingRun(t) && n < |t.points|
    ensures Guarded(cfg, t.points[n])
  {
    if n == 0 {
      StartGuarded(cfg);
    } else {
      RunGuarded(cfg, t, n - 1);
      CallGuarded(cfg, t, n);
    }
  }

  /** On a platform that is not fragile every run with fitting callers keeps copied images intact. */
  lemma FittingRunsIntact(cfg: Config, t: Trace, n: nat)
    requires WellFormed(cfg) && !Fragile(cfg) && IsRun(cfg, t) && FittingRun(t) && n < |t.points|
    ensures Matching(cfg, t.points[n]) && AllIntact(cfg, t.points[n])
    ensures forall a, b :: a in cfg.images && b in cfg.images ==> PairApart(cfg, t.points[n], a, b)
  {
    RunGuarded(cfg, t, n);
    IntegrityMeansIntact(cfg, t.points[n]);
  }

  // ----- At most one secure image executes -----

  /** A secure image that executes is the one to resume. */
  ghost predicate OneRuns(cfg: Config, s: State) {
    forall x :: x in cfg.images && x in s.descs && cfg.images[x].world == Secure && s.descs[x].state == Executed ==>
      x == s.secExec
  }

  /** Whatever executes did so before. */
  ghost predicate StartsNothing(s: State, s': State) {
    && s'.secExec == s.secExec
    && forall x :: x in s'.descs && s'.descs[x].state == Executed ==> x in s.descs && s.descs[x].state == Executed
  }

  /** Copying and authentication start nothing. */
  lemma CopyStartsNothing(cfg: Config, s: State, c: Call)
    requires Basic(cfg, s) && c.Copy? && CopyStep(cfg, s, c).Return?
    ensures StartsNothing(s, CopyStep(cfg, s, c).state)
  {
    if c.id in cfg.images {
      CopyFrame(cfg, s, c);
      assert CopyStep(cfg, s, c).state.descs[c.id].state == Executed ==> s.descs[c.id].state == Executed;
    }
  }

  lemma AuthStartsNothing(cfg: Config, s: State, c: Call)
    requires Basic(cfg, s) && c.Auth? && AuthStep(cfg, s, c).Return?
    ensures StartsNothing(s, AuthStep(cfg, s, c).state)
  {
  }

  lemma ControlOneRuns(cfg: Config, s: State, c: Call)
    requires Tracked(cfg, s) && OneRuns(cfg, s) && Fits(s, c) && !c.Copy? && !c.Auth? && Step(cfg, s, c).Return?
    ensures OneRuns(cfg, Step(cfg, s, c).state)
  {
  }

  lemma OneRunsStep(cfg: Config, s: State, c: Call)
    requires Tracked(cfg, s) && OneRuns(cfg, s) && Fits(s, c) && Step(cfg, s, c).Return?
    ensures OneRuns(cfg, Step(cfg, s, c).state)
  {
    if c.Copy? {
      CopyStartsNothing(cfg, s, c);
    } else if c.Auth? {
      AuthStartsNothing(cfg, s, c);
    } else {
      ControlOneRuns(cfg, s, c);
    }
  }

  lemma RunOneRuns(cfg: Config, t: Trace, n: nat)
    requires WellFormed(cfg) && IsRun(cfg, t) && FittingRun(t) && n < |t.points|
    ensures Tracked(cfg, t.points[n].state) && OneRuns(cfg, t.points[n].state)
  {
    InitTracked(cfg);
    forall i | 0 < i < |t.points| && Tracked(cfg, t.points[i - 1].state) && OneRuns(cfg, t.points[i - 1].state)
      ensures Tracked(cfg, t.points[i].state) && OneRuns(cfg, t.points[i].state)
    {
      FollowsTracked(cfg, t.points[i - 1], t.steps[i - 1], t.points[i]);
      OneRunsStep(cfg, t.points[i - 1].state, t.steps[i - 1]);
    }
    Runs.Along(t.points, (p: Point) => Tracked(cfg, p.state) && OneRuns(cfg, p.state), n);
  }
}
