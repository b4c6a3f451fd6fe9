/** Which calls of the firmware-update service end in a failed assertion or a platform panic: the exact condition
    for every call, and runs that get there. */
module FwuStops {
  import opened Common
  import opened FwuModel
  import opened FwuInvariant
  import opened FwuScan
  import opened FwuIntegrity
  import opened FwuFitting
  import opened FwuScript

  // ----- Every call -----

  /** An authentication that gets as far as the verification of the image. */
  ghost predicate ReachesVerification(cfg: Config, s: State, c: Call)
    requires Basic(cfg, s) && c.Auth?
  {
    && c.id in cfg.images
    && (if c.caller == NonSecure && cfg.images[c.id].world == Secure then s.descs[c.id].state == Copied
        else
          && s.descs[c.id].state == Reset
          && c.src != 0 && c.size > 0 && c.src + c.size - 1 <= UINTPTR_MAX && c.mapped
          && (c.id in s.loaded || INVALID_IMAGE_ID in s.loaded))
  }

  /** The call ends the run. */
  ghost predicate Stops(cfg: Config, s: State, c: Call)
    requires Basic(cfg, s)
  {
    match c
    case Copy(id, _, _, size, _, _, _) =>
      FirstRequest(cfg, s, c) && FailsScan(cfg, s.descs, s.loaded, id, size)
    case Auth(_, _, _, _, _, verified, hookOk) => ReachesVerification(cfg, s, c) && verified && !hookOk
    case Execute(_, _) => false
    case Resume(Secure) => s.secExec !in cfg.images || s.descs[s.secExec].state != Executed
    case Resume(NonSecure) => s.secExec in cfg.images && s.descs[s.secExec].state != Interrupted
    case SecImageDone(caller) => caller == Secure && (s.secExec !in cfg.images || s.descs[s.secExec].state != Executed)
    case ResetImage(id, caller) => caller == NonSecure && id in cfg.images && s.descs[id].state == Executed
  }

  lemma CopyStops(cfg: Config, s: State, c: Call)
    requires Tracked(cfg, s) && c.Copy?
    ensures CopyStep(cfg, s, c).Stop? <==> Stops(cfg, s, c)
  {
    if FirstRequest(cfg, s, c) {
      var sized := s.descs[c.id].(imageSize := c.size);
      TrackedIds(cfg, s);
      ScanTrips(cfg, s.descs[c.id := sized], s.loaded, c.id, c.size);
      OwnSizeIgnored(cfg, s.descs, s.loaded, c.id, sized, c.size);
      CopyAsksCheck(cfg, s, c);
    } else {
      CopyPassesBy(cfg, s, c);
    }
  }

  /** A first request stops exactly if the overlap check fails an assertion, */
  lemma CopyAsksCheck(cfg: Config, s: State, c: Call)
    requires Basic(cfg, s) && FirstRequest(cfg, s, c)
    ensures CopyStep(cfg, s, c).Stop? <==> Verdict(cfg, s, c) == BadTable
  {
  }

  /** and no other copy request does. */
  lemma CopyPassesBy(cfg: Config, s: State, c: Call)
    requires Basic(cfg, s) && c.Copy? && !FirstRequest(cfg, s, c)
    ensures CopyStep(cfg, s, c).Return?
  {
  }

  lemma AuthStops(cfg: Config, s: State, c: Call)
    requires Tracked(cfg, s) && c.Auth?
    ensures AuthStep(cfg, s, c).Stop? <==> Stops(cfg, s, c)
  {
    if c.id in cfg.images { AddFacts(s.loaded, c.id); }
  }

  /** Every call of the service, in every state a run can reach: it ends the run exactly under the condition read
      off the state and the call.  The assertions on the world and the executability of the image to resume, on its
      being listed, and on the world of an image with copied bytes never fail. */
  lemma StopsExactly(cfg: Config, s: State, c: Call)
    requires Tracked(cfg, s)
    ensures Step(cfg, s, c).Stop? <==> Stops(cfg, s, c)
  {
    if c.Copy? {
      CopyStops(cfg, s, c);
    } else if c.Auth? {
      AuthStops(cfg, s, c);
    } else if c.SecImageDone? && s.secExec in cfg.images {
      RemoveFacts(s.loaded, s.secExec);
    }
  }

  /** The next call ends a run exactly under that condition. */
  lemma RunStopsExactly(cfg: Config, t: Trace, c: Call)
    requires WellFormed(cfg) && IsRun(cfg, t)
    ensures Basic(cfg, t.Last().state) && (Step(cfg, t.Last().state, c).Stop? <==> Stops(cfg, t.Last().state, c))
  {
    RunTracked(cfg, t, |t.points| - 1);
    StopsExactly(cfg, t.Last().state, c);
  }

  // ----- Calls that fit -----

  /** With a caller that fits, the secure side never stops: what is left is a copy that trips the overlap check, an
      image refused by the post-load hook, the resumption of an image that is not interrupted, and the reset of the
      boot-time image. */
  ghost predicate FittingStops(cfg: Config, s: State, c: Call)
    requires Basic(cfg, s)
  {
    match c
    case Copy(_, _, _, _, _, _, _) => Stops(cfg, s, c)
    case Auth(_, _, _, _, _, _, _) => Stops(cfg, s, c)
    case Execute(_, _) => false
    case Resume(caller) =>
      caller == NonSecure && s.secExec in cfg.images && s.descs[s.secExec].state != Interrupted
    case SecImageDone(_) => false
    case ResetImage(id, caller) => caller == NonSecure && id == cfg.boot
  }

  lemma FittingStopsExactly(cfg: Config, t: Trace, c: Call)
    requires WellFormed(cfg) && IsRun(cfg, t) && FittingRun(t) && Fits(t.Last().state, c)
    ensures Basic(cfg, t.Last().state) &&
            (Step(cfg, t.Last().state, c).Stop? <==> FittingStops(cfg, t.Last().state, c))
  {
    RunOneRuns(cfg, t, |t.points| - 1);
    StopsExactly(cfg, t.Last().state, c);
  }

  // ----- Runs that end so -----

  /** A request for all of image `id`. */
  function WholeCopy(cfg: Config, id: nat, hookOk: bool): Call
    requires WellFormed(cfg) && id in cfg.images
  {
    Copy(id, 1, Ones(cfg.images[id].maxSize), cfg.images[id].maxSize, NonSecure, true, hookOk)
  }

  /** The only listed image is in RESET or has one byte. */
  lemma TrippedBy(cfg: Config, s: State, a: nat, b: nat)
    requires Tracked(cfg, s) && a in cfg.images && b in cfg.images && a != b && Ids(s.loaded) == {a}
    requires cfg.images[b].world == Secure && cfg.images[b].maxSize > 0 && s.descs[b].state == Reset
    requires s.descs[a].state == Reset || s.descs[a].imageSize == 1
    ensures Step(cfg, s, WholeCopy(cfg, b, true)).Stop?
  {
    var k := SlotOf(s.loaded, a);
    assert a in Ids(s.loaded);
    assert forall j :: 0 <= j < |s.loaded| ==> s.loaded[j] == INVALID_IMAGE_ID || s.loaded[j] in Ids(s.loaded);
    assert TripsAt(cfg, s.descs, s.loaded, b, cfg.images[b].maxSize, k);
    StopsExactly(cfg, s, WholeCopy(cfg, b, true));
  }

  /** On every platform with two secure images: one byte of the first is copied as a whole image, and the request
      for the second fails the assertion that the end of the first lies above its base. */
  lemma OneByteRun(cfg: Config, a: nat, b: nat) returns (p: Point)
    requires WellFormed(cfg) && cfg.slots >= 1 && a in cfg.images && b in cfg.images && a != b
    requires cfg.images[a].world == Secure && cfg.images[a].maxSize > 0
    requires cfg.images[b].world == Secure && cfg.images[b].maxSize > 0
    ensures Reached(cfg, p) && Basic(cfg, p.state) && Fits(p.state, WholeCopy(cfg, b, true))
    ensures Step(cfg, p.state, WholeCopy(cfg, b, true)).Stop?
  {
    Begin(cfg);
    assert Ids(Start(cfg).state.loaded) == {};
    p := DoCopy(cfg, Start(cfg), a, 1);
    ReachedFacts(cfg, p);
    TrippedBy(cfg, p.state, a, b);
  }

  /** The pre-load hook refuses a first copy with nothing loaded. */
  lemma RefusedFirst(cfg: Config, id: nat) returns (p: Point)
    requires WellFormed(cfg) && cfg.slots >= 1
    requires id in cfg.images && cfg.images[id].world == Secure && cfg.images[id].maxSize > 0
    ensures Follows(cfg, Start(cfg), WholeCopy(cfg, id, false), p) && Ids(p.state.loaded) == {id}
    ensures p.state.descs == Init(cfg).descs[id := Desc(Reset, 0, cfg.images[id].maxSize)]
    ensures p.state.secExec == INVALID_IMAGE_ID
  {
    var s, c := Init(cfg), WholeCopy(cfg, id, false);
    InitTracked(cfg);
    assert Ids(s.loaded) == {};
    VerdictClear(cfg, s, c);
    AddFits(cfg, s, id);
    p := Next(cfg, Start(cfg), c);
  }

  /** On every platform with a secure image there is a run that leaves it listed in RESET, and the request for any
      other secure image then fails the assertion that listed images have left RESET. */
  lemma RefusedHookRun(cfg: Config, a: nat) returns (p: Point)
    requires WellFormed(cfg) && cfg.slots >= 1 && a in cfg.images
    requires cfg.images[a].world == Secure && cfg.images[a].maxSize > 0
    ensures Reached(cfg, p) && Basic(cfg, p.state) && !SecureRuns(p.state)
    ensures a in Ids(p.state.loaded) && p.state.descs[a].state == Reset
    ensures forall b :: b in cfg.images && b != a && cfg.images[b].world == Secure && cfg.images[b].maxSize > 0 ==>
              Step(cfg, p.state, WholeCopy(cfg, b, true)).Stop?
  {
    Begin(cfg);
    p := RefusedFirst(cfg, a);
    Play(cfg, Start(cfg), WholeCopy(cfg, a, false), p);
    ReachedFacts(cfg, p);
    forall b | b in cfg.images && b != a && cfg.images[b].world == Secure && cfg.images[b].maxSize > 0
      ensures Step(cfg, p.state, WholeCopy(cfg, b, true)).Stop?
    {
      TrippedBy(cfg, p.state, a, b);
    }
  }

  /** An image is executed, interrupted and reset: it is still the one to resume. */
  lemma ResetInterrupted(cfg: Config, e: nat) returns (p: Point)
    requires WellFormed(cfg) && cfg.slots >= 1 && Launch(cfg, e)
    ensures NormalTurn(cfg, p) && p.state.descs[e] == Desc(Reset, 0, 0) && p.state.secExec == e
  {
    Begin(cfg);
    assert Ids(Start(cfg).state.loaded) == {};
    p := DoLoad(cfg, Start(cfg), e, cfg.images[e].maxSize);
    p := DoExecute(cfg, p, e);
    p := DoYield(cfg, p);
    p := DoReset(cfg, p, e);
  }

  /** On every platform with a secure image to launch: after that the normal world asks to resume it.  The state
      assertion fails where -EPERM is documented. */
  lemma StaleResumeRun(cfg: Config, e: nat) returns (p: Point)
    requires WellFormed(cfg) && cfg.slots >= 1 && Launch(cfg, e)
    ensures Reached(cfg, p) && Basic(cfg, p.state) && Fits(p.state, Resume(NonSecure))
    ensures p.state.descs[e].state == Reset && Step(cfg, p.state, Resume(NonSecure)).Stop?
  {
    p := ResetInterrupted(cfg, e);
  }
}
