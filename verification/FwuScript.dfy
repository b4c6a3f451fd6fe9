/** Runs of the firmware-update service put together call by call, each with a caller that fits. */
module FwuScript {
  import opened Bytes
  import opened Common
  import opened FwuModel
  import opened FwuInvariant
  import opened FwuScan
  import opened FwuIntegrity
  import opened FwuFitting
  import Runs

  function Ones(n: nat): (z: seq<byte>)
    ensures |z| == n && forall i :: 0 <= i < n ==> z[i] == 1
  {
    seq(n, _ => 1)
  }

  // ----- Runs -----

  lemma Extend(cfg: Config, t: Trace, c: Call, p: Point) returns (t': Trace)
    requires IsRun(cfg, t) && FittingRun(t) && Follows(cfg, t.Last(), c, p) && Fits(t.Last().state, c)
    ensures IsRun(cfg, t') && FittingRun(t') && t'.Last() == p
  {
    t' := t.Then(c, p);
    assert t'.points[|t.steps|] == t.Last();
    forall i | 0 <= i < |t'.steps|
      ensures Follows(cfg, t'.points[i], t'.steps[i], t'.points[i + 1]) && Fits(t'.points[i].state, t'.steps[i])
    {
      if i < |t.steps| { assert Follows(cfg, t.points[i], t.steps[i], t.points[i + 1]); }
    }
  }

  /** There is a run with fitting callers that ends at this point. */
  ghost predicate Reached(cfg: Config, p: Point) {
    exists t: Trace :: RunsTo(cfg, t, p)
  }

  ghost predicate RunsTo(cfg: Config, t: Trace, p: Point) {
    IsRun(cfg, t) && FittingRun(t) && t.Last() == p
  }

  lemma Begin(cfg: Config)
    ensures Reached(cfg, Start(cfg))
  {
    assert RunsTo(cfg, Runs.Trace([], [Start(cfg)]), Start(cfg));
  }

  lemma Play(cfg: Config, p: Point, c: Call, p': Point)
    requires WellFormed(cfg) && Reached(cfg, p) && Follows(cfg, p, c, p') && Fits(p.state, c)
    ensures Reached(cfg, p') && Sound(cfg, p')
  {
    var t: Trace :| RunsTo(cfg, t, p);
    var t' := Extend(cfg, t, c, p');
    assert RunsTo(cfg, t', p');
    RunSound(cfg, t');
  }

  lemma ReachedFacts(cfg: Config, p: Point)
    requires WellFormed(cfg) && Reached(cfg, p)
    ensures Tracked(cfg, p.state) && Sound(cfg, p)
  {
    var t: Trace :| RunsTo(cfg, t, p);
    RunTracked(cfg, t, |t.steps|);
    RunSound(cfg, t);
  }

  lemma RunSound(cfg: Config, t: Trace)
    requires WellFormed(cfg) && IsRun(cfg, t)
    ensures Sound(cfg, t.Last())
  {
    RunTracked(cfg, t, |t.steps|);
    if |t.steps| > 0 {
      var n := |t.steps| - 1;
      NoteKeys(cfg, t.points[n], t.steps[n]);
    }
  }

  lemma NoteKeys(cfg: Config, p: Point, c: Call)
    requires Sound(cfg, p) && Step(cfg, p.state, c).Return?
    ensures Next(cfg, p, c).history.Keys == cfg.images.Keys
  {
    if c.Copy? && CopyStep(cfg, p.state, c).status == Ok { CopyOk(cfg, p.state, c); }
  }

  /** A table with fewer ids than slots has a free slot. */
  lemma {:induction false} FreeSlot(loaded: seq<nat>)
    requires |Ids(loaded)| < |loaded| && NoDuplicates(loaded)
    ensures INVALID_IMAGE_ID in loaded
    decreases |loaded|
  {
    var n := |loaded| - 1;
    var init, last := loaded[..n], loaded[n];
    assert loaded == init + [last];
    if last != INVALID_IMAGE_ID && INVALID_IMAGE_ID !in loaded {
      assert last !in init;
      assert Ids(loaded) == Ids(init) + {last};
      if n > 0 { FreeSlot(init); }
    }
  }

  lemma AddFits(cfg: Config, s: State, id: nat)
    requires Tracked(cfg, s) && id in cfg.images && |Ids(s.loaded)| < cfg.slots
    ensures AddLoadedId(s.loaded, id).0 && Ids(AddLoadedId(s.loaded, id).1) == Ids(s.loaded) + {id}
  {
    FreeSlot(s.loaded);
    AddFacts(s.loaded, id);
  }

  // ----- Single calls: the state -----

  /** A first request for a whole image that nothing stands against. */
  lemma CopySucceeds(cfg: Config, s: State, c: Call)
    requires Basic(cfg, s) && FirstRequest(cfg, s, c) && Verdict(cfg, s, c) == Clear && |c.block| == c.size
    requires c.mapped && c.hookOk && AddLoadedId(s.loaded, c.id).0
    ensures CopyStep(cfg, s, c).Return? && CopyStep(cfg, s, c).status == Ok
    ensures CopyStep(cfg, s, c).state ==
            s.(descs := s.descs[c.id := Desc(Copied, c.size, c.size)], loaded := AddLoadedId(s.loaded, c.id).1,
               mem := Splice(s.mem, cfg.images[c.id].base, c.block))
  {
  }

  /** An authentication in place that nothing stands against. */
  lemma InPlaceSucceeds(cfg: Config, s: State, id: nat)
    requires Basic(cfg, s) && id in cfg.images && s.descs[id].state == Reset && AddLoadedId(s.loaded, id).0
    ensures var r := AuthStep(cfg, s, Auth(id, 1, 2, Secure, true, true, true));
            r.Return? && r.status == Ok &&
            r.state == s.(descs := s.descs[id := Desc(Authenticated, s.descs[id].copiedSize, 2)],
                          loaded := AddLoadedId(s.loaded, id).1)
  {
  }

  lemma WriteTwice<V>(m: map<nat, V>, k: nat, a: V, b: V)
    ensures m[k := a][k := b] == m[k := b]
  {
  }

  /** The point a whole copy leads to. */
  function CopiedPoint(cfg: Config, p: Point, id: nat, size: u32): Point
    requires Basic(cfg, p.state) && id in cfg.images && size <= cfg.images[id].maxSize
  {
    Point(p.state.(descs := p.state.descs[id := Desc(Copied, size, size)],
                   loaded := AddLoadedId(p.state.loaded, id).1,
                   mem := Splice(p.state.mem, cfg.images[id].base, Ones(size))),
          p.history[id := Record(true, [Ones(size)], [])])
  }

  lemma WholeCopy(cfg: Config, p: Point, c: Call)
    requires Sound(cfg, p) && FirstRequest(cfg, p.state, c) && Verdict(cfg, p.state, c) == Clear
    requires c.block == Ones(c.size) && c.mapped && c.hookOk && AddLoadedId(p.state.loaded, c.id).0
    ensures Follows(cfg, p, c, CopiedPoint(cfg, p, c.id, c.size))
  {
    CopySucceeds(cfg, p.state, c);
    CopyNoted(cfg, p, c);
    assert Moved(p.state.descs[c.id], c) == c.block;
    assert [] + [c.block] == [c.block];
  }

  /** The overlap check goes on from every listed image. */
  ghost predicate NothingInTheWay(cfg: Config, s: State, id: nat, size: nat)
    requires id in cfg.images
  {
    forall x :: x in Ids(s.loaded) ==> GoesOn(cfg, s.descs, id, size, x)
  }

  lemma CopyFollows(cfg: Config, p: Point, c: Call)
    requires Sound(cfg, p) && Tracked(cfg, p.state) && FirstRequest(cfg, p.state, c)
    requires NothingInTheWay(cfg, p.state, c.id, c.size)
    requires c.block == Ones(c.size) && c.mapped && c.hookOk && AddLoadedId(p.state.loaded, c.id).0
    ensures Follows(cfg, p, c, CopiedPoint(cfg, p, c.id, c.size))
  {
    VerdictClear(cfg, p.state, c);
    WholeCopy(cfg, p, c);
  }

  lemma CopiedRange(cfg: Config, p: Point, id: nat, size: u32)
    requires Basic(cfg, p.state) && id in cfg.images && size <= cfg.images[id].maxSize
    ensures var mem, base := CopiedPoint(cfg, p, id, size).state.mem, cfg.images[id].base;
            |mem| == |p.state.mem| && mem[base..base + size] == Ones(size)
  {
    SpliceParts(p.state.mem, cfg.images[id].base, Ones(size));
  }

  // ----- Single calls of the normal world -----

  /** The situation of a run: reached, with the normal or the secure world to call next. */
  ghost predicate NormalTurn(cfg: Config, p: Point) {
    WellFormed(cfg) && Reached(cfg, p) && Sound(cfg, p) && !SecureRuns(p.state)
  }

  ghost predicate SecureTurn(cfg: Config, p: Point) {
    WellFormed(cfg) && Reached(cfg, p) && Sound(cfg, p) && SecureRuns(p.state)
  }

  lemma CopyReached(cfg: Config, p: Point, id: nat, size: u32)
    requires NormalTurn(cfg, p) && |Ids(p.state.loaded)| < cfg.slots
    requires id in cfg.images && cfg.images[id].world == Secure && 0 < size <= cfg.images[id].maxSize
    requires p.state.descs[id].state == Reset && NothingInTheWay(cfg, p.state, id, size)
    ensures Reached(cfg, CopiedPoint(cfg, p, id, size)) && Sound(cfg, CopiedPoint(cfg, p, id, size))
    ensures Ids(AddLoadedId(p.state.loaded, id).1) == Ids(p.state.loaded) + {id}
  {
    var c := Copy(id, 1, Ones(size), size, NonSecure, true, true);
    ReachedFacts(cfg, p);
    AddFits(cfg, p.state, id);
    CopyFollows(cfg, p, c);
    Play(cfg, p, c, CopiedPoint(cfg, p, id, size));
  }

  /** A whole image is copied in one call. */
  lemma DoCopy(cfg: Config, p: Point, id: nat, size: u32) returns (p': Point)
    requires NormalTurn(cfg, p) && |Ids(p.state.loaded)| < cfg.slots
    requires id in cfg.images && cfg.images[id].world == Secure && 0 < size <= cfg.images[id].maxSize
    requires p.state.descs[id].state == Reset
    requires NothingInTheWay(cfg, p.state, id, size)
    ensures NormalTurn(cfg, p') && Ids(p'.state.loaded) == Ids(p.state.loaded) + {id}
    ensures p'.state.descs == p.state.descs[id := Desc(Copied, size, size)] && p'.state.secExec == p.state.secExec
    ensures p'.history == p.history[id := Record(true, [Ones(size)], [])]
    ensures Range(cfg, p'.state, id, size) == Ones(size)
  {
    CopyReached(cfg, p, id, size);
    p' := CopiedPoint(cfg, p, id, size);
    CopiedRange(cfg, p, id, size);
  }

  /** The authentication of a copied image fails: its count of copied bytes stays. */
  lemma DoRefuse(cfg: Config, p: Point, id: nat) returns (p': Point)
    requires NormalTurn(cfg, p) && id in cfg.images && cfg.images[id].world == Secure
    requires p.state.descs[id].state == Copied
    ensures NormalTurn(cfg, p') && Ids(p'.state.loaded) == Ids(p.state.loaded) - {id}
    ensures p'.state.descs == p.state.descs[id := p.state.descs[id].(state := Reset)]
    ensures p'.state.secExec == p.state.secExec && p'.history == p.history
  {
    var c := Auth(id, 0, 0, NonSecure, true, false, true);
    ReachedFacts(cfg, p);
    RemoveFacts(p.state.loaded, id);
    p' := Next(cfg, p, c);
    Play(cfg, p, c, p');
  }

  /** Or it passes. */
  lemma DoAccept(cfg: Config, p: Point, id: nat) returns (p': Point)
    requires NormalTurn(cfg, p) && id in cfg.images && cfg.images[id].world == Secure
    requires p.state.descs[id].state == Copied
    ensures NormalTurn(cfg, p') && p'.state.loaded == p.state.loaded
    ensures p'.state.descs == p.state.descs[id := p.state.descs[id].(state := Authenticated)]
    ensures p'.state.secExec == p.state.secExec
    ensures p'.history ==
            p.history[id := p.history[id].(passed := Range(cfg, p.state, id, p.state.descs[id].imageSize))]
  {
    var c := Auth(id, 0, 0, NonSecure, true, true, true);
    p' := Next(cfg, p, c);
    Play(cfg, p, c, p');
  }

  /** Copied and authenticated. */
  lemma DoLoad(cfg: Config, p: Point, id: nat, size: u32) returns (p': Point)
    requires NormalTurn(cfg, p) && |Ids(p.state.loaded)| < cfg.slots
    requires id in cfg.images && cfg.images[id].world == Secure && 0 < size <= cfg.images[id].maxSize
    requires p.state.descs[id].state == Reset
    requires NothingInTheWay(cfg, p.state, id, size)
    ensures NormalTurn(cfg, p') && Ids(p'.state.loaded) == Ids(p.state.loaded) + {id}
    ensures p'.state.descs == p.state.descs[id := Desc(Authenticated, size, size)]
    ensures p'.state.secExec == p.state.secExec
    ensures p'.history == p.history[id := Record(true, [Ones(size)], Ones(size))]
  {
    var q := DoCopy(cfg, p, id, size);
    p' := DoAccept(cfg, q, id);
    WriteTwice(p.state.descs, id, Desc(Copied, size, size), Desc(Authenticated, size, size));
    WriteTwice(p.history, id, Record(true, [Ones(size)], []), Record(true, [Ones(size)], Ones(size)));
  }

  lemma DoExecute(cfg: Config, p: Point, id: nat) returns (p': Point)
    requires NormalTurn(cfg, p) && Agent(cfg, id) && p.state.descs[id].state == Authenticated
    ensures SecureTurn(cfg, p') && p'.state.loaded == p.state.loaded
    ensures p'.state.descs == p.state.descs[id := p.state.descs[id].(state := Executed)]
    ensures p'.state.secExec == id && p'.history == p.history
  {
    p' := Next(cfg, p, Execute(id, NonSecure));
    Play(cfg, p, Execute(id, NonSecure), p');
  }

  /** An image that does not execute is reset: as many bytes at its base are cleared as it counts. */
  lemma DoReset(cfg: Config, p: Point, id: nat) returns (p': Point)
    requires NormalTurn(cfg, p) && id in cfg.images && cfg.images[id].world == Secure
    requires p.state.descs[id].state == Authenticated || p.state.descs[id].state == Interrupted
    ensures NormalTurn(cfg, p') && Ids(p'.state.loaded) == Ids(p.state.loaded) - {id}
    ensures p'.state.descs == p.state.descs[id := Desc(Reset, 0, 0)]
    ensures p'.state.secExec == p.state.secExec && p'.history == p.history
    ensures p'.state.mem == Splice(p.state.mem, cfg.images[id].base, Zeros(p.state.descs[id].copiedSize))
  {
    ReachedFacts(cfg, p);
    RemoveFacts(p.state.loaded, id);
    p' := Next(cfg, p, ResetImage(id, NonSecure));
    Play(cfg, p, ResetImage(id, NonSecure), p');
  }

  // ----- Single calls of the secure image that runs -----

  /** It has another secure image, in RESET, authenticated in place as one of two bytes.  The count of copied bytes
      stays as it was. */
  lemma DoInPlace(cfg: Config, p: Point, id: nat) returns (p': Point)
    requires SecureTurn(cfg, p) && |Ids(p.state.loaded)| < cfg.slots
    requires id in cfg.images && cfg.images[id].world == Secure && p.state.descs[id].state == Reset
    ensures SecureTurn(cfg, p') && Ids(p'.state.loaded) == Ids(p.state.loaded) + {id}
    ensures p'.state.descs == p.state.descs[id := Desc(Authenticated, p.state.descs[id].copiedSize, 2)]
    ensures p'.state.secExec == p.state.secExec && p'.history == p.history[id := Record(false, [], [])]
  {
    var c := Auth(id, 1, 2, Secure, true, true, true);
    ReachedFacts(cfg, p);
    AddFits(cfg, p.state, id);
    InPlaceSucceeds(cfg, p.state, id);
    p' := Next(cfg, p, c);
    Play(cfg, p, c, p');
  }

  /** It is interrupted, */
  lemma DoYield(cfg: Config, p: Point) returns (p': Point)
    requires SecureTurn(cfg, p)
    ensures NormalTurn(cfg, p') && p'.state.loaded == p.state.loaded
    ensures p'.state.descs ==
            p.state.descs[p.state.secExec := p.state.descs[p.state.secExec].(state := Interrupted)]
    ensures p'.state.secExec == p.state.secExec && p'.history == p.history
  {
    ReachedFacts(cfg, p);
    p' := Next(cfg, p, Resume(Secure));
    Play(cfg, p, Resume(Secure), p');
  }

  /** or is done. */
  lemma DoDone(cfg: Config, p: Point) returns (p': Point)
    requires SecureTurn(cfg, p)
    ensures NormalTurn(cfg, p') && Ids(p'.state.loaded) == Ids(p.state.loaded) - {p.state.secExec}
    ensures p'.state.descs == p.state.descs[p.state.secExec := p.state.descs[p.state.secExec].(state := Reset)]
    ensures p'.state.secExec == INVALID_IMAGE_ID && p'.history == p.history
  {
    ReachedFacts(cfg, p);
    RemoveFacts(p.state.loaded, p.state.secExec);
    p' := Next(cfg, p, SecImageDone(Secure));
    Play(cfg, p, SecImageDone(Secure), p');
  }
}
