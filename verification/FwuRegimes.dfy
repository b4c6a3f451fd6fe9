/** What brings images into memory, and two ways to keep copied images intact whoever calls: images with ranges of
    their own, and runs that never authenticate in place an image that still counts copied bytes. */
module FwuRegimes {
  import opened Common
  import opened FwuModel
  import opened FwuInvariant
  import opened FwuIntegrity
  import Runs

  // ----- The kinds of steps -----

  /** No image comes in: the copied ones were copied before, with this size, and those authenticated in place were so
      before, with this size and count. */
  ghost predicate Gentle(cfg: Config, p: Point, p': Point)
    requires Matching(cfg, p) && Matching(cfg, p')
  {
    forall x :: x in cfg.images ==>
      GentleAt(p.state.descs[x], p.history[x], p'.state.descs[x], p'.history[x])
  }

  ghost predicate GentleAt(d: Desc, r: Record, d': Desc, r': Record) {
    && (ByCopy(d', r') ==> ByCopy(d, r) && d'.imageSize == d.imageSize)
    && (InPlace(d', r') ==> InPlace(d, r) && d'.imageSize == d.imageSize && d'.copiedSize == d.copiedSize)
  }

  lemma OneGentle(cfg: Config, p: Point, p': Point, id: nat, d': Desc, r': Record)
    requires Matching(cfg, p) && id in cfg.images && GentleAt(p.state.descs[id], p.history[id], d', r')
    requires p'.state.descs == p.state.descs[id := d'] && p'.history == p.history[id := r']
    ensures Matching(cfg, p') && Gentle(cfg, p, p')
  {
  }

  /** Image `id` comes in with this descriptor and record; the others stay as they are. */
  ghost predicate ComesIn(cfg: Config, p: Point, p': Point, id: nat, d: Desc, r: Record) {
    && id in cfg.images && p.state.descs.Keys == cfg.images.Keys && p.state.descs[id].state == Reset
    && p'.state.descs == p.state.descs[id := d] && p'.history == p.history[id := r]
  }

  lemma CopyComesIn(cfg: Config, p: Point, c: Call)
    requires Sound(cfg, p) && FirstCopy(cfg, p.state, c)
    ensures var p' := Next(cfg, p, c);
            && c.id in p'.state.descs && c.id in p'.history
            && ComesIn(cfg, p, p', c.id, p'.state.descs[c.id], p'.history[c.id])
            && ByCopy(p'.state.descs[c.id], p'.history[c.id]) && p'.state.descs[c.id].imageSize == c.size
            && FirstRequest(cfg, p.state, c) && Verdict(cfg, p.state, c) == Clear
            && AddLoadedId(p.state.loaded, c.id).0
  {
    CopyUpdated(cfg, p, c);
    FirstCopyFacts(cfg, p.state, c);
  }

  /** An image comes in by authentication in place with its count as it was; a secure one only for a secure caller. */
  lemma AuthComesIn(cfg: Config, p: Point, c: Call)
    requires Sound(cfg, p) && InPlaceAuth(cfg, p.state, c)
    ensures var p' := Next(cfg, p, c);
            && c.id in p'.state.descs && c.id in p'.history
            && ComesIn(cfg, p, p', c.id, p'.state.descs[c.id], p'.history[c.id])
            && InPlace(p'.state.descs[c.id], p'.history[c.id])
            && p'.state.descs[c.id].copiedSize == p.state.descs[c.id].copiedSize
            && p'.state.descs[c.id].imageSize > 0
            && (cfg.images[c.id].world == Secure ==> c.caller == Secure)
            && AddLoadedId(p.state.loaded, c.id).0
  {
  }

  lemma CopyGentle(cfg: Config, p: Point, c: Call)
    requires Sound(cfg, p) && Integrity(cfg, p) && c.Copy?
    requires CopyStep(cfg, p.state, c).Return? && !FirstCopy(cfg, p.state, c)
    ensures Matching(cfg, Next(cfg, p, c)) && Gentle(cfg, p, Next(cfg, p, c))
  {
    var p' := Next(cfg, p, c);
    if CopyStep(cfg, p.state, c).status == Ok {
      CopyUpdated(cfg, p, c);
      assert Origin(p.state.descs[c.id], p.history[c.id]);
      OneGentle(cfg, p, p', c.id, p'.state.descs[c.id], p'.history[c.id]);
    } else {
      CopyRefusedFacts(cfg, p, c);
      if p'.state.descs != p.state.descs {
        assert p.history[c.id := p.history[c.id]] == p.history;
        OneGentle(cfg, p, p', c.id, p'.state.descs[c.id], p.history[c.id]);
      }
    }
  }

  lemma AuthCopiedGentle(cfg: Config, p: Point, c: Call)
    requires Sound(cfg, p) && Integrity(cfg, p) && c.Auth? && c.id in cfg.images && p.state.descs[c.id].state == Copied
    requires AuthStep(cfg, p.state, c) == AuthCopied(cfg, p.state, c) && AuthCopied(cfg, p.state, c).Return?
    ensures Matching(cfg, Next(cfg, p, c)) && Gentle(cfg, p, Next(cfg, p, c))
  {
    var p' := Next(cfg, p, c);
    assert Origin(p.state.descs[c.id], p.history[c.id]);
    assert p.history[c.id := p.history[c.id]] == p.history;
    OneGentle(cfg, p, p', c.id, p'.state.descs[c.id], p'.history[c.id]);
  }

  lemma AuthGentle(cfg: Config, p: Point, c: Call)
    requires Sound(cfg, p) && Integrity(cfg, p) && c.Auth?
    requires AuthStep(cfg, p.state, c).Return? && !InPlaceAuth(cfg, p.state, c)
    ensures Matching(cfg, Next(cfg, p, c)) && Gentle(cfg, p, Next(cfg, p, c))
  {
    if c.id in cfg.images && p.state.descs[c.id].state == AuthFrom(cfg.images[c.id], c.caller) {
      if p.state.descs[c.id].state == Copied {
        AuthCopiedGentle(cfg, p, c);
      } else {
        var p' := Next(cfg, p, c);
        AuthInPlaceFacts(cfg, p, c);
        OneGentle(cfg, p, p', c.id, p'.state.descs[c.id], p'.history[c.id]);
      }
    }
  }

  lemma ControlGentle(cfg: Config, p: Point, c: Call)
    requires Sound(cfg, p) && !c.Copy? && !c.Auth? && Step(cfg, p.state, c).Return?
    ensures Matching(cfg, Next(cfg, p, c)) && Gentle(cfg, p, Next(cfg, p, c))
  {
    var s, p' := p.state, Next(cfg, p, c);
    if p'.state != s {
      var id := if c.Execute? || c.ResetImage? then c.id else s.secExec;
      assert p.history[id := p.history[id]] == p.history;
      OneGentle(cfg, p, p', id, p'.state.descs[id], p.history[id]);
    }
  }

  /** Every step is gentle, a first copy, or an authentication in place. */
  lemma StepKinds(cfg: Config, p: Point, c: Call)
    requires Sound(cfg, p) && Integrity(cfg, p) && Step(cfg, p.state, c).Return?
    requires !FirstCopy(cfg, p.state, c) && !InPlaceAuth(cfg, p.state, c)
    ensures Matching(cfg, Next(cfg, p, c)) && Gentle(cfg, p, Next(cfg, p, c))
  {
    if c.Copy? { CopyGentle(cfg, p, c); } else if c.Auth? { AuthGentle(cfg, p, c); } else { ControlGentle(cfg, p, c); }
  }

  // ----- Ranges -----

  /** The platform gives every secure image room of its own. */
  ghost predicate RangesApart(cfg: Config) {
    forall a, b | a in cfg.images && b in cfg.images :: !Clash(cfg, a, b)
  }

  /** Two secure images can share an address. */
  ghost predicate Clash(cfg: Config, a: nat, b: nat) {
    && a in cfg.images && b in cfg.images && a != b
    && cfg.images[a].world == Secure && cfg.images[b].world == Secure
    && !Apart(cfg.images[a].base, cfg.images[a].maxSize, cfg.images[b].base, cfg.images[b].maxSize)
  }

  /** Images that cannot share an address do not, at whatever size they are; images of the normal world count
      nothing. */
  lemma NoClash(cfg: Config, s: State, a: nat, b: nat, size: nat)
    requires Basic(cfg, s) && a in cfg.images && b in cfg.images && a != b && cfg.images[b].world == Secure
    requires size <= cfg.images[b].maxSize && !Clash(cfg, a, b)
    ensures Apart(cfg.images[b].base, size, cfg.images[a].base, s.descs[a].copiedSize)
  {
    assert SizesFit(cfg.images[a], s.descs[a]);
  }

  lemma AddedIsThere(loaded: seq<nat>, id: nat)
    requires AddLoadedId(loaded, id).0
    ensures id in AddLoadedId(loaded, id).1
  {
    var free := SlotOf(loaded, INVALID_IMAGE_ID);
    if SlotOf(loaded, id) == |loaded| { assert AddLoadedId(loaded, id).1[free] == id; }
  }

  /** Two ids in the table, with one more on the way, take two slots, */
  lemma TwoSlots(loaded: seq<nat>, x: nat, y: nat)
    requires x != y && x != INVALID_IMAGE_ID && y != INVALID_IMAGE_ID && x in loaded && AddLoadedId(loaded, y).0
    ensures |loaded| >= 2
  {
    var loaded' := AddLoadedId(loaded, y).1;
    var i :| 0 <= i < |loaded| && loaded[i] == x;
    assert loaded'[i] == x;
    AddedIsThere(loaded, y);
    var j :| 0 <= j < |loaded'| && loaded'[j] == y;
  }

  /** and three take three. */
  lemma ThreeSlots(loaded: seq<nat>, x: nat, y: nat, z: nat)
    requires x != y && y != z && x != z && x in loaded && y in loaded && AddLoadedId(loaded, z).0
    requires x != INVALID_IMAGE_ID && y != INVALID_IMAGE_ID && z != INVALID_IMAGE_ID
    ensures |loaded| >= 3
  {
    var loaded' := AddLoadedId(loaded, z).1;
    var i :| 0 <= i < |loaded| && loaded[i] == x;
    var j :| 0 <= j < |loaded| && loaded[j] == y;
    assert loaded'[i] == x && loaded'[j] == y;
    AddedIsThere(loaded, z);
    var k :| 0 <= k < |loaded'| && loaded'[k] == z;
  }

  // ----- Isolated images -----

  /** No two images can get in each other's way: they have ranges of their own, or the table of loaded ids
      has room for one image only. */
  ghost predicate Isolated(cfg: Config) {
    RangesApart(cfg) || cfg.slots < 2
  }

  lemma IsolatedCopy(cfg: Config, p: Point, c: Call, x: nat)
    requires Isolated(cfg) && Tracked(cfg, p.state) && Matching(cfg, p) && FirstCopy(cfg, p.state, c)
    requires x in cfg.images && x != c.id && InPlace(p.state.descs[x], p.history[x])
    ensures Apart(cfg.images[c.id].base, c.size, cfg.images[x].base, p.state.descs[x].copiedSize)
  {
    FirstCopyFacts(cfg, p.state, c);
    if Clash(cfg, x, c.id) {
      TwoSlots(p.state.loaded, x, c.id);
    } else {
      NoClash(cfg, p.state, x, c.id, c.size);
    }
  }

  lemma IsolatedAuth(cfg: Config, p: Point, c: Call, x: nat)
    requires Isolated(cfg) && Tracked(cfg, p.state) && Integrity(cfg, p) && InPlaceAuth(cfg, p.state, c)
    requires x in cfg.images && x != c.id && ByCopy(p.state.descs[x], p.history[x])
    ensures Apart(cfg.images[x].base, p.state.descs[x].imageSize, cfg.images[c.id].base, p.state.descs[c.id].copiedSize)
  {
    AuthComesIn(cfg, p, c);
    assert Content(cfg.images[x], p.state.descs[x], p.history[x], p.state.mem);
    if Clash(cfg, c.id, x) {
      TwoSlots(p.state.loaded, x, c.id);
    } else {
      NoClash(cfg, p.state, c.id, x, p.state.descs[x].imageSize);
    }
  }

  lemma IsolatedSafe(cfg: Config, p: Point, c: Call)
    requires Isolated(cfg) && Tracked(cfg, p.state) && Integrity(cfg, p)
    ensures SafeCall(cfg, p, c)
  {
    if FirstCopy(cfg, p.state, c) {
      forall x | x in cfg.images && x != c.id && InPlace(p.state.descs[x], p.history[x])
        ensures Apart(cfg.images[c.id].base, c.size, cfg.images[x].base, p.state.descs[x].copiedSize)
      {
        IsolatedCopy(cfg, p, c, x);
      }
    }
    if InPlaceAuth(cfg, p.state, c) {
      forall x | x in cfg.images && x != c.id && ByCopy(p.state.descs[x], p.history[x])
        ensures Apart(cfg.images[x].base, p.state.descs[x].imageSize,
                      cfg.images[c.id].base, p.state.descs[c.id].copiedSize)
      {
        IsolatedAuth(cfg, p, c, x);
      }
    }
  }

  // ----- Disciplined runs -----

  /** A call does not authenticate in place an image that still counts copied bytes.  A request the service refuses
      because of the state of the image does not matter. */
  ghost predicate Disciplined(cfg: Config, s: State, c: Call) {
    (&& c.Auth? && c.id in cfg.images && c.id in s.descs
     && s.descs[c.id].state == Reset && AuthFrom(cfg.images[c.id], c.caller) == Reset) ==>
      s.descs[c.id].copiedSize == 0
  }

  ghost predicate DisciplinedRun(cfg: Config, t: Trace) {
    forall i {:trigger t.steps[i]} :: 0 <= i < |t.steps| && i < |t.points| ==>
      Disciplined(cfg, t.points[i].state, t.steps[i])
  }

  /** Nothing that was authenticated in place counts copied bytes. */
  ghost predicate NothingStale(cfg: Config, p: Point)
    requires Matching(cfg, p)
  {
    forall x :: x in cfg.images && InPlace(p.state.descs[x], p.history[x]) ==> p.state.descs[x].copiedSize == 0
  }

  lemma DisciplinedSafe(cfg: Config, p: Point, c: Call)
    requires Basic(cfg, p.state) && Matching(cfg, p) && NothingStale(cfg, p) && Disciplined(cfg, p.state, c)
    ensures SafeCall(cfg, p, c)
  {
  }

  lemma DisciplinedStep(cfg: Config, p: Point, c: Call)
    requires Sound(cfg, p) && Integrity(cfg, p) && NothingStale(cfg, p) && Disciplined(cfg, p.state, c)
    requires Step(cfg, p.state, c).Return? && Matching(cfg, Next(cfg, p, c))
    ensures NothingStale(cfg, Next(cfg, p, c))
  {
    if FirstCopy(cfg, p.state, c) {
      CopyComesIn(cfg, p, c);
    } else if InPlaceAuth(cfg, p.state, c) {
      AuthComesIn(cfg, p, c);
    } else {
      StepKinds(cfg, p, c);
    }
  }

  // ----- Whole runs -----

  /** The invariant of both regimes. */
  ghost predicate Kept(cfg: Config, p: Point) {
    Tracked(cfg, p.state) && Integrity(cfg, p) && (Isolated(cfg) || NothingStale(cfg, p))
  }

  lemma KeptStep(cfg: Config, p: Point, c: Call, p': Point)
    requires Follows(cfg, p, c, p') && Kept(cfg, p) && (Isolated(cfg) || Disciplined(cfg, p.state, c))
    ensures Kept(cfg, p')
  {
    FollowsTracked(cfg, p, c, p');
    if Isolated(cfg) { IsolatedSafe(cfg, p, c); } else { DisciplinedSafe(cfg, p, c); }
    StepIntegrity(cfg, p, c);
    if !Isolated(cfg) { DisciplinedStep(cfg, p, c); }
  }

  lemma RunKept(cfg: Config, t: Trace, n: nat)
    requires WellFormed(cfg) && IsRun(cfg, t) && n < |t.points| && (Isolated(cfg) || DisciplinedRun(cfg, t))
    ensures Kept(cfg, t.points[n])
  {
    StartIntegrity(cfg);
    forall i | 0 < i < |t.points| && Kept(cfg, t.points[i - 1])
      ensures Kept(cfg, t.points[i])
    {
      KeptStep(cfg, t.points[i - 1], t.steps[i - 1], t.points[i]);
    }
    Runs.Along(t.points, (p: Point) => Kept(cfg, p), n);
  }

  /** In every run that keeps the discipline, and in every run at all on a platform whose images are isolated, a copied
      image that got past authentication holds exactly the bytes that were authenticated, which are its blocks in order;
      and copied images never overlap.  Callers may be of any world at any time. */
  lemma ExecutedImagesIntact(cfg: Config, t: Trace, n: nat)
    requires WellFormed(cfg) && IsRun(cfg, t) && n < |t.points|
    requires Isolated(cfg) || DisciplinedRun(cfg, t)
    ensures Matching(cfg, t.points[n]) && AllIntact(cfg, t.points[n])
    ensures forall a, b :: a in cfg.images && b in cfg.images ==> PairApart(cfg, t.points[n], a, b)
  {
    RunKept(cfg, t, n);
    IntegrityMeansIntact(cfg, t.points[n]);
  }
}
