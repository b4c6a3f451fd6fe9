/** The platforms on which the firmware-update service keeps copied images intact in every run with fitting callers: for
    every other platform, a run that breaks one.

    The count of copied bytes survives a failed authentication and the end of execution.  When such an image is
    authenticated in place, by a secure image that runs, and then reset, the service clears as many bytes at its base as
    it once copied there, whichever image lives there by then. */
module FwuExactness {
  import opened Bytes
  import opened FwuModel
  import opened FwuInvariant
  import opened FwuScan
  import opened FwuIntegrity
  import opened FwuRegimes
  import opened FwuFitting
  import opened FwuScript

  /** A run with fitting callers leads to a copied image that is not what was authenticated. */
  ghost predicate Broken(cfg: Config, p: Point) {
    Reached(cfg, p) && Matching(cfg, p) && !AllIntact(cfg, p)
  }

  // ----- Beginning and end of the runs -----

  /** Image `a` is copied and refused: it is in RESET, still counts all its bytes, and nothing is loaded. */
  ghost predicate Primed(cfg: Config, p: Point, a: nat) {
    && NormalTurn(cfg, p) && a in cfg.images && Ids(p.state.loaded) == {}
    && p.state.descs[a] == Desc(Reset, cfg.images[a].maxSize, cfg.images[a].maxSize)
    && forall x :: x in cfg.images && x != a && cfg.images[x].world == Secure ==> p.state.descs[x].state == Reset
  }

  lemma Prime(cfg: Config, a: nat) returns (p: Point)
    requires WellFormed(cfg) && cfg.slots >= 1 && a in cfg.images
    requires cfg.images[a].world == Secure && cfg.images[a].maxSize > 0
    ensures Primed(cfg, p, a)
  {
    var p0 := Start(cfg);
    Begin(cfg);
    assert Ids(p0.state.loaded) == {};
    var p1 := DoCopy(cfg, p0, a, cfg.images[a].maxSize);
    p := DoRefuse(cfg, p1, a);
  }

  /** Image `b` is past authentication with ones in memory, and image `a`, authenticated in place, counts an address of
      it. */
  ghost predicate Doomed(cfg: Config, p: Point, a: nat, b: nat, x: nat) {
    && NormalTurn(cfg, p) && a in cfg.images && b in cfg.images && a != b && cfg.images[a].world == Secure
    && p.state.descs[a].state == Authenticated && PastAuthentication(p.state.descs[b].state)
    && p.history[b].byCopy && p.history[b].passed == Ones(p.state.descs[b].imageSize)
    && p.state.descs[b].imageSize <= cfg.images[b].maxSize
    && cfg.images[a].base <= x < cfg.images[a].base + p.state.descs[a].copiedSize
    && cfg.images[b].base <= x < cfg.images[b].base + p.state.descs[b].imageSize
  }

  /** The reset of `a` clears it. */
  lemma Finish(cfg: Config, p: Point, a: nat, b: nat, x: nat) returns (p': Point)
    requires Doomed(cfg, p, a, b, x)
    ensures Broken(cfg, p')
  {
    p' := DoReset(cfg, p, a);
    assert SizesFit(cfg.images[a], p.state.descs[a]);
    ZeroedAt(p.state.mem, cfg.images[a].base, p.state.descs[a].copiedSize, x);
    ByteLost(cfg.images[b], p'.state.descs[b], p'.history[b], p'.state.mem, x);
  }

  lemma ZeroedAt(mem: seq<byte>, at: nat, n: nat, x: nat)
    requires at <= x < at + n <= |mem|
    ensures Splice(mem, at, Zeros(n))[x] == 0
  {
  }

  lemma ByteLost(img: Image, d: Desc, r: Record, mem: seq<byte>, x: nat)
    requires ByCopy(d, r) && PastAuthentication(d.state) && r.passed == Ones(d.imageSize)
    requires img.base <= x < img.base + d.imageSize <= |mem| && mem[x] == 0
    ensures !Intact(img, d, r, mem)
  {
    assert mem[img.base..img.base + d.imageSize][x - img.base] == 0 && r.passed[x - img.base] == 1;
  }

  /** An address two images share. */
  function Shared(cfg: Config, a: nat, b: nat): nat
    requires a in cfg.images && b in cfg.images
  {
    if cfg.images[a].base < cfg.images[b].base then cfg.images[b].base else cfg.images[a].base
  }

  // ----- The image that loses bytes executes itself -----

  /** `b` is loaded and executed, has `a` authenticated in place, and is interrupted; `a` is reset. */
  lemma RunnerRun(cfg: Config, a: nat, b: nat) returns (p: Point)
    requires WellFormed(cfg) && cfg.slots >= 2 && Clash(cfg, a, b) && Agent(cfg, b)
    ensures Broken(cfg, p)
  {
    p := Prime(cfg, a);
    p := DoLoad(cfg, p, b, cfg.images[b].maxSize);
    p := DoExecute(cfg, p, b);
    p := DoInPlace(cfg, p, a);
    p := DoYield(cfg, p);
    p := Finish(cfg, p, a, b, Shared(cfg, a, b));
  }

  // ----- The image that loses bytes comes last -----

  /** `a` alone is loaded, authenticated in place, and counts its bytes; `b` is in RESET. */
  ghost predicate Waiting(cfg: Config, p: Point, a: nat, b: nat) {
    && NormalTurn(cfg, p) && a in cfg.images && b in cfg.images && Ids(p.state.loaded) == {a}
    && p.state.descs[a] == Desc(Authenticated, cfg.images[a].maxSize, 2) && p.state.descs[b].state == Reset
  }

  /** `e` is loaded and executed, has `a` authenticated in place, and is done. */
  lemma LateStage(cfg: Config, a: nat, b: nat, e: nat) returns (p: Point)
    requires WellFormed(cfg) && cfg.slots >= 2 && Clash(cfg, a, b) && Launch(cfg, e) && e != a && e != b
    ensures Waiting(cfg, p, a, b)
  {
    p := Prime(cfg, a);
    p := DoLoad(cfg, p, e, cfg.images[e].maxSize);
    p := DoExecute(cfg, p, e);
    p := DoInPlace(cfg, p, a);
    p := DoDone(cfg, p);
    assert Ids(p.state.loaded) == {a};
  }

  /** `b` is loaded behind the first two bytes of `a`, and `a` is reset. */
  lemma LateRun(cfg: Config, a: nat, b: nat, e: nat) returns (p: Point)
    requires WellFormed(cfg) && cfg.slots >= 2 && Clash(cfg, a, b) && Launch(cfg, e) && e != a && e != b
    requires cfg.images[a].base + 2 <= cfg.images[b].base
    ensures Broken(cfg, p)
  {
    p := LateStage(cfg, a, b, e);
    p := DoLoad(cfg, p, b, cfg.images[b].maxSize);
    p := Finish(cfg, p, a, b, cfg.images[b].base);
  }

  // ----- A third image executes beside the one that loses bytes -----

  /** `e` executes beside `b`, has `a` authenticated in place, and is interrupted. */
  lemma BesideEnds(cfg: Config, p: Point, a: nat, b: nat, e: nat, x: nat) returns (p': Point)
    requires NormalTurn(cfg, p) && cfg.slots >= 3 && Ids(p.state.loaded) == {b, e}
    requires a in cfg.images && b in cfg.images && Agent(cfg, e) && a != b && e != a && e != b
    requires cfg.images[a].world == Secure
    requires p.state.descs[a].state == Reset && p.state.descs[e].state == Authenticated
    requires p.state.descs[b].state == Authenticated && p.state.descs[b].imageSize <= cfg.images[b].maxSize
    requires p.history[b].byCopy && p.history[b].passed == Ones(p.state.descs[b].imageSize)
    requires cfg.images[a].base <= x < cfg.images[a].base + p.state.descs[a].copiedSize
    requires cfg.images[b].base <= x < cfg.images[b].base + p.state.descs[b].imageSize
    ensures Broken(cfg, p')
  {
    p' := DoExecute(cfg, p, e);
    p' := DoInPlace(cfg, p', a);
    p' := DoYield(cfg, p');
    p' := Finish(cfg, p', a, b, x);
  }

  /** Two images that cannot share an address are loaded one after the other, the first with more than one byte. */
  lemma LoadTwo(cfg: Config, p: Point, a: nat, x: nat, y: nat) returns (p': Point)
    requires Primed(cfg, p, a) && cfg.slots >= 2 && x in cfg.images && y in cfg.images && x != y && x != a && y != a
    requires cfg.images[x].world == Secure && cfg.images[y].world == Secure && !Clash(cfg, x, y)
    requires cfg.images[x].maxSize >= 2 && cfg.images[y].maxSize > 0
    ensures NormalTurn(cfg, p') && Ids(p'.state.loaded) == {x, y} && p'.state.descs[a] == p.state.descs[a]
    ensures p'.state.descs[x] == Desc(Authenticated, cfg.images[x].maxSize, cfg.images[x].maxSize)
    ensures p'.state.descs[y] == Desc(Authenticated, cfg.images[y].maxSize, cfg.images[y].maxSize)
    ensures p'.history[x] == Record(true, [Ones(cfg.images[x].maxSize)], Ones(cfg.images[x].maxSize))
    ensures p'.history[y] == Record(true, [Ones(cfg.images[y].maxSize)], Ones(cfg.images[y].maxSize))
  {
    var q := DoLoad(cfg, p, x, cfg.images[x].maxSize);
    assert Ids(q.state.loaded) == {x};
    p' := DoLoad(cfg, q, y, cfg.images[y].maxSize);
  }

  lemma BesideRun(cfg: Config, a: nat, b: nat, e: nat) returns (p: Point)
    requires WellFormed(cfg) && cfg.slots >= 3 && Clash(cfg, a, b) && Launch(cfg, e) && e != a && e != b
    requires !Clash(cfg, e, b) && (cfg.images[e].maxSize >= 2 || cfg.images[b].maxSize >= 2)
    ensures Broken(cfg, p)
  {
    p := Prime(cfg, a);
    if cfg.images[e].maxSize >= 2 {
      p := LoadTwo(cfg, p, a, e, b);
    } else {
      p := LoadTwo(cfg, p, a, b, e);
    }
    p := BesideEnds(cfg, p, a, b, e, Shared(cfg, a, b));
  }

  // ----- It does so although all are of one byte -----

  /** `e` alone is loaded, authenticated in place; `a` is in RESET and counts its bytes; `b` is in RESET. */
  ghost predicate Staged(cfg: Config, p: Point, a: nat, b: nat, e: nat) {
    && NormalTurn(cfg, p) && a in cfg.images && b in cfg.images && e in cfg.images && Ids(p.state.loaded) == {e}
    && p.state.descs[e].state == Authenticated && p.state.descs[e].imageSize == 2
    && p.state.descs[a] == Desc(Reset, cfg.images[a].maxSize, cfg.images[a].maxSize)
    && p.state.descs[b].state == Reset
  }

  /** The image `l` launched first has `e` authenticated in place, and is done. */
  lemma StageByOther(cfg: Config, a: nat, b: nat, e: nat, l: nat) returns (p: Point)
    requires WellFormed(cfg) && cfg.slots >= 2 && Clash(cfg, a, b) && Agent(cfg, e) && Launch(cfg, l)
    requires e != a && e != b && l != a && l != b && l != e
    ensures Staged(cfg, p, a, b, e)
  {
    p := Prime(cfg, a);
    p := DoLoad(cfg, p, l, cfg.images[l].maxSize);
    p := DoExecute(cfg, p, l);
    p := DoInPlace(cfg, p, e);
    p := DoDone(cfg, p);
    assert Ids(p.state.loaded) == {e};
  }

  /** `e` launched first has `f` authenticated in place, and is done; `f` is executed and does the same for `e`. */
  lemma StageBySelf(cfg: Config, a: nat, b: nat, e: nat, f: nat) returns (p: Point)
    requires WellFormed(cfg) && cfg.slots >= 2 && Clash(cfg, a, b) && Launch(cfg, e) && Agent(cfg, f)
    requires e != a && e != b && f != a && f != b && f != e
    ensures Staged(cfg, p, a, b, e)
  {
    p := StageByOther(cfg, a, b, f, e);
    p := DoExecute(cfg, p, f);
    ReachedFacts(cfg, p);
    assert e !in Ids(p.state.loaded);
    p := DoInPlace(cfg, p, e);
    p := DoDone(cfg, p);
    assert Ids(p.state.loaded) == {e};
  }

  lemma StagedBreaks(cfg: Config, p: Point, a: nat, b: nat, e: nat) returns (p': Point)
    requires Staged(cfg, p, a, b, e) && cfg.slots >= 3 && Clash(cfg, a, b) && Agent(cfg, e) && ClearOf(cfg, e, b)
    requires e != a && e != b && cfg.images[a].base <= cfg.images[b].base
    ensures Broken(cfg, p')
  {
    p' := DoLoad(cfg, p, b, 1);
    p' := BesideEnds(cfg, p', a, b, e, cfg.images[b].base);
  }

  // ----- All fragile platforms -----

  /** Whatever endangers an image breaks it in some run. */
  lemma EndangeredBreaks(cfg: Config, a: nat, b: nat) returns (p: Point)
    requires WellFormed(cfg) && cfg.slots >= 2 && Endangers(cfg, a, b)
    ensures Broken(cfg, p)
  {
    if Agent(cfg, b) {
      p := RunnerRun(cfg, a, b);
    } else if Agent(cfg, a) {
      p := RunnerRun(cfg, b, a);
    } else if HasLaunch(cfg) && cfg.images[a].base + 2 <= cfg.images[b].base {
      var e :| Launch(cfg, e);
      p := LateRun(cfg, a, b, e);
    } else {
      var e :| Beside(cfg, e, b);
      p := BesideBreaks(cfg, a, b, e);
    }
  }

  lemma LaunchedBreaks(cfg: Config, a: nat, b: nat, e: nat) returns (p: Point)
    requires WellFormed(cfg) && cfg.slots >= 3 && Clash(cfg, a, b) && !Agent(cfg, a) && !Agent(cfg, b)
    requires Launch(cfg, e) && (cfg.images[e].maxSize >= 2 || cfg.images[b].maxSize >= 2)
    ensures Broken(cfg, p)
  {
    if Clash(cfg, e, b) {
      p := RunnerRun(cfg, b, e);
    } else {
      p := BesideRun(cfg, a, b, e);
    }
  }

  lemma BesideBreaks(cfg: Config, a: nat, b: nat, e: nat) returns (p: Point)
    requires WellFormed(cfg) && cfg.slots >= 3 && Clash(cfg, a, b) && !Agent(cfg, a) && !Agent(cfg, b)
    requires Beside(cfg, e, b)
    ensures Broken(cfg, p)
  {
    if cfg.images[e].maxSize > 0 && (cfg.images[e].maxSize >= 2 || cfg.images[b].maxSize >= 2) {
      p := LaunchedBreaks(cfg, a, b, e);
    } else {
      var l :| Launch(cfg, l);
      if cfg.images[b].maxSize >= 2 {
        p := LaunchedBreaks(cfg, a, b, l);
      } else {
        if l != e {
          p := StageByOther(cfg, a, b, e, l);
        } else {
          var f :| Agent(cfg, f) && f != e;
          p := StageBySelf(cfg, a, b, e, f);
        }
        p := StagedBreaks(cfg, p, a, b, e);
      }
    }
  }

  /** Common platforms: isolated images and platforms without a secure image to launch are not fragile; a platform with
      two slots is as soon as an executable secure image shares an address with another one. */
  lemma CommonPlatforms(cfg: Config)
    ensures Isolated(cfg) || !HasLaunch(cfg) ==> !Fragile(cfg)
    ensures cfg.slots >= 2 && (exists a, b :: Clash(cfg, a, b) && Agent(cfg, b)) ==> Fragile(cfg)
  {
    forall a, b | Endangers(cfg, a, b)
      ensures HasLaunch(cfg)
    {
      if Agent(cfg, b) {
        assert Launch(cfg, b);
      } else if cfg.slots >= 3 && exists e :: Beside(cfg, e, b) {
        var e :| Beside(cfg, e, b);
        assert cfg.images[e].maxSize > 0 ==> Launch(cfg, e);
      }
    }
    if a, b :| Clash(cfg, a, b) && Agent(cfg, b) { assert Endangers(cfg, a, b); }
  }

  /** Every point of the run finds copied images intact. */
  ghost predicate AlwaysIntact(cfg: Config, t: Trace) {
    forall n :: 0 <= n < |t.points| ==> Matching(cfg, t.points[n]) && AllIntact(cfg, t.points[n])
  }

  /** Every run with fitting callers keeps copied images intact. */
  ghost predicate AllRunsIntact(cfg: Config) {
    forall t: Trace :: IsRun(cfg, t) && FittingRun(t) ==> AlwaysIntact(cfg, t)
  }

  lemma FragileBreaks(cfg: Config)
    requires WellFormed(cfg) && Fragile(cfg)
    ensures !AllRunsIntact(cfg)
  {
    var a, b :| Endangers(cfg, a, b);
    var p := EndangeredBreaks(cfg, a, b);
    var t: Trace :| RunsTo(cfg, t, p);
    assert t.points[|t.steps|] == p;
    assert !AlwaysIntact(cfg, t);
  }

  /** The central promise.  A copied image that got past authentication holds exactly the bytes that were authenticated,
      its blocks in order, in every run with fitting callers, if and only if the platform is not fragile. */
  lemma IntactExactly(cfg: Config)
    requires WellFormed(cfg)
    ensures AllRunsIntact(cfg) <==> !Fragile(cfg)
  {
    if Fragile(cfg) {
      FragileBreaks(cfg);
    } else {
      forall t: Trace | IsRun(cfg, t) && FittingRun(t)
        ensures AlwaysIntact(cfg, t)
      {
        forall n | 0 <= n < |t.points|
          ensures Matching(cfg, t.points[n]) && AllIntact(cfg, t.points[n])
        {
          FittingRunsIntact(cfg, t, n);
        }
      }
    }
  }
}
