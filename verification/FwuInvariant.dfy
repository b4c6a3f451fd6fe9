/** What every step of the firmware-update service keeps: the table of loaded ids against the image
    states, and the sizes recorded for an image against its state. */
module FwuInvariant {
  import opened Common
  import opened FwuModel

  /** The ids in the table. */
  ghost function Ids(loaded: seq<nat>): set<nat> {
    set x | x in loaded && x != INVALID_IMAGE_ID
  }

  ghost predicate NoDuplicates(loaded: seq<nat>) {
    forall i, j :: 0 <= i < j < |loaded| && loaded[i] != INVALID_IMAGE_ID ==> loaded[i] != loaded[j]
  }

  /** Table and states agree: no id twice, ids name images, every image that left RESET is listed (the
      boot-time image apart, which runs unlisted), and the image to resume is a secure executable one. */
  ghost predicate Tracked(cfg: Config, s: State) {
    && Basic(cfg, s)
    && NoDuplicates(s.loaded)
    && Ids(s.loaded) <= cfg.images.Keys
    && (forall id :: id in cfg.images && s.descs[id].state != Reset && id != cfg.boot ==> id in Ids(s.loaded))
    && s.descs[cfg.boot].state == Executed && cfg.boot !in Ids(s.loaded)
    && (forall id :: id in cfg.images && cfg.images[id].world == NonSecure && id != cfg.boot ==>
          s.descs[id].state == Reset || s.descs[id].state == Authenticated)
    && (s.secExec != INVALID_IMAGE_ID ==>
          s.secExec in cfg.images && cfg.images[s.secExec].world == Secure && cfg.images[s.secExec].executable)
  }

  /** The converse of listing: no listed image is in RESET. */
  ghost predicate ListedAreLoaded(s: State) {
    forall id :: id in Ids(s.loaded) && id in s.descs ==> s.descs[id].state != Reset
  }

  // ----- The table operations -----

  lemma AddFacts(loaded: seq<nat>, id: nat)
    requires NoDuplicates(loaded) && id != INVALID_IMAGE_ID
    ensures var (added, loaded') := AddLoadedId(loaded, id);
            && |loaded'| == |loaded| && NoDuplicates(loaded')
            && Ids(loaded') == if added then Ids(loaded) + {id} else Ids(loaded)
    ensures !AddLoadedId(loaded, id).0 <==> id !in loaded && INVALID_IMAGE_ID !in loaded
  {
    var (added, loaded') := AddLoadedId(loaded, id);
    var free := SlotOf(loaded, INVALID_IMAGE_ID);
    var at := SlotOf(loaded, id);
    if at < |loaded| {
      assert id in Ids(loaded);
    } else if free < |loaded| {
      assert loaded'[free] == id;
      forall x | x != INVALID_IMAGE_ID
        ensures x in loaded' <==> x in loaded || x == id
      {
        if x in loaded {
          var i :| 0 <= i < |loaded| && loaded[i] == x;
          assert loaded'[i] == x;
        }
      }
    }
  }

  lemma RemoveFacts(loaded: seq<nat>, id: nat)
    requires NoDuplicates(loaded) && id != INVALID_IMAGE_ID
    ensures var (found, loaded') := RemoveLoadedId(loaded, id);
            && |loaded'| == |loaded| && NoDuplicates(loaded')
            && Ids(loaded') == Ids(loaded) - {id} && (found <==> id in Ids(loaded))
  {
    var (found, loaded') := RemoveLoadedId(loaded, id);
    var at := SlotOf(loaded, id);
    if at < |loaded| {
      forall x | x != INVALID_IMAGE_ID
        ensures x in loaded' <==> x in loaded && x != id
      {
        if x in loaded && x != id {
          var i :| 0 <= i < |loaded| && loaded[i] == x;
          assert loaded'[i] == x;
        }
      }
    }
  }

  /** Adding a new id and removing it again gives the table back, slot by slot. */
  lemma AddRemove(loaded: seq<nat>, id: nat)
    requires id != INVALID_IMAGE_ID && id !in loaded && AddLoadedId(loaded, id).0
    ensures RemoveLoadedId(AddLoadedId(loaded, id).1, id) == (true, loaded)
  {
    var free := SlotOf(loaded, INVALID_IMAGE_ID);
    var loaded' := loaded[free := id];
    assert loaded'[free] == id;
    assert SlotOf(loaded', id) == free;
    assert loaded'[free := INVALID_IMAGE_ID] == loaded;
  }

  // ----- Preservation -----

  /** A step that changes the descriptor of one secure image, or of a non-secure one within its two
      states, and keeps the table in line with it, keeps everything. */
  lemma Tracks(cfg: Config, s: State, s': State, id: nat)
    requires Tracked(cfg, s) && id in cfg.images && id != cfg.boot
    requires id in s'.descs && s'.descs == s.descs[id := s'.descs[id]]
    requires SizesFit(cfg.images[id], s'.descs[id])
    requires |s'.loaded| == |s.loaded| && |s'.mem| == |s.mem| && NoDuplicates(s'.loaded)
    requires Ids(s'.loaded) - {id} == Ids(s.loaded) - {id}
    requires s'.descs[id].state != Reset ==> id in Ids(s'.loaded)
    requires cfg.images[id].world == NonSecure ==> s'.descs[id].state == Reset || s'.descs[id].state == Authenticated
    requires s'.secExec == s.secExec || s'.secExec == INVALID_IMAGE_ID ||
             (s'.secExec in cfg.images && cfg.images[s'.secExec].world == Secure && cfg.images[s'.secExec].executable)
    ensures Tracked(cfg, s')
  {
    assert s'.descs.Keys == s.descs.Keys;
    forall x | x in cfg.images && s'.descs[x].state != Reset && x != cfg.boot
      ensures x in Ids(s'.loaded)
    {
      if x != id { assert x in Ids(s.loaded) - {id}; }
    }
    assert cfg.boot !in Ids(s'.loaded) - {id};
    forall x | x in Ids(s'.loaded)
      ensures x in cfg.images
    {
      if x != id { assert x in Ids(s'.loaded) - {id}; }
    }
  }

  lemma CopyBlockTracked(cfg: Config, s: State, c: Call, d: Desc)
    requires Tracked(cfg, s) && c.Copy? && c.id in cfg.images && |c.block| > 0
    requires cfg.images[c.id].world == Secure
    requires d.copiedSize < d.imageSize <= cfg.images[c.id].maxSize
    requires s.descs[c.id].state == Reset || s.descs[c.id].state == Copying
    requires (d == s.descs[c.id] && d.state == Copying) || d.state == Reset
    ensures Tracked(cfg, CopyBlock(cfg, s, c, d).state)
  {
    var s' := CopyBlock(cfg, s, c, d).state;
    AddFacts(s.loaded, c.id);
    Tracks(cfg, s, s', c.id);
  }

  lemma CopyTracked(cfg: Config, s: State, c: Call)
    requires Tracked(cfg, s) && c.Copy? && CopyStep(cfg, s, c).Return?
    ensures Tracked(cfg, CopyStep(cfg, s, c).state)
  {
    var s' := CopyStep(cfg, s, c).state;
    if s' != s {
      var d := s.descs[c.id];
      if d.state == Copying {
        CopyBlockTracked(cfg, s, c, d);
      } else if s' == WithDesc(s, c.id, d.(imageSize := 0)) {
        Tracks(cfg, s, s', c.id);
      } else {
        CopyBlockTracked(cfg, s, c, Desc(Reset, 0, c.size));
      }
    }
  }

  lemma AuthCopiedTracked(cfg: Config, s: State, c: Call)
    requires Tracked(cfg, s) && c.Auth? && c.id in cfg.images && cfg.images[c.id].world == Secure
    requires s.descs[c.id].state == Copied && AuthCopied(cfg, s, c).Return?
    ensures Tracked(cfg, AuthCopied(cfg, s, c).state)
  {
    RemoveFacts(s.loaded, c.id);
    Tracks(cfg, s, AuthCopied(cfg, s, c).state, c.id);
  }

  lemma AuthInPlaceTracked(cfg: Config, s: State, c: Call)
    requires Tracked(cfg, s) && c.Auth? && c.id in cfg.images
    requires s.descs[c.id].state == Reset && AuthInPlace(cfg, s, c).Return?
    ensures Tracked(cfg, AuthInPlace(cfg, s, c).state)
  {
    var s' := AuthInPlace(cfg, s, c).state;
    if s' != s {
      AddFacts(s.loaded, c.id);
      RemoveFacts(AddLoadedId(s.loaded, c.id).1, c.id);
      Tracks(cfg, s, s', c.id);
    }
  }

  lemma AuthTracked(cfg: Config, s: State, c: Call)
    requires Tracked(cfg, s) && c.Auth? && AuthStep(cfg, s, c).Return?
    ensures Tracked(cfg, AuthStep(cfg, s, c).state)
  {
    if c.id in cfg.images && s.descs[c.id].state == AuthFrom(cfg.images[c.id], c.caller) {
      if s.descs[c.id].state == Copied { AuthCopiedTracked(cfg, s, c); } else { AuthInPlaceTracked(cfg, s, c); }
    }
  }

  lemma ControlTracked(cfg: Config, s: State, c: Call)
    requires Tracked(cfg, s) && !c.Copy? && !c.Auth? && Step(cfg, s, c).Return?
    ensures Tracked(cfg, Step(cfg, s, c).state)
  {
    var s' := Step(cfg, s, c).state;
    var id := if c.Execute? || c.ResetImage? then c.id else s.secExec;
    if s' != s {
      RemoveFacts(s.loaded, id);
      Tracks(cfg, s, s', id);
    }
  }

  lemma StepTracked(cfg: Config, s: State, c: Call)
    requires Tracked(cfg, s) && Step(cfg, s, c).Return?
    ensures Tracked(cfg, Step(cfg, s, c).state)
  {
    match c
    case Copy(_, _, _, _, _, _, _) => CopyTracked(cfg, s, c);
    case Auth(_, _, _, _, _, _, _) => AuthTracked(cfg, s, c);
    case _ => ControlTracked(cfg, s, c);
  }

  lemma InitTracked(cfg: Config)
    requires WellFormed(cfg)
    ensures Tracked(cfg, Init(cfg)) && ListedAreLoaded(Init(cfg))
  {
    assert Ids(Init(cfg).loaded) == {};
  }

  // ----- Listed exactly when not in RESET -----

  /** A first copy request that gets as far as the overlap check: the normal world asks for a secure image in
      RESET, with a source and a size that are in order. */
  ghost predicate FirstRequest(cfg: Config, s: State, c: Call)
    requires Basic(cfg, s)
  {
    && c.Copy? && c.id in cfg.images && c.caller == NonSecure
    && cfg.images[c.id].world == Secure && s.descs[c.id].state == Reset
    && c.src != 0 && |c.block| > 0 && c.src + |c.block| - 1 <= UINTPTR_MAX
    && 0 < c.size <= cfg.images[c.id].maxSize
  }

  /** What the overlap check says of the image to be copied. */
  function Verdict(cfg: Config, s: State, c: Call): Overlap
    requires Basic(cfg, s) && c.Copy? && c.id in cfg.images && c.size > 0
  {
    var img := cfg.images[c.id];
    CheckOverlaps(cfg, s.descs[c.id := s.descs[c.id].(imageSize := c.size)], s.loaded, c.id,
                  img.base, ImageEnd(img.base, c.size))
  }

  /** Nothing stands in the way of a first copy but the pre-load hook of the platform, which fails: there is no
      overlap, the source is mapped, and the table has the id or a free slot for it. */
  ghost predicate HookFails(cfg: Config, s: State, c: Call)
    requires Basic(cfg, s)
  {
    && FirstRequest(cfg, s, c) && Verdict(cfg, s, c) == Clear
    && c.mapped && (c.id in s.loaded || INVALID_IMAGE_ID in s.loaded) && !c.hookOk
  }

  /** The image of the call is listed without having left RESET only after the hook refused it. */
  lemma CopyListsItsImage(cfg: Config, s: State, c: Call)
    requires Tracked(cfg, s) && ListedAreLoaded(s) && c.Copy? && CopyStep(cfg, s, c).Return? && c.id in cfg.images
    ensures var s' := CopyStep(cfg, s, c).state;
            c.id in s'.descs && (c.id in Ids(s'.loaded) && s'.descs[c.id].state == Reset <==> HookFails(cfg, s, c))
  {
    AddFacts(s.loaded, c.id);
  }

  /** A copy call changes one descriptor, and the table at most by adding its id. */
  lemma CopyFrame(cfg: Config, s: State, c: Call)
    requires Basic(cfg, s) && c.Copy? && CopyStep(cfg, s, c).Return? && c.id in cfg.images
    ensures var s' := CopyStep(cfg, s, c).state;
            && c.id in s'.descs && s'.descs == s.descs[c.id := s'.descs[c.id]]
            && (s'.loaded == s.loaded || s'.loaded == AddLoadedId(s.loaded, c.id).1)
  {
    assert s.descs[c.id := s.descs[c.id]] == s.descs;
  }

  /** After such a change only the image of the call can be listed in RESET. */
  lemma FramedListed(s: State, s': State, id: nat)
    requires NoDuplicates(s.loaded) && ListedAreLoaded(s) && id in s.descs && id != INVALID_IMAGE_ID
    requires id in s'.descs && s'.descs == s.descs[id := s'.descs[id]]
    requires s'.loaded == s.loaded || s'.loaded == AddLoadedId(s.loaded, id).1
    ensures ListedAreLoaded(s') <==> !(id in Ids(s'.loaded) && s'.descs[id].state == Reset)
  {
    AddFacts(s.loaded, id);
    forall x | x in Ids(s'.loaded) && x in s'.descs && x != id
      ensures s'.descs[x].state != Reset
    {
      assert x in Ids(s.loaded) && s'.descs[x] == s.descs[x];
    }
  }

  lemma CopyListed(cfg: Config, s: State, c: Call)
    requires Tracked(cfg, s) && ListedAreLoaded(s) && c.Copy? && CopyStep(cfg, s, c).Return?
    ensures ListedAreLoaded(CopyStep(cfg, s, c).state) <==> !HookFails(cfg, s, c)
  {
    if c.id in cfg.images {
      CopyListsItsImage(cfg, s, c);
      CopyFrame(cfg, s, c);
      FramedListed(s, CopyStep(cfg, s, c).state, c.id);
    }
  }

  lemma AuthListed(cfg: Config, s: State, c: Call)
    requires Tracked(cfg, s) && ListedAreLoaded(s) && c.Auth? && AuthStep(cfg, s, c).Return?
    ensures ListedAreLoaded(AuthStep(cfg, s, c).state)
  {
    if c.id in cfg.images && s.descs[c.id].state == AuthFrom(cfg.images[c.id], c.caller) {
      if s.descs[c.id].state == Copied {
        RemoveFacts(s.loaded, c.id);
      } else {
        AddFacts(s.loaded, c.id);
        RemoveFacts(AddLoadedId(s.loaded, c.id).1, c.id);
      }
    }
  }

  lemma ControlListed(cfg: Config, s: State, c: Call)
    requires Tracked(cfg, s) && ListedAreLoaded(s) && !c.Copy? && !c.Auth? && Step(cfg, s, c).Return?
    ensures ListedAreLoaded(Step(cfg, s, c).state)
  {
    var s' := Step(cfg, s, c).state;
    if s' != s {
      var id := if c.Resume? || c.SecImageDone? then s.secExec else c.id;
      RemoveFacts(s.loaded, id);
      assert forall x :: x in s.descs && x != id ==> s'.descs[x] == s.descs[x];
    }
  }

  /** An image is listed if and only if it left RESET, and a step breaks this exactly when it is a copy
      that only the pre-load hook refuses. */
  lemma ListedIffLoaded(cfg: Config, s: State, c: Call)
    requires Tracked(cfg, s) && ListedAreLoaded(s) && Step(cfg, s, c).Return?
    ensures forall id :: id in cfg.images && id != cfg.boot ==> (id in Ids(s.loaded) <==> s.descs[id].state != Reset)
    ensures ListedAreLoaded(Step(cfg, s, c).state) <==> !HookFails(cfg, s, c)
  {
    if c.Copy? { CopyListed(cfg, s, c); } else if c.Auth? { AuthListed(cfg, s, c); } else { ControlListed(cfg, s, c); }
  }
}
