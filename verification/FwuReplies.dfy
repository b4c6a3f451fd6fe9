/** What each call of the firmware-update service replies, exactly, and what its callers get by it: copying in blocks,
    and calls that undo others. */
module FwuReplies {
  import opened Bytes
  import opened Common
  import opened FwuModel
  import opened FwuInvariant
  import opened FwuScan
  import opened FwuIntegrity
  import opened FwuStops

  // ----- Every reply -----

  ghost predicate HasSlot(s: State, id: nat) { id in s.loaded || INVALID_IMAGE_ID in s.loaded }

  /** The normal world asks for a secure image of which bytes are missing. */
  ghost predicate MayCopy(cfg: Config, s: State, c: Call)
    requires Basic(cfg, s) && c.Copy?
  {
    && c.id in cfg.images && c.caller == NonSecure && cfg.images[c.id].world == Secure
    && (s.descs[c.id].state == Reset || s.descs[c.id].state == Copying)
  }

  ghost predicate BlockInOrder(c: Call)
    requires c.Copy?
  {
    c.src != 0 && |c.block| > 0 && c.src + |c.block| - 1 <= UINTPTR_MAX
  }

  ghost predicate SizeInOrder(cfg: Config, c: Call)
    requires c.Copy? && c.id in cfg.images
  {
    0 < c.size <= cfg.images[c.id].maxSize
  }

  /** No listed image is in the way of the one to be copied. */
  ghost predicate NothingInTheWay(cfg: Config, s: State, id: nat, size: nat)
    requires id in cfg.images
  {
    forall x :: x in Ids(s.loaded) ==> GoesOn(cfg, s.descs, id, size, x)
  }

  /** The service gets to moving the block but for what the platform says. */
  ghost predicate CopyDue(cfg: Config, s: State, c: Call)
    requires Basic(cfg, s) && c.Copy?
  {
    && MayCopy(cfg, s, c) && BlockInOrder(c)
    && (s.descs[c.id].state == Reset ==> SizeInOrder(cfg, c) && NothingInTheWay(cfg, s, c.id, c.size))
  }

  ghost predicate MayAuthenticate(cfg: Config, s: State, c: Call)
    requires Basic(cfg, s) && c.Auth?
  {
    && c.id in cfg.images
    && s.descs[c.id].state == (if c.caller == NonSecure && cfg.images[c.id].world == Secure then Copied else Reset)
  }

  /** The conditions, read off state and call, under which a call is answered with each status. */
  ghost predicate Replies(cfg: Config, s: State, c: Call, st: Status)
    requires Basic(cfg, s)
  {
    match c
    case Copy(id, _, _, _, _, mapped, hookOk) => (
      match st
      case Ok => CopyDue(cfg, s, c) && mapped && HasSlot(s, id) && (s.descs[id].state == Reset ==> hookOk)
      case Enomem =>
        || (MayCopy(cfg, s, c) && !BlockInOrder(c))
        || (MayCopy(cfg, s, c) && s.descs[id].state == Reset && !SizeInOrder(cfg, c))
        || (CopyDue(cfg, s, c) && !(mapped && HasSlot(s, id)))
      case Eperm =>
        || !MayCopy(cfg, s, c)
        || (FirstRequest(cfg, s, c) && !NothingInTheWay(cfg, s, id, c.size) && !Stops(cfg, s, c))
        || HookRefuses(cfg, s, c)
      case Eauth => false)
    case Auth(_, _, _, _, _, verified, hookOk) => (
      match st
      case Ok => ReachesVerification(cfg, s, c) && verified && hookOk
      case Eauth => ReachesVerification(cfg, s, c) && !verified
      case Enomem => MayAuthenticate(cfg, s, c) && !ReachesVerification(cfg, s, c)
      case Eperm => !MayAuthenticate(cfg, s, c))
    case Execute(id, caller) =>
      var may := caller == NonSecure && id in cfg.images && cfg.images[id].world == Secure &&
                 cfg.images[id].executable && s.descs[id].state == Authenticated;
      (st == Ok && may) || (st == Eperm && !may)
    case Resume(caller) =>
      || (st == Ok && s.secExec in cfg.images &&
          s.descs[s.secExec].state == if caller == Secure then Executed else Interrupted)
      || (st == Eperm && caller == NonSecure && s.secExec !in cfg.images)
    case SecImageDone(caller) =>
      || (st == Ok && caller == Secure && s.secExec in cfg.images && s.descs[s.secExec].state == Executed)
      || (st == Eperm && caller == NonSecure)
    case ResetImage(id, caller) =>
      || (st == Ok && caller == NonSecure && id in cfg.images && s.descs[id].state != Executed)
      || (st == Eperm && (caller == Secure || id !in cfg.images))
  }

  /** Only the pre-load hook of the platform is against a first copy. */
  ghost predicate HookRefuses(cfg: Config, s: State, c: Call)
    requires Basic(cfg, s) && c.Copy?
  {
    CopyDue(cfg, s, c) && s.descs[c.id].state == Reset && c.mapped && HasSlot(s, c.id) && !c.hookOk
  }

  lemma CopyReplies(cfg: Config, s: State, c: Call, st: Status)
    requires Tracked(cfg, s) && c.Copy? && CopyStep(cfg, s, c).Return?
    ensures CopyStep(cfg, s, c).status == st <==> Replies(cfg, s, c, st)
  {
    if FirstRequest(cfg, s, c) {
      FirstCopyReplies(cfg, s, c, st);
    } else if c.id in cfg.images {
      AddFacts(s.loaded, c.id);
    }
  }

  lemma FirstCopyReplies(cfg: Config, s: State, c: Call, st: Status)
    requires Tracked(cfg, s) && FirstRequest(cfg, s, c) && CopyStep(cfg, s, c).Return?
    ensures CopyStep(cfg, s, c).status == st <==> Replies(cfg, s, c, st)
  {
    CopyStops(cfg, s, c);
    AddFacts(s.loaded, c.id);
    VerdictClear(cfg, s, c);
  }

  lemma AuthReplies(cfg: Config, s: State, c: Call, st: Status)
    requires Tracked(cfg, s) && c.Auth? && AuthStep(cfg, s, c).Return?
    ensures AuthStep(cfg, s, c).status == st <==> Replies(cfg, s, c, st)
  {
    if c.id in cfg.images { AddFacts(s.loaded, c.id); }
  }

  /** Every call of the service, in every state a run can reach, is answered with a status exactly under the condition
      for it. */
  lemma RepliesExactly(cfg: Config, s: State, c: Call, st: Status)
    requires Tracked(cfg, s) && !Stops(cfg, s, c)
    ensures Step(cfg, s, c).Return? && (Step(cfg, s, c).status == st <==> Replies(cfg, s, c, st))
  {
    StopsExactly(cfg, s, c);
    if c.Copy? {
      CopyReplies(cfg, s, c, st);
    } else if c.Auth? {
      AuthReplies(cfg, s, c, st);
    } else if c.ResetImage? && c.id in cfg.images {
      RemoveFacts(s.loaded, c.id);
    }
  }

  /** The same for the next call of every run. */
  lemma RunRepliesExactly(cfg: Config, t: Trace, c: Call, st: Status)
    requires WellFormed(cfg) && IsRun(cfg, t)
    ensures Basic(cfg, t.Last().state)
    ensures !Stops(cfg, t.Last().state, c) ==>
              Step(cfg, t.Last().state, c).Return? &&
              (Step(cfg, t.Last().state, c).status == st <==> Replies(cfg, t.Last().state, c, st))
  {
    RunTracked(cfg, t, |t.points| - 1);
    if !Stops(cfg, t.Last().state, c) { RepliesExactly(cfg, t.Last().state, c, st); }
  }

  // ----- Copying in blocks -----

  /** Calls served one after the other, up to the first that is not answered with success. */
  function Serve(cfg: Config, s: State, calls: seq<Call>): Outcome
    requires Basic(cfg, s)
    decreases |calls|
  {
    if calls == [] then Return(Ok, s)
    else
      var r := Step(cfg, s, calls[0]);
      if r.Stop? || r.status != Ok then r
      else StepKeepsBasic(cfg, s, calls[0]); Serve(cfg, r.state, calls[1..])
  }

  /** A call of the normal world that brings a block of an image. */
  ghost predicate BringsBlock(id: nat, c: Call) {
    c.Copy? && c.id == id && c.caller == NonSecure && c.mapped && BlockInOrder(c)
  }

  ghost predicate BringBlocks(id: nat, calls: seq<Call>) {
    forall i :: 0 <= i < |calls| ==> BringsBlock(id, calls[i])
  }

  /** The blocks, put together. */
  ghost function Payload(id: nat, calls: seq<Call>): seq<byte>
    requires BringBlocks(id, calls)
  {
    if calls == [] then [] else calls[0].block + Payload(id, calls[1..])
  }

  /** Each call finds bytes missing: what comes before the last one does not fill the image. */
  ghost predicate InTurn(id: nat, calls: seq<Call>, missing: nat)
    requires BringBlocks(id, calls)
  {
    calls == [] || |Payload(id, calls[..|calls| - 1])| < missing
  }

  /** Memory `m'` is `m` with the bytes at `at`, as far as `left` of them are missing. */
  ghost predicate MemoryFilled(m: seq<byte>, m': seq<byte>, at: nat, left: nat, bytes: seq<byte>)
    requires at + left <= |m|
  {
    m' == Splice(m, at, Clip(bytes, left))
  }

  /** The descriptor after `n` more bytes of the image arrived. */
  function Advanced(d: Desc, n: nat): Desc
    requires d.copiedSize < d.imageSize
  {
    if n < d.imageSize - d.copiedSize then Desc(Copying, d.copiedSize + n, d.imageSize)
    else Desc(Copied, d.imageSize, d.imageSize)
  }

  /** State `s'` is `s` with the bytes behind what was copied of the image, as far as it needs them, and its
      descriptor moved on. */
  ghost predicate Filled(cfg: Config, s: State, s': State, id: nat, d: Desc, bytes: seq<byte>)
    requires Basic(cfg, s) && id in cfg.images && d.copiedSize < d.imageSize <= cfg.images[id].maxSize
  {
    && s'.descs == s.descs[id := Advanced(d, |bytes|)]
    && MemoryFilled(s.mem, s'.mem, cfg.images[id].base + d.copiedSize, d.imageSize - d.copiedSize, bytes)
    && Ids(s'.loaded) == Ids(s.loaded) + {id} && s'.secExec == s.secExec
  }

  lemma CopyBlockFills(cfg: Config, s: State, c: Call, d: Desc)
    requires Basic(cfg, s) && NoDuplicates(s.loaded) && c.Copy? && c.id in cfg.images && c.mapped
    requires d.copiedSize < d.imageSize <= cfg.images[c.id].maxSize
    requires HasSlot(s, c.id) && (d.state == Reset ==> c.hookOk)
    ensures CopyBlock(cfg, s, c, d).status == Ok && Filled(cfg, s, CopyBlock(cfg, s, c, d).state, c.id, d, c.block)
  {
    AddFacts(s.loaded, c.id);
  }

  /** One call of them. */
  lemma BlockServed(cfg: Config, s: State, id: nat, c: Call)
    requires Tracked(cfg, s) && id in cfg.images && cfg.images[id].world == Secure
    requires BringsBlock(id, c) && s.descs[id].state == Copying
    ensures Step(cfg, s, c).Return? && Step(cfg, s, c).status == Ok
    ensures Filled(cfg, s, Step(cfg, s, c).state, id, s.descs[id], c.block)
    ensures Tracked(cfg, Step(cfg, s, c).state)
  {
    assert id in Ids(s.loaded);
    CopyBlockFills(cfg, s, c, s.descs[id]);
    StepTracked(cfg, s, c);
  }

  lemma FirstBlockServed(cfg: Config, s: State, id: nat, c: Call)
    requires Tracked(cfg, s) && id in cfg.images && cfg.images[id].world == Secure
    requires BringsBlock(id, c) && s.descs[id].state == Reset && HasSlot(s, id)
    requires SizeInOrder(cfg, c) && NothingInTheWay(cfg, s, id, c.size) && c.hookOk
    ensures Step(cfg, s, c).Return? && Step(cfg, s, c).status == Ok
    ensures Filled(cfg, s, Step(cfg, s, c).state, id, Desc(Reset, 0, c.size), c.block)
    ensures Tracked(cfg, Step(cfg, s, c).state)
  {
    VerdictClear(cfg, s, c);
    ClearCopies(cfg, s, c);
    CopyBlockFills(cfg, s, c, Desc(Reset, 0, c.size));
    StepTracked(cfg, s, c);
  }

  lemma ClearCopies(cfg: Config, s: State, c: Call)
    requires Basic(cfg, s) && FirstRequest(cfg, s, c) && Verdict(cfg, s, c) == Clear
    ensures CopyStep(cfg, s, c) == CopyBlock(cfg, s, c, Desc(Reset, 0, c.size))
  {
  }

  /** An image that is complete takes no more blocks. */
  lemma CompleteRefuses(cfg: Config, s: State, id: nat, calls: seq<Call>)
    requires Basic(cfg, s) && BringBlocks(id, calls) && calls != []
    requires id in cfg.images && s.descs[id].state == Copied
    ensures Serve(cfg, s, calls) == Return(Eperm, s)
  {
    assert BringsBlock(id, calls[0]);
  }

  lemma PayloadParts(id: nat, calls: seq<Call>)
    requires BringBlocks(id, calls) && calls != []
    ensures BringBlocks(id, calls[1..]) && Payload(id, calls) == calls[0].block + Payload(id, calls[1..])
    ensures |calls| > 1 ==>
              Payload(id, calls[..|calls| - 1]) == calls[0].block + Payload(id, calls[1..][..|calls| - 2])
  {
    if |calls| > 1 { assert calls[..|calls| - 1][1..] == calls[1..][..|calls| - 2]; }
  }

  /** The calls come in turn if there is but one, or if the first leaves bytes missing and the others come in turn. */
  lemma TurnParts(id: nat, calls: seq<Call>, missing: nat)
    requires BringBlocks(id, calls) && calls != [] && missing > 0
    ensures BringBlocks(id, calls[1..])
    ensures InTurn(id, calls, missing) <==>
            |calls| == 1 || (|calls[0].block| < missing && InTurn(id, calls[1..], missing - |calls[0].block|))
  {
    PayloadParts(id, calls);
  }

  lemma MemoryTwice(m: seq<byte>, m1: seq<byte>, m2: seq<byte>, at: nat, left: nat, a: seq<byte>, b: seq<byte>)
    requires at + left <= |m| && |a| < left && MemoryFilled(m, m1, at, left, a)
    requires MemoryFilled(m1, m2, at + |a|, left - |a|, b)
    ensures MemoryFilled(m, m2, at, left, a + b)
  {
    assert Clip(a, left) == a && Clip(a + b, left) == a + Clip(b, left - |a|);
    SpliceAppend(m, at, a, Clip(b, left - |a|));
  }

  /** Putting one block in and then the rest is putting all in. */
  lemma FilledTwice(cfg: Config, s: State, s1: State, s2: State, id: nat, d: Desc, a: seq<byte>, b: seq<byte>)
    requires Basic(cfg, s) && Basic(cfg, s1) && id in cfg.images
    requires d.copiedSize < d.imageSize <= cfg.images[id].maxSize && |a| < d.imageSize - d.copiedSize
    requires Filled(cfg, s, s1, id, d, a) && Filled(cfg, s1, s2, id, Advanced(d, |a|), b)
    ensures Filled(cfg, s, s2, id, d, a + b)
  {
    assert Advanced(Advanced(d, |a|), |b|) == Advanced(d, |a + b|);
    MemoryTwice(s.mem, s1.mem, s2.mem, cfg.images[id].base + d.copiedSize, d.imageSize - d.copiedSize, a, b);
  }

  /** The calls are all served exactly if they come in turn, and then the image is filled with their blocks. */
  ghost predicate ServedInTurn(cfg: Config, s: State, id: nat, d: Desc, calls: seq<Call>)
    requires Basic(cfg, s) && id in cfg.images && d.copiedSize < d.imageSize <= cfg.images[id].maxSize
    requires BringBlocks(id, calls)
  {
    var r := Serve(cfg, s, calls);
    && r.Return? && (r.status == Ok <==> InTurn(id, calls, d.imageSize - d.copiedSize))
    && (r.status == Ok ==> Filled(cfg, s, r.state, id, d, Payload(id, calls)) && Tracked(cfg, r.state))
  }

  /** The first call is served with success. */
  ghost predicate Serves(cfg: Config, s: State, s1: State, id: nat, d: Desc, c: Call)
    requires Basic(cfg, s) && id in cfg.images && d.copiedSize < d.imageSize <= cfg.images[id].maxSize && c.Copy?
  {
    Step(cfg, s, c) == Return(Ok, s1) && Filled(cfg, s, s1, id, d, c.block) && Tracked(cfg, s1)
  }

  lemma OneCall(cfg: Config, s: State, s1: State, id: nat, d: Desc, calls: seq<Call>)
    requires Basic(cfg, s) && id in cfg.images && d.copiedSize < d.imageSize <= cfg.images[id].maxSize
    requires BringBlocks(id, calls) && |calls| == 1 && Serves(cfg, s, s1, id, d, calls[0])
    ensures ServedInTurn(cfg, s, id, d, calls)
  {
    PayloadParts(id, calls);
    assert Payload(id, calls) == calls[0].block;
  }

  lemma OneTooMany(cfg: Config, s: State, s1: State, id: nat, d: Desc, calls: seq<Call>)
    requires Basic(cfg, s) && id in cfg.images && d.copiedSize < d.imageSize <= cfg.images[id].maxSize
    requires BringBlocks(id, calls) && |calls| > 1 && Serves(cfg, s, s1, id, d, calls[0])
    requires |calls[0].block| >= d.imageSize - d.copiedSize
    ensures ServedInTurn(cfg, s, id, d, calls)
  {
    TurnParts(id, calls, d.imageSize - d.copiedSize);
    CompleteRefuses(cfg, s1, id, calls[1..]);
  }

  lemma OneMore(cfg: Config, s: State, s1: State, id: nat, d: Desc, calls: seq<Call>)
    requires Basic(cfg, s) && id in cfg.images && d.copiedSize < d.imageSize <= cfg.images[id].maxSize
    requires BringBlocks(id, calls) && |calls| > 1 && Serves(cfg, s, s1, id, d, calls[0])
    requires |calls[0].block| < d.imageSize - d.copiedSize
    requires ServedInTurn(cfg, s1, id, Advanced(d, |calls[0].block|), calls[1..])
    ensures ServedInTurn(cfg, s, id, d, calls)
  {
    var a, rest := calls[0].block, calls[1..];
    TurnParts(id, calls, d.imageSize - d.copiedSize);
    PayloadParts(id, calls);
    var r := Serve(cfg, s1, rest);
    if r.status == Ok { FilledTwice(cfg, s, s1, r.state, id, d, a, Payload(id, rest)); }
  }

  /** From the middle of an image on. */
  lemma {:induction false} RestServed(cfg: Config, s: State, id: nat, calls: seq<Call>)
    requires Tracked(cfg, s) && id in cfg.images && cfg.images[id].world == Secure
    requires s.descs[id].state == Copying && BringBlocks(id, calls) && calls != []
    ensures ServedInTurn(cfg, s, id, s.descs[id], calls)
    decreases |calls|
  {
    var d := s.descs[id];
    BlockServed(cfg, s, id, calls[0]);
    AfterFirst(cfg, s, Step(cfg, s, calls[0]).state, id, d, calls);
  }

  lemma {:induction false} AfterFirst(cfg: Config, s: State, s1: State, id: nat, d: Desc, calls: seq<Call>)
    requires Basic(cfg, s) && id in cfg.images && d.copiedSize < d.imageSize <= cfg.images[id].maxSize
    requires cfg.images[id].world == Secure
    requires BringBlocks(id, calls) && calls != [] && Serves(cfg, s, s1, id, d, calls[0])
    ensures ServedInTurn(cfg, s, id, d, calls)
    decreases |calls|, 0
  {
    if |calls| == 1 {
      OneCall(cfg, s, s1, id, d, calls);
    } else if |calls[0].block| >= d.imageSize - d.copiedSize {
      OneTooMany(cfg, s, s1, id, d, calls);
    } else {
      assert s1.descs[id] == Advanced(d, |calls[0].block|);
      RestServed(cfg, s1, id, calls[1..]);
      OneMore(cfg, s, s1, id, d, calls);
    }
  }

  /** Copying an image in blocks from RESET, with nothing in the way and a platform that does not refuse: the calls are
      all served exactly if they come in turn, and then the image has its blocks in memory, one behind the other and cut
      to its size, and is COPIED exactly if they fill it.  Nothing else changed. */
  lemma BlockwiseCopy(cfg: Config, s: State, id: nat, calls: seq<Call>)
    requires Tracked(cfg, s) && id in cfg.images && cfg.images[id].world == Secure && s.descs[id].state == Reset
    requires BringBlocks(id, calls) && calls != []
    requires SizeInOrder(cfg, calls[0]) && NothingInTheWay(cfg, s, id, calls[0].size)
    requires HasSlot(s, id) && calls[0].hookOk
    ensures ServedInTurn(cfg, s, id, Desc(Reset, 0, calls[0].size), calls)
  {
    FirstBlockServed(cfg, s, id, calls[0]);
    AfterFirst(cfg, s, Step(cfg, s, calls[0]).state, id, Desc(Reset, 0, calls[0].size), calls);
  }

  /** Any cut of an image into blocks that are not empty is served up to COPIED, and the image is in memory. */
  lemma AnyCutCopies(cfg: Config, s: State, id: nat, calls: seq<Call>)
    requires Tracked(cfg, s) && id in cfg.images && cfg.images[id].world == Secure && s.descs[id].state == Reset
    requires BringBlocks(id, calls) && calls != [] && calls[0].size == |Payload(id, calls)|
    requires SizeInOrder(cfg, calls[0]) && NothingInTheWay(cfg, s, id, calls[0].size)
    requires HasSlot(s, id) && calls[0].hookOk
    ensures var r := Serve(cfg, s, calls);
            && r.Return? && r.status == Ok && id in r.state.descs
            && r.state.descs[id] == Desc(Copied, calls[0].size, calls[0].size)
            && r.state.mem == Splice(s.mem, cfg.images[id].base, Payload(id, calls))
  {
    BlockwiseCopy(cfg, s, id, calls);
    AllButLast(id, calls);
    FilledWhole(cfg, s, Serve(cfg, s, calls).state, id, calls[0].size, Payload(id, calls));
  }

  lemma FilledWhole(cfg: Config, s: State, s': State, id: nat, size: u32, bytes: seq<byte>)
    requires Basic(cfg, s) && id in cfg.images && 0 < size <= cfg.images[id].maxSize && |bytes| == size
    requires Filled(cfg, s, s', id, Desc(Reset, 0, size), bytes)
    ensures id in s'.descs && s'.descs[id] == Desc(Copied, size, size)
    ensures s'.mem == Splice(s.mem, cfg.images[id].base, bytes)
  {
  }

  lemma {:induction false} AllButLast(id: nat, calls: seq<Call>)
    requires BringBlocks(id, calls) && calls != []
    ensures |Payload(id, calls[..|calls| - 1])| < |Payload(id, calls)|
    decreases |calls|
  {
    PayloadParts(id, calls);
    if |calls| > 1 { AllButLast(id, calls[1..]); }
  }

  // ----- Calls that undo others -----

  /** Memory, the image to resume and the states of all images are the same, and but for that of image `id` so are the
      descriptors. */
  ghost predicate Untouched(s: State, s': State, id: nat) {
    && s'.mem == s.mem && s'.secExec == s.secExec && s'.descs.Keys == s.descs.Keys
    && (forall x :: x in s.descs && x != id ==> s'.descs[x] == s.descs[x])
    && (id in s.descs ==> s'.descs[id].state == s.descs[id].state && s'.descs[id].copiedSize <= s.descs[id].copiedSize)
  }

  /** A refused copy changes no more than the sizes of its image, and no other refused request changes anything. */
  lemma CopyRefused(cfg: Config, s: State, c: Call)
    requires Basic(cfg, s) && c.Copy? && CopyStep(cfg, s, c).Return? && CopyStep(cfg, s, c).status != Ok
    ensures Untouched(s, CopyStep(cfg, s, c).state, c.id)
  {
  }

  lemma RequestRefused(cfg: Config, s: State, c: Call)
    requires Basic(cfg, s) && !c.Copy? && Step(cfg, s, c).Return? && Step(cfg, s, c).status in {Eperm, Enomem}
    ensures Step(cfg, s, c).state == s
  {
  }

  /** An image that was copied and fails authentication is zeroed, all of it and nothing beyond, unlisted, and back in
      RESET. */
  lemma FailedAuthentication(cfg: Config, s: State, c: Call)
    requires Tracked(cfg, s) && c.Auth? && c.id in cfg.images && s.descs[c.id].state == Copied
    requires c.caller == NonSecure && !c.verified
    ensures var r, img, d := Step(cfg, s, c), cfg.images[c.id], s.descs[c.id];
            && r.Return? && r.status == Eauth
            && r.state.descs == s.descs[c.id := d.(state := Reset)]
            && Ids(r.state.loaded) == Ids(s.loaded) - {c.id}
            && |r.state.mem| == |s.mem|
            && forall i :: 0 <= i < |s.mem| ==>
                 r.state.mem[i] == if img.base <= i < img.base + d.imageSize then 0 else s.mem[i]
  {
    RemoveFacts(s.loaded, c.id);
  }

  /** A reset takes back a copy that was just made, complete or not: table, states and the image to resume are as
      before, and the bytes that were copied are zero. */
  lemma ResetUndoesCopy(cfg: Config, s: State, s1: State, id: nat, size: u32, bytes: seq<byte>)
    requires Tracked(cfg, s) && id in cfg.images && cfg.images[id].world == Secure && s.descs[id].state == Reset
    requires id !in Ids(s.loaded) && 0 < size <= cfg.images[id].maxSize
    requires Tracked(cfg, s1) && Filled(cfg, s, s1, id, Desc(Reset, 0, size), bytes)
    ensures var r := Step(cfg, s1, ResetImage(id, NonSecure));
            && r.Return? && r.status == Ok && Ids(r.state.loaded) == Ids(s.loaded) && r.state.secExec == s.secExec
            && r.state.descs == s.descs[id := Desc(Reset, 0, 0)]
            && r.state.mem == Splice(s.mem, cfg.images[id].base, Zeros(|Clip(bytes, size)|))
  {
    RemoveFacts(s1.loaded, id);
    var added := Clip(bytes, size);
    assert s1.descs[id].copiedSize == |added|;
    assert Splice(s1.mem, cfg.images[id].base, Zeros(|added|)) == Splice(s.mem, cfg.images[id].base, Zeros(|added|));
  }

  /** An image authenticated in place is listed with the size given, whatever bytes it still counts, and memory is left
      alone. */
  lemma AuthenticatedInPlace(cfg: Config, s: State, c: Call)
    requires Tracked(cfg, s) && c.Auth? && c.id in cfg.images && s.descs[c.id].state == Reset
    requires Step(cfg, s, c).Return? && Step(cfg, s, c).status == Ok
    ensures var s' := Step(cfg, s, c).state;
            && s'.descs == s.descs[c.id := Desc(Authenticated, s.descs[c.id].copiedSize, c.size)]
            && Ids(s'.loaded) == Ids(s.loaded) + {c.id} && s'.mem == s.mem && s'.secExec == s.secExec
  {
    AddFacts(s.loaded, c.id);
  }

  /** A reset takes it back, and clears the bytes it still counted. */
  lemma ResetUndoesAuthentication(cfg: Config, s: State, c: Call)
    requires Tracked(cfg, s) && c.Auth? && c.id in cfg.images && s.descs[c.id].state == Reset
    requires c.id !in Ids(s.loaded) && Step(cfg, s, c).Return? && Step(cfg, s, c).status == Ok
    ensures var r := Serve(cfg, s, [c, ResetImage(c.id, NonSecure)]);
            && r.Return? && r.status == Ok && Ids(r.state.loaded) == Ids(s.loaded) && r.state.secExec == s.secExec
            && r.state.descs == s.descs[c.id := Desc(Reset, 0, 0)]
            && r.state.mem == Splice(s.mem, cfg.images[c.id].base, Zeros(s.descs[c.id].copiedSize))
  {
    var s1 := Step(cfg, s, c).state;
    AuthenticatedInPlace(cfg, s, c);
    StepTracked(cfg, s, c);
    RemoveFacts(s1.loaded, c.id);
    ServeTwo(cfg, s, c, ResetImage(c.id, NonSecure));
  }

  lemma ServeTwo(cfg: Config, s: State, a: Call, b: Call)
    requires Basic(cfg, s) && Step(cfg, s, a).Return? && Step(cfg, s, a).status == Ok
    ensures Basic(cfg, Step(cfg, s, a).state)
    ensures Serve(cfg, s, [a, b]) == Step(cfg, Step(cfg, s, a).state, b)
  {
    StepKeepsBasic(cfg, s, a);
    var s1 := Step(cfg, s, a).state;
    assert [a, b][1..] == [b];
    assert Serve(cfg, s1, [b]) == Step(cfg, s1, b) by {
      var r := Step(cfg, s1, b);
      if r.Return? && r.status == Ok {
        StepKeepsBasic(cfg, s1, b);
        assert Serve(cfg, r.state, [b][1..]) == r;
      }
    }
  }

  /** An image that is interrupted and resumed goes on as it was. */
  lemma ResumeRoundTrip(cfg: Config, s: State)
    requires Tracked(cfg, s) && s.secExec in cfg.images && s.descs[s.secExec].state == Executed
    ensures Serve(cfg, s, [Resume(Secure), Resume(NonSecure)]) == Return(Ok, s)
  {
    var s1 := Step(cfg, s, Resume(Secure)).state;
    StepTracked(cfg, s, Resume(Secure));
    ServeTwo(cfg, s, Resume(Secure), Resume(NonSecure));
    assert Step(cfg, s1, Resume(NonSecure)).state.descs == s.descs;
  }

  /** An image runs and is done: it is back in RESET, unlisted, no image is left to resume, and nothing else changed. */
  lemma ExecuteThenDone(cfg: Config, s: State, id: nat)
    requires Tracked(cfg, s) && id in cfg.images && cfg.images[id].world == Secure && cfg.images[id].executable
    requires s.descs[id].state == Authenticated
    ensures var r := Serve(cfg, s, [Execute(id, NonSecure), SecImageDone(Secure)]);
            && r.Return? && r.status == Ok && r.state.secExec == INVALID_IMAGE_ID && r.state.mem == s.mem
            && r.state.descs == s.descs[id := s.descs[id].(state := Reset)]
            && Ids(r.state.loaded) == Ids(s.loaded) - {id}
  {
    var s1 := Step(cfg, s, Execute(id, NonSecure)).state;
    StepTracked(cfg, s, Execute(id, NonSecure));
    RemoveFacts(s.loaded, id);
    ServeTwo(cfg, s, Execute(id, NonSecure), SecImageDone(Secure));
  }
}
