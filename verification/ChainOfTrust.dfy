/** Loading an image together with its chain of trust (common/bl_common.c).

    Before an image is loaded and verified, its parent is, unless the parent is authenticated already.  What
    storage delivers and what a verification finds are chosen freely at each attempt. */
module ChainOfTrust {
  import opened Bytes
  import opened AuthMod
  import opened Common

  datatype Rc = Ok | IoFailure | TooBig | Eauth | MeasureFailure

  /** The forest of images: the parent of each, and a depth that shows there is no cycle. */
  datatype Cot = Cot(parent: map<nat, nat>, depth: map<nat, nat>)

  ghost predicate Acyclic(cot: Cot) {
    forall id :: id in cot.parent ==>
      id in cot.depth && cot.parent[id] in cot.depth && cot.depth[cot.parent[id]] < cot.depth[id]
  }

  function Depth(cot: Cot, id: nat): nat { if id in cot.depth then cot.depth[id] else 0 }

  /** Every authenticated image has an authenticated parent. */
  ghost predicate Closed(cot: Cot, authenticated: set<nat>) {
    forall id :: id in authenticated && id in cot.parent ==> cot.parent[id] in authenticated
  }

  /** `anc` is the image itself or an ancestor of it, `n` levels up. */
  ghost predicate Ancestor(cot: Cot, anc: nat, id: nat, n: nat)
    decreases n
  {
    if n == 0 then anc == id
    else id in cot.parent && Ancestor(cot, anc, cot.parent[id], n - 1)
  }

  /** In a closed set an authenticated image has all its ancestors with it, up to the root of trust. */
  lemma {:induction false} AncestorsAuthenticated(cot: Cot, authenticated: set<nat>, anc: nat, id: nat, n: nat)
    requires Closed(cot, authenticated) && id in authenticated && Ancestor(cot, anc, id, n)
    ensures anc in authenticated
    decreases n
  {
    if n > 0 { AncestorsAuthenticated(cot, authenticated, anc, cot.parent[id], n - 1); }
  }

  lemma AllAncestors(cot: Cot, authenticated: set<nat>, id: nat)
    requires Closed(cot, authenticated) && id in authenticated
    ensures forall anc, n: nat :: Ancestor(cot, anc, id, n) ==> anc in authenticated
  {
    forall anc, n: nat | Ancestor(cot, anc, id, n)
      ensures anc in authenticated
    {
      AncestorsAuthenticated(cot, authenticated, anc, id, n);
    }
  }

  /** Results of the storage layer for one image, in the order in which it is asked. */
  datatype Io = Io(source: bool, open: bool, sized: bool, size: nat, read: bool, data: seq<byte>)

  /** The read is tried: the image can be opened, and has a size that fits. */
  predicate ReachesRead(io: Io, maxSize: nat) {
    io.source && io.open && io.sized && 0 < io.size <= maxSize
  }

  /** The return code of load_image, which passes on the code of the last storage call: a reported size of zero and
      a short read come back as success, and only the verification that follows can tell. */
  function LoadResult(io: Io, maxSize: nat): Rc {
    if !io.source || !io.open || !io.sized then IoFailure
    else if io.size == 0 then Ok
    else if io.size > maxSize then TooBig
    else if io.read then Ok else IoFailure
  }

  /** The size recorded for the image and the memory after load_image. */
  function SizeAfter(io: Io, maxSize: nat, size: nat): nat {
    if ReachesRead(io, maxSize) then io.size else size
  }

  function MemAfter(io: Io, maxSize: nat, mem: seq<byte>, base: nat): seq<byte>
    requires base + maxSize <= |mem| && |io.data| <= io.size
  {
    if ReachesRead(io, maxSize) then Splice(mem, base, io.data) else mem
  }

  /** The bytes of the image range after load_image, which the verification gets. */
  function RangeAfter(io: Io, maxSize: nat, mem: seq<byte>, base: nat, size: nat): seq<byte>
    requires base + maxSize <= |mem| && |io.data| <= io.size && size <= maxSize
  {
    MemAfter(io, maxSize, mem, base)[base..base + SizeAfter(io, maxSize, size)]
  }

  /** After success they are the bytes of the read, then old bytes up to the reported size; after a reported size of
      zero they are the old range. */
  lemma LoadedRange(io: Io, maxSize: nat, mem: seq<byte>, base: nat, size: nat)
    requires base + maxSize <= |mem| && |io.data| <= io.size && size <= maxSize && LoadResult(io, maxSize) == Ok
    ensures RangeAfter(io, maxSize, mem, base, size) ==
            if io.size == 0 then mem[base..base + size] else io.data + mem[base + |io.data|..base + io.size]
  {
    if io.size > 0 { SpliceParts(mem, base, io.data); }
  }

  /** The read delivered the image: all of the reported size, and that is not zero; nothing at all is complete only
      where the recorded size is zero too. */
  predicate ReadsAll(io: Io, size: nat) {
    if io.size == 0 then size == 0 else |io.data| == io.size
  }

  /** When load_image reports success, the image range holds exactly the bytes of this read if and only if the read
      delivered the image. */
  lemma WholeExactly(io: Io, maxSize: nat, mem: seq<byte>, base: nat, size: nat)
    requires base + maxSize <= |mem| && |io.data| <= io.size && size <= maxSize && LoadResult(io, maxSize) == Ok
    ensures RangeAfter(io, maxSize, mem, base, size) == io.data <==> ReadsAll(io, size)
  {
    LoadedRange(io, maxSize, mem, base, size);
    assert io.data + mem[base + io.size..base + io.size] == io.data;
  }

  /** One byte read of two: success, with an old byte behind the new one. */
  lemma ShortReadSucceeds() returns (io: Io)
    ensures io.size == 2 && io.data == [7] && LoadResult(io, 2) == Ok
    ensures RangeAfter(io, 2, [9, 9], 0, 0) == [7, 9]
  {
    io := Io(true, true, true, 2, true, [7]);
    LoadedRange(io, 2, [9, 9], 0, 0);
  }

  /** A size of zero reported: success, with the range of the image loaded before. */
  lemma ZeroSizeSucceeds() returns (io: Io)
    ensures io.size == 0 && io.data == [] && LoadResult(io, 2) == Ok
    ensures RangeAfter(io, 2, [9, 9], 0, 2) == [9, 9]
  {
    io := Io(true, true, true, 0, true, []);
    LoadedRange(io, 2, [9, 9], 0, 2);
  }

  /** What the platform and its storage answer; any answer is possible at any time. */
  class Platform {
    var bootSources: nat

    constructor (bootSources: nat)
      ensures this.bootSources == bootSources
    {
      this.bootSources := bootSources;
    }

    /** One attempt to fetch an image.  A read delivers no more bytes than were asked for. */
    method Fetch(id: nat) returns (io: Io)
      ensures |io.data| <= io.size
    {
      assert |Io(true, true, true, 0, true, []).data| <= 0;
      io :| |io.data| <= io.size;
    }

    /** What a verification of the loaded bytes of image `id` will find. */
    method Inspect(id: nat, bytes: seq<byte>) returns (img: Image)
      ensures img.id == id
    {
      assert Image(id, true, None, false, true, []).id == id;
      img :| img.id == id;
    }

    method Measure() returns (ok: bool)
    {
      ok := *;
    }

    /** plat_try_next_boot_source */
    method TryNextBootSource() returns (another: bool)
      modifies this
      ensures another <==> old(bootSources) > 0
      ensures bootSources == if another then old(bootSources) - 1 else 0
    {
      another := bootSources > 0;
      if another { bootSources := bootSources - 1; }
    }
  }

  /** One image fetched, what verification found if it was loaded, what that left of the authentication module, and what
      it came to. */
  datatype Attempt = Attempt(id: nat, io: Io, before: Auth, found: Option<Image>, after: Auth, rc: Rc)

  /** An attempt at image `id`, with the authentication module in this state: verification looks at the image exactly if
      it was loaded, and the attempt succeeds exactly if it was loaded and accepted. */
  ghost predicate AttemptAt(maxSize: nat, a: Auth, id: nat, at: Attempt) {
    && at.id == id && at.before == a && (at.found.Some? <==> LoadResult(at.io, maxSize) == Ok)
    && (if at.found.Some? then (at.rc, at.after) == (if Verify(a, at.found.value).0 then Ok else Eauth,
                                                     Verify(a, at.found.value).1)
        else at.rc == LoadResult(at.io, maxSize) && at.after == a)
  }

  ghost predicate Failed(done: seq<Attempt>) { done != [] && done[|done| - 1].rc != Ok }

  /** What attempts leave of the authentication module. */
  ghost function Left(a: Auth, done: seq<Attempt>): Auth { if done == [] then a else done[|done| - 1].after }

  /** One pass for image `id`: over its ancestors first, unless its parent is authenticated, and if they succeed an
      attempt at the image itself. */
  ghost predicate IsPass(cot: Cot, maxSize: nat, a: Auth, id: nat, done: seq<Attempt>)
    requires Acyclic(cot)
    decreases Depth(cot, id)
  {
    if id in cot.parent && cot.parent[id] !in a.authenticated then
      || (Failed(done) && IsPass(cot, maxSize, a, cot.parent[id], done))
      || (&& |done| > 1 && !Failed(done[..|done| - 1])
          && IsPass(cot, maxSize, a, cot.parent[id], done[..|done| - 1])
          && AttemptAt(maxSize, Left(a, done[..|done| - 1]), id, done[|done| - 1]))
    else |done| == 1 && AttemptAt(maxSize, a, id, done[0])
  }

  /** The images to load for image `id`: it is the last, and its ancestors come before it, down from the first one above
      it whose parent is authenticated or that has none. */
  ghost function ToLoad(cot: Cot, authenticated: set<nat>, id: nat): (ids: seq<nat>)
    requires Acyclic(cot)
    ensures ids != []
    decreases Depth(cot, id)
  {
    if id in cot.parent && cot.parent[id] !in authenticated then ToLoad(cot, authenticated, cot.parent[id]) + [id]
    else [id]
  }

  /** The attempts are at these images, in order. */
  ghost predicate InOrder(ids: seq<nat>, done: seq<Attempt>) {
    |done| <= |ids| && forall i :: 0 <= i < |done| ==> done[i].id == ids[i]
  }

  /** Each is verified on what the one before left. */
  ghost predicate Chained(a: Auth, done: seq<Attempt>) {
    forall i :: 0 <= i < |done| ==> done[i].before == Left(a, done[..i])
  }

  ghost predicate AllSucceed(done: seq<Attempt>) {
    forall i :: 0 <= i < |done| ==> done[i].rc == Ok
  }

  /** A pass takes the images to load in order, each verified on what the one before left, up to the first that fails.
      It succeeds exactly if all of them load and pass verification. */
  lemma {:induction false} PassShape(cot: Cot, maxSize: nat, a: Auth, id: nat, done: seq<Attempt>)
    requires Acyclic(cot) && IsPass(cot, maxSize, a, id, done)
    ensures done != [] && InOrder(ToLoad(cot, a.authenticated, id), done) && Chained(a, done)
    ensures AllSucceed(done[..|done| - 1])
    ensures !Failed(done) <==>
            AllSucceed(done) && |done| == |ToLoad(cot, a.authenticated, id)|
    decreases Depth(cot, id)
  {
    if id in cot.parent && cot.parent[id] !in a.authenticated {
      if Failed(done) && IsPass(cot, maxSize, a, cot.parent[id], done) {
        PassShape(cot, maxSize, a, cot.parent[id], done);
      } else {
        PassShape(cot, maxSize, a, cot.parent[id], done[..|done| - 1]);
        SnocShape(a, done, ToLoad(cot, a.authenticated, cot.parent[id]), id);
      }
    }
  }

  lemma SnocShape(a: Auth, done: seq<Attempt>, ids: seq<nat>, id: nat)
    requires |done| > 1 && |done| - 1 == |ids| && InOrder(ids, done[..|done| - 1]) && Chained(a, done[..|done| - 1])
    requires AllSucceed(done[..|done| - 1]) && done[|done| - 1].id == id
    requires done[|done| - 1].before == Left(a, done[..|done| - 1])
    ensures InOrder(ids + [id], done) && Chained(a, done)
    ensures AllSucceed(done) <==> done[|done| - 1].rc == Ok
  {
    var most := done[..|done| - 1];
    SnocChained(a, done);
    assert forall i :: 0 <= i < |most| ==> done[i] == most[i];
  }

  lemma SnocChained(a: Auth, done: seq<Attempt>)
    requires |done| > 1 && Chained(a, done[..|done| - 1])
    requires done[|done| - 1].before == Left(a, done[..|done| - 1])
    ensures Chained(a, done)
  {
    var most := done[..|done| - 1];
    forall i | 0 <= i < |done|
      ensures done[i].before == Left(a, done[..i])
    {
      if i < |most| { assert most[i] == done[i] && most[..i] == done[..i]; }
    }
  }

  /** Several passes, each going on from where the one before failed. */
  ghost predicate ArePasses(cot: Cot, maxSize: nat, a: Auth, id: nat, passes: seq<seq<Attempt>>)
    requires Acyclic(cot)
    decreases |passes|
  {
    var n := |passes|;
    if n <= 1 then n == 1 && IsPass(cot, maxSize, a, id, passes[0])
    else
      && ArePasses(cot, maxSize, a, id, passes[..n - 1])
      && Failed(passes[n - 2]) && IsPass(cot, maxSize, Left(a, passes[n - 2]), id, passes[n - 1])
  }

  lemma OneMorePass(cot: Cot, maxSize: nat, a: Auth, id: nat, passes: seq<seq<Attempt>>, pass: seq<Attempt>)
    requires Acyclic(cot) && passes != [] && ArePasses(cot, maxSize, a, id, passes)
    requires Failed(passes[|passes| - 1]) && IsPass(cot, maxSize, Left(a, passes[|passes| - 1]), id, pass)
    ensures ArePasses(cot, maxSize, a, id, passes + [pass])
  {
    assert (passes + [pass])[..|passes|] == passes;
  }

  /** The image information of load_auth_image, the memory it points into, and the authentication module. */
  class Loader {
    const cot: Cot
    const platform: Platform
    const auth: AuthModule
    const mem: array<byte>
    const base: nat
    const maxSize: nat
    var imageSize: nat
    /** The images authenticated at the start, and those flagged since, in order. */
    ghost const initially: set<nat>
    ghost var flagged: seq<nat>
    /** The bytes of each of them that passed verification last. */
    ghost var accepted: map<nat, seq<byte>>

    ghost predicate Valid()
      reads this, auth
    {
      && Acyclic(cot) && base + maxSize <= mem.Length && imageSize <= maxSize
      && Closed(cot, auth.authenticated)
      && auth.authenticated == initially + (set id | id in flagged) && ParentsFirst(cot, initially, flagged)
      && forall id :: id in flagged ==> id in accepted
    }

    constructor (cot: Cot, platform: Platform, auth: AuthModule, mem: array<byte>, base: nat, maxSize: nat)
      requires Acyclic(cot) && base + maxSize <= mem.Length && Closed(cot, auth.authenticated)
      ensures Valid() && this.cot == cot && this.platform == platform && this.auth == auth && this.mem == mem
      ensures this.base == base && this.maxSize == maxSize && imageSize == 0 && flagged == []
    {
      this.cot, this.platform, this.auth, this.mem, this.base, this.maxSize := cot, platform, auth, mem, base, maxSize;
      imageSize, initially, flagged, accepted := 0, auth.authenticated, [], map[];
    }

    /** load_image.  The image goes to its base, and memory outside its range is not touched. */
    method LoadImage(id: nat) returns (rc: Rc, ghost io: Io)
      requires base + maxSize <= mem.Length && imageSize <= maxSize
      modifies this`imageSize, mem
      ensures rc == LoadResult(io, maxSize) && |io.data| <= io.size
      ensures rc == Ok <==>
              io.source && io.open && io.sized && (io.size == 0 || (io.size <= maxSize && io.read))
      ensures rc == TooBig <==> io.source && io.open && io.sized && io.size > maxSize
      ensures imageSize == SizeAfter(io, maxSize, old(imageSize)) <= maxSize
      ensures mem[..] == MemAfter(io, maxSize, old(mem[..]), base)
      ensures rc == Ok ==> (mem[base..base + imageSize] == io.data <==> ReadsAll(io, old(imageSize)))
      ensures mem[..base] == old(mem[..base]) && mem[base + maxSize..] == old(mem[base + maxSize..])
    {
      var answer := platform.Fetch(id);
      io := answer;
      if LoadResult(io, maxSize) == Ok { WholeExactly(io, maxSize, mem[..], base, imageSize); }
      if !answer.source || !answer.open { return IoFailure, io; }
      if !answer.sized || answer.size == 0 { return if answer.sized then Ok else IoFailure, io; }
      if answer.size > maxSize { return TooBig, io; }
      imageSize := answer.size;
      Store(mem, base, answer.data);
      return if answer.read then Ok else IoFailure, io;
    }

    /** The image range holds, byte for byte, what passed verification as image `id`. */
    ghost predicate Holds(id: nat)
      reads this, mem
    {
      base + imageSize <= mem.Length && id in accepted && mem[base..base + imageSize] == accepted[id]
    }

    /** What a result means for image `id`: success that it is authenticated and the image range holds what was
        verified, an authentication error that the image range holds zeros. */
    ghost predicate Comes(rc: Rc, id: nat)
      reads this, auth, mem
    {
      && base + imageSize <= mem.Length && (rc == Ok ==> id in auth.authenticated && Holds(id))
      && (rc == Eauth ==> forall i :: base <= i < base + imageSize ==> mem[i] == 0)
    }

    /** zero_normalmem */
    method ZeroImage()
      requires base + imageSize <= mem.Length
      modifies mem
      ensures mem[..base] == old(mem[..base])
      ensures forall i :: base + imageSize <= i < mem.Length ==> mem[i] == old(mem[i])
      ensures forall i :: base <= i < base + imageSize ==> mem[i] == 0
    {
      forall i | base <= i < base + imageSize { mem[i] := 0; }
    }

    /** load_auth_image_recursive.  The set of authenticated images stays closed under parents in every run, also
        in failing ones; success means the image is in it and the image
        range holds what was verified; images are flagged parents first; counters only
        advance; and after an authentication error the image range holds zeros.  The call is one pass over the images to
        load and comes to what its last attempt does, so it succeeds exactly if all of them load and pass. */
    method LoadAuthRecursive(id: nat) returns (rc: Rc, ghost done: seq<Attempt>)
      requires Valid()
      modifies this`imageSize, this`flagged, this`accepted, auth, mem
      ensures Valid() && Comes(rc, id) && old(flagged) <= flagged
      ensures Kept(old(auth.View()), auth.View(), old(mem[..]), mem[..], base, maxSize)
      ensures IsPass(cot, maxSize, old(auth.View()), id, done)
      ensures done != [] && auth.View() == Left(old(auth.View()), done)
      ensures rc == done[|done| - 1].rc != MeasureFailure
      decreases Depth(cot, id)
    {
      done := [];
      if id in cot.parent && cot.parent[id] !in auth.authenticated {
        rc, done := LoadAuthRecursive(cot.parent[id]);
        if rc != Ok { return; }
      }
      ghost var last;
      rc, last := LoadOne(id);
      assert (done + [last])[..|done|] == done;
      done := done + [last];
    }

    /** Loading and verification of image `id` itself, whose parent is authenticated. */
    method LoadOne(id: nat) returns (rc: Rc, ghost attempt: Attempt)
      requires Valid() && (id in cot.parent ==> cot.parent[id] in auth.authenticated)
      modifies this`imageSize, this`flagged, this`accepted, auth, mem
      ensures Valid() && old(auth.authenticated) <= auth.authenticated
      ensures rc == Ok ==> id in auth.authenticated && Holds(id)
      ensures rc == Eauth ==> forall i :: base <= i < base + imageSize ==> mem[i] == 0
      ensures old(flagged) <= flagged && NotBehind(old(auth.counters), auth.counters)
      ensures mem[..base] == old(mem[..base]) && mem[base + maxSize..] == old(mem[base + maxSize..])
      ensures AttemptAt(maxSize, old(auth.View()), id, attempt)
      ensures attempt.after == auth.View() && rc == attempt.rc
    {
      ghost var before, io := auth.View(), Io(false, false, false, 0, false, []);
      rc, io := LoadImage(id);
      attempt := Attempt(id, io, before, None, before, rc);
      if rc == Ok {
        ghost var img;
        rc, img := VerifyLoaded(id);
        attempt := attempt.(found := Some(img), after := auth.View(), rc := rc);
      }
    }

    /** The second half of it: verification of what was loaded as image `id`, whose parent is authenticated.  It
        succeeds exactly if the authentication module accepts what it finds. */
    method VerifyLoaded(id: nat) returns (rc: Rc, ghost found: Image)
      requires Valid() && (id in cot.parent ==> cot.parent[id] in auth.authenticated)
      modifies this`flagged, this`accepted, auth, mem
      ensures Valid() && old(auth.authenticated) <= auth.authenticated
      ensures rc == Ok || rc == Eauth
      ensures (rc == Ok, auth.View()) == Verify(old(auth.View()), found)
      ensures rc == Ok ==> id in auth.authenticated && Holds(id) && mem[..] == old(mem[..])
      ensures rc == Eauth ==> forall i :: base <= i < base + imageSize ==> mem[i] == 0
      ensures old(flagged) <= flagged && NotBehind(old(auth.counters), auth.counters)
      ensures mem[..base] == old(mem[..base]) && mem[base + maxSize..] == old(mem[base + maxSize..])
    {
      ghost var bytes := mem[base..base + imageSize];
      var img := platform.Inspect(id, mem[base..base + imageSize]);
      AcceptedExactly(auth.View(), img);
      CountersOnlyAdvance(auth.View(), img);
      var ok := auth.VerifyImg(img);
      found := img;
      if !ok {
        ZeroImage();
        return Eauth, found;
      }
      OneMoreFlag(cot, initially, flagged, id);
      flagged, accepted := flagged + [id], accepted[id := bytes];
      return Ok, found;
    }

    /** The passes so far, from when authentication module and memory were these, and what the last came to. */
    ghost predicate Tried(id: nat, a: Auth, m: seq<byte>, passes: seq<seq<Attempt>>, rc: Rc)
      requires Acyclic(cot)
      reads this, auth, mem
    {
      && Comes(rc, id) && Kept(a, auth.View(), m, mem[..], base, maxSize)
      && passes != [] && ArePasses(cot, maxSize, a, id, passes) && auth.View() == Left(a, passes[|passes| - 1])
      && (rc == Ok <==> !Failed(passes[|passes| - 1])) && rc != MeasureFailure
    }

    /** One more pass: the first, or the next after those that failed. */
    method OnePass(id: nat, ghost a: Auth, ghost m: seq<byte>, ghost before: seq<seq<Attempt>>, ghost last: Rc)
      returns (rc: Rc, ghost passes: seq<seq<Attempt>>)
      requires Valid() && last != Ok
      requires if before == [] then a == auth.View() && m == mem[..] else Tried(id, a, m, before, last)
      modifies this`imageSize, this`flagged, this`accepted, auth, mem
      ensures Valid() && Tried(id, a, m, passes, rc) && |passes| == |before| + 1 && before < passes
    {
      ghost var a1, m1 := auth.View(), mem[..];
      ghost var pass;
      rc, pass := LoadAuthRecursive(id);
      if before == [] {
        passes := [pass];
      } else {
        KeptOn(a, a1, auth.View(), m, m1, mem[..], base, maxSize);
        OneMorePass(cot, maxSize, a, id, before, pass);
        passes := before + [pass];
      }
    }

    /** The loop of load_auth_image: a pass for every boot source until one succeeds.  It fails only when no boot source
        is left to try. */
    method TryBootSources(id: nat) returns (rc: Rc, ghost passes: seq<seq<Attempt>>)
      requires Valid()
      modifies this`imageSize, this`flagged, this`accepted, auth, mem, platform
      ensures Valid() && Tried(id, old(auth.View()), old(mem[..]), passes, rc)
      ensures |passes| == 1 + old(platform.bootSources) - platform.bootSources
      ensures rc != Ok ==> platform.bootSources == 0
    {
      ghost var a, m := auth.View(), mem[..];
      rc, passes := OnePass(id, a, m, [], Eauth);
      while rc != Ok
        invariant Valid() && Tried(id, a, m, passes, rc)
        invariant |passes| == 1 + old(platform.bootSources) - platform.bootSources
        decreases platform.bootSources, rc != Ok
      {
        var another := platform.TryNextBootSource();
        if !another { break; }
        rc, passes := OnePass(id, a, m, passes, rc);
      }
    }

    /** load_auth_image.  On success the image and all its ancestors up to the root of trust are authenticated.  It
        succeeds exactly if the last pass does and the image can be measured, and otherwise fails only when no boot
        source is left to try. */
    method LoadAuthImage(id: nat) returns (rc: Rc, ghost passes: seq<seq<Attempt>>)
      requires Valid()
      modifies this`imageSize, this`flagged, this`accepted, auth, mem, platform
      ensures Valid() && old(auth.authenticated) <= auth.authenticated
      ensures rc == Ok ==> Holds(id)
      ensures rc == Ok ==> forall anc, n: nat :: Ancestor(cot, anc, id, n) ==> anc in auth.authenticated
      ensures rc == Eauth ==> forall i :: base <= i < base + imageSize ==> mem[i] == 0
      ensures NotBehind(old(auth.counters), auth.counters)
      ensures mem[..base] == old(mem[..base]) && mem[base + maxSize..] == old(mem[base + maxSize..])
      ensures passes != [] && ArePasses(cot, maxSize, old(auth.View()), id, passes)
      ensures |passes| == 1 + old(platform.bootSources) - platform.bootSources
      ensures rc == Ok || rc == MeasureFailure <==> !Failed(passes[|passes| - 1])
      ensures rc == Ok || rc == MeasureFailure || platform.bootSources == 0
    {
      rc, passes := TryBootSources(id);
      if rc == Ok {
        AllAncestors(cot, auth.authenticated, id);
        var measured := platform.Measure();
        if !measured { rc := MeasureFailure; }
      }
    }
  }

  /** No platform counter went back. */
  ghost predicate NotBehind(before: map<nat, nat>, after: map<nat, nat>) {
    after.Keys == before.Keys && forall c :: c in before ==> after[c] >= before[c]
  }

  /** Flags and counters only advanced, and memory outside the image range is the same. */
  ghost predicate Kept(a: Auth, a': Auth, m: seq<byte>, m': seq<byte>, base: nat, maxSize: nat) {
    && a.authenticated <= a'.authenticated && NotBehind(a.counters, a'.counters)
    && base + maxSize <= |m| == |m'| && m'[..base] == m[..base] && m'[base + maxSize..] == m[base + maxSize..]
  }

  lemma KeptOn(a: Auth, a1: Auth, a2: Auth, m: seq<byte>, m1: seq<byte>, m2: seq<byte>, base: nat, maxSize: nat)
    requires Kept(a, a1, m, m1, base, maxSize) && Kept(a1, a2, m1, m2, base, maxSize)
    ensures Kept(a, a2, m, m2, base, maxSize)
  {
  }

  /** Flagging an image whose parent is flagged keeps the order, and the set closed. */
  lemma OneMoreFlag(cot: Cot, before: set<nat>, flagged: seq<nat>, id: nat)
    requires var all := before + (set x | x in flagged);
             Closed(cot, all) && ParentsFirst(cot, before, flagged) && (id in cot.parent ==> cot.parent[id] in all)
    ensures var flagged' := flagged + [id];
            var all' := before + (set x | x in flagged');
            && all' == before + (set x | x in flagged) + {id}
            && Closed(cot, all') && ParentsFirst(cot, before, flagged')
  {
    var flagged' := flagged + [id];
    assert forall k :: 0 <= k < |flagged| ==> flagged'[..k] == flagged[..k];
    assert flagged'[..|flagged|] == flagged;
    assert forall x :: x in flagged' <==> x in flagged || x == id;
  }

  /** In the log of flags every image comes after its parent, unless that one was authenticated before. */
  ghost predicate ParentsFirst(cot: Cot, before: set<nat>, flagged: seq<nat>) {
    forall k :: 0 <= k < |flagged| && flagged[k] in cot.parent ==>
      cot.parent[flagged[k]] in before || cot.parent[flagged[k]] in flagged[..k]
  }
}
