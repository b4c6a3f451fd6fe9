/** Whole runs of the firmware-update service: what a copied image holds when it is executed.

    A history beside the state records, per image, how it was loaded, the blocks that were copied
    and the bytes that passed authentication.  It never influences a step. */
module FwuIntegrity {
  import opened Bytes
  import opened Common
  import opened FwuModel
  import opened FwuInvariant
  import opened FwuScan
  import Runs

  /** `byCopy` tells copied images from those authenticated in place. */
  datatype Record = Record(byCopy: bool, blocks: seq<seq<byte>>, passed: seq<byte>)

  type History = map<nat, Record>

  function Concat(blocks: seq<seq<byte>>): seq<byte> {
    if blocks == [] then [] else Concat(blocks[..|blocks| - 1]) + blocks[|blocks| - 1]
  }

  lemma ConcatAppend(blocks: seq<seq<byte>>, b: seq<byte>)
    ensures Concat(blocks + [b]) == Concat(blocks) + b
  {
    assert (blocks + [b])[..|blocks|] == blocks;
  }

  /** The bytes of memory from the base of an image on. */
  function Range(cfg: Config, s: State, id: nat, size: nat): seq<byte>
    requires Basic(cfg, s) && id in cfg.images && size <= cfg.images[id].maxSize
  {
    s.mem[cfg.images[id].base..cfg.images[id].base + size]
  }

  /** What the history learns from a step that returned. */
  function Note(cfg: Config, s: State, h: History, c: Call): History
    requires Basic(cfg, s) && h.Keys == cfg.images.Keys && Step(cfg, s, c).Return?
  {
    var r := Step(cfg, s, c);
    if r.status != Ok then h
    else if c.Copy? then
      var first := s.descs[c.id].state == Reset;
      var remaining := if first then c.size else s.descs[c.id].imageSize - s.descs[c.id].copiedSize;
      h[c.id := Record(true, (if first then [] else h[c.id].blocks) + [Clip(c.block, remaining)], [])]
    else if c.Auth? && s.descs[c.id].state == Copied then
      h[c.id := h[c.id].(passed := Range(cfg, s, c.id, s.descs[c.id].imageSize))]
    else if c.Auth? then h[c.id := Record(false, [], [])]
    else h
  }

  // ----- Runs -----

  datatype Point = Point(state: State, history: History)

  function Start(cfg: Config): Point {
    Point(Init(cfg), map id | id in cfg.images :: Record(false, [], []))
  }

  ghost predicate Sound(cfg: Config, p: Point) {
    Basic(cfg, p.state) && p.history.Keys == cfg.images.Keys
  }

  /** The point after a step that returned. */
  function Next(cfg: Config, p: Point, c: Call): Point
    requires Basic(cfg, p.state) && p.history.Keys == cfg.images.Keys && Step(cfg, p.state, c).Return?
  {
    Point(Step(cfg, p.state, c).state, Note(cfg, p.state, p.history, c))
  }

  /** Call `c` was served at `p`, without an assertion failing, and led to `p'`. */
  ghost predicate Follows(cfg: Config, p: Point, c: Call, p': Point) {
    Sound(cfg, p) && Step(cfg, p.state, c).Return? && p' == Next(cfg, p, c)
  }

  type Trace = Runs.Trace<Call, Point>

  /** A run from boot. */
  ghost predicate IsRun(cfg: Config, t: Trace) {
    && |t.points| == |t.steps| + 1 && t.points[0] == Start(cfg)
    && forall i {:trigger t.steps[i]} :: 0 <= i < |t.steps| ==> Follows(cfg, t.points[i], t.steps[i], t.points[i + 1])
  }

  // ----- The claims -----

  ghost predicate PastAuthentication(st: ImageState) {
    st == Authenticated || st == Executed || st == Interrupted
  }

  /** An image is in memory because it was copied there. */
  ghost predicate ByCopy(d: Desc, r: Record) {
    d.state != Reset && r.byCopy
  }

  /** A copied image that got past authentication is, byte for byte, what was authenticated, and that is
      the concatenation of its blocks in the order they came. */
  ghost predicate Intact(img: Image, d: Desc, r: Record, mem: seq<byte>) {
    ByCopy(d, r) && PastAuthentication(d.state) ==>
      img.base + d.imageSize <= |mem| && mem[img.base..img.base + d.imageSize] == r.passed == Concat(r.blocks)
  }

  ghost predicate AllIntact(cfg: Config, p: Point)
    requires Matching(cfg, p)
  {
    forall id :: id in cfg.images ==> Intact(cfg.images[id], p.state.descs[id], p.history[id], p.state.mem)
  }

  ghost predicate Matching(cfg: Config, p: Point) {
    p.state.descs.Keys == cfg.images.Keys == p.history.Keys
  }

  /** The copied images `a` and `b` lie apart. */
  ghost predicate PairApart(cfg: Config, p: Point, a: nat, b: nat)
    requires Matching(cfg, p) && a in cfg.images && b in cfg.images
  {
    a != b && ByCopy(p.state.descs[a], p.history[a]) && ByCopy(p.state.descs[b], p.history[b]) ==>
      Apart(cfg.images[a].base, p.state.descs[a].imageSize, cfg.images[b].base, p.state.descs[b].imageSize)
  }

  /** An image was authenticated in place.  If it still counts copied bytes, they are not its own any more. */
  ghost predicate InPlace(d: Desc, r: Record) {
    d.state != Reset && !r.byCopy
  }

  /** The bytes that image `a`, authenticated in place, still counts lie apart from the copied image `b`. */
  ghost predicate StaleApart(cfg: Config, p: Point, a: nat, b: nat)
    requires Matching(cfg, p) && a in cfg.images && b in cfg.images
  {
    a != b && InPlace(p.state.descs[a], p.history[a]) && ByCopy(p.state.descs[b], p.history[b]) ==>
      Apart(cfg.images[b].base, p.state.descs[b].imageSize, cfg.images[a].base, p.state.descs[a].copiedSize)
  }

  /** What is known of an image at any time, beside the memory it occupies. */
  ghost predicate Content(img: Image, d: Desc, r: Record, mem: seq<byte>) {
    ByCopy(d, r) ==>
      && img.world == Secure
      && 0 < d.copiedSize <= d.imageSize <= img.maxSize && img.base + img.maxSize <= |mem|
      && (d.state != Copying ==> d.copiedSize == d.imageSize)
      && mem[img.base..img.base + d.copiedSize] == Concat(r.blocks)
      && (PastAuthentication(d.state) ==> r.passed == Concat(r.blocks))
  }

  /** Copying states come with a copying history. */
  ghost predicate Origin(d: Desc, r: Record) {
    d.state == Copying || d.state == Copied ==> r.byCopy
  }

  ghost predicate Integrity(cfg: Config, p: Point) {
    && Matching(cfg, p)
    && (forall id :: id in cfg.images ==>
          && Content(cfg.images[id], p.state.descs[id], p.history[id], p.state.mem)
          && Origin(p.state.descs[id], p.history[id]))
    && (forall a, b :: a in cfg.images && b in cfg.images ==> PairApart(cfg, p, a, b) && StaleApart(cfg, p, a, b))
  }

  lemma IntegrityMeansIntact(cfg: Config, p: Point)
    requires Integrity(cfg, p)
    ensures AllIntact(cfg, p)
  {
  }

  // ----- One image -----

  /** An update of memory apart from a copied image leaves the image alone. */
  lemma ContentKept(img: Image, d: Desc, r: Record, mem: seq<byte>, at: nat, data: seq<byte>)
    requires Content(img, d, r, mem) && at + |data| <= |mem|
    requires ByCopy(d, r) ==> Apart(img.base, d.imageSize, at, |data|)
    ensures Content(img, d, r, Splice(mem, at, data))
  {
    if ByCopy(d, r) {
      if |data| > 0 {
        SpliceApart(mem, at, data, img.base, img.base + d.copiedSize);
      } else {
        assert Splice(mem, at, data) == mem;
      }
    }
  }

  /** A block put behind the bytes already there extends the concatenation of the blocks. */
  lemma BlockAppended(mem: seq<byte>, base: nat, had: nat, blocks: seq<seq<byte>>, block: seq<byte>)
    requires base + had + |block| <= |mem| && mem[base..base + had] == Concat(blocks)
    ensures Splice(mem, base + had, block)[base..base + had + |block|] == Concat(blocks + [block])
  {
    ConcatAppend(blocks, block);
    var mem' := Splice(mem, base + had, block);
    SpliceParts(mem, base + had, block);
    SpliceApart(mem, base + had, block, base, base + had);
    assert mem'[base..base + had + |block|] == mem'[base..base + had] + mem'[base + had..base + had + |block|];
  }

  // ----- One step -----

  /** Image `id` gets a new descriptor and record, and memory gets `data` at `at`. */
  ghost predicate Updated(p: Point, p': Point, id: nat, d: Desc, r: Record, at: nat, data: seq<byte>) {
    && at + |data| <= |p.state.mem| && p'.state.mem == Splice(p.state.mem, at, data)
    && p'.state.descs == p.state.descs[id := d]
    && p'.history == p.history[id := r]
  }

  /** The range lies apart from every copied image other than `id`. */
  ghost predicate ApartFromOthers(cfg: Config, p: Point, id: nat, at: nat, size: nat)
    requires Matching(cfg, p)
  {
    forall x :: x in cfg.images && x != id && ByCopy(p.state.descs[x], p.history[x]) ==>
      Apart(cfg.images[x].base, p.state.descs[x].imageSize, at, size)
  }

  /** The range lies apart from what every other image authenticated in place still counts. */
  ghost predicate ApartFromStale(cfg: Config, p: Point, id: nat, at: nat, size: nat)
    requires Matching(cfg, p)
  {
    forall x :: x in cfg.images && x != id && InPlace(p.state.descs[x], p.history[x]) ==>
      Apart(at, size, cfg.images[x].base, p.state.descs[x].copiedSize)
  }

  /** The new descriptor and record of image `id` fit the other images. */
  ghost predicate FitsOthers(cfg: Config, p: Point, id: nat, d: Desc, r: Record)
    requires Matching(cfg, p) && id in cfg.images
  {
    && (ByCopy(d, r) ==>
          && ApartFromOthers(cfg, p, id, cfg.images[id].base, d.imageSize)
          && ApartFromStale(cfg, p, id, cfg.images[id].base, d.imageSize))
    && (InPlace(d, r) ==> ApartFromOthers(cfg, p, id, cfg.images[id].base, d.copiedSize))
  }

  lemma PairKept(cfg: Config, p: Point, p': Point, id: nat, d: Desc, r: Record, a: nat, b: nat)
    requires Matching(cfg, p) && Matching(cfg, p') && id in cfg.images && a in cfg.images && b in cfg.images
    requires p'.state.descs == p.state.descs[id := d] && p'.history == p.history[id := r]
    requires PairApart(cfg, p, a, b) && StaleApart(cfg, p, a, b) && FitsOthers(cfg, p, id, d, r)
    ensures PairApart(cfg, p', a, b) && StaleApart(cfg, p', a, b)
  {
  }

  lemma ImageKept(cfg: Config, p: Point, p': Point, id: nat, d: Desc, r: Record, at: nat, data: seq<byte>, x: nat)
    requires Integrity(cfg, p) && Matching(cfg, p') && x in cfg.images && x != id
    requires Updated(p, p', id, d, r, at, data) && ApartFromOthers(cfg, p, id, at, |data|)
    ensures Content(cfg.images[x], p'.state.descs[x], p'.history[x], p'.state.mem)
    ensures Origin(p'.state.descs[x], p'.history[x])
  {
    assert p'.state.descs[x] == p.state.descs[x] && p'.history[x] == p.history[x];
    ContentKept(cfg.images[x], p.state.descs[x], p.history[x], p.state.mem, at, data);
  }

  /** A step keeps integrity if it writes apart from the other images, and leaves its own image in order. */
  lemma FramedIntegrity(cfg: Config, p: Point, p': Point, id: nat, d: Desc, r: Record, at: nat, data: seq<byte>)
    requires Integrity(cfg, p) && id in cfg.images && Updated(p, p', id, d, r, at, data)
    requires ApartFromOthers(cfg, p, id, at, |data|) && FitsOthers(cfg, p, id, d, r)
    requires Content(cfg.images[id], d, r, Splice(p.state.mem, at, data)) && Origin(d, r)
    ensures Integrity(cfg, p')
  {
    assert Matching(cfg, p');
    forall x | x in cfg.images
      ensures Content(cfg.images[x], p'.state.descs[x], p'.history[x], p'.state.mem)
      ensures Origin(p'.state.descs[x], p'.history[x])
    {
      if x != id { ImageKept(cfg, p, p', id, d, r, at, data, x); }
    }
    forall a, b | a in cfg.images && b in cfg.images
      ensures PairApart(cfg, p', a, b) && StaleApart(cfg, p', a, b)
    {
      PairKept(cfg, p, p', id, d, r, a, b);
    }
  }

  /** A copied image lies apart from the others as long as its size stays, */
  lemma OwnRangeApart(cfg: Config, p: Point, id: nat, size: nat)
    requires Integrity(cfg, p) && id in cfg.images && ByCopy(p.state.descs[id], p.history[id])
    requires size <= p.state.descs[id].imageSize
    ensures ApartFromOthers(cfg, p, id, cfg.images[id].base, size)
    ensures ApartFromStale(cfg, p, id, cfg.images[id].base, size)
  {
    forall x | x in cfg.images && x != id && ByCopy(p.state.descs[x], p.history[x])
      ensures Apart(cfg.images[x].base, p.state.descs[x].imageSize, cfg.images[id].base, size)
    {
      assert PairApart(cfg, p, x, id);
    }
    forall x | x in cfg.images && x != id && InPlace(p.state.descs[x], p.history[x])
      ensures Apart(cfg.images[id].base, size, cfg.images[x].base, p.state.descs[x].copiedSize)
    {
      assert StaleApart(cfg, p, x, id);
    }
  }

  /** and so do the bytes an image authenticated in place counts. */
  lemma StaleRangeApart(cfg: Config, p: Point, id: nat)
    requires Integrity(cfg, p) && id in cfg.images && InPlace(p.state.descs[id], p.history[id])
    ensures ApartFromOthers(cfg, p, id, cfg.images[id].base, p.state.descs[id].copiedSize)
  {
    forall x | x in cfg.images && x != id && ByCopy(p.state.descs[x], p.history[x])
      ensures Apart(cfg.images[x].base, p.state.descs[x].imageSize, cfg.images[id].base, p.state.descs[id].copiedSize)
    {
      assert StaleApart(cfg, p, id, x);
    }
  }

  // ----- The two calls that bring an image in -----

  /** A first copy that succeeds. */
  ghost predicate FirstCopy(cfg: Config, s: State, c: Call)
    requires Basic(cfg, s)
  {
    && c.Copy? && c.id in cfg.images && s.descs[c.id].state == Reset
    && CopyStep(cfg, s, c).Return? && CopyStep(cfg, s, c).status == Ok
  }

  /** An authentication in place that succeeds. */
  ghost predicate InPlaceAuth(cfg: Config, s: State, c: Call)
    requires Basic(cfg, s)
  {
    && c.Auth? && c.id in cfg.images && s.descs[c.id].state == Reset
    && AuthStep(cfg, s, c).Return? && AuthStep(cfg, s, c).status == Ok
  }

  /** The call does not bring together a copied image and bytes that an image authenticated in place still counts. */
  ghost predicate SafeCall(cfg: Config, p: Point, c: Call)
    requires Basic(cfg, p.state) && Matching(cfg, p)
  {
    && (FirstCopy(cfg, p.state, c) ==> ApartFromStale(cfg, p, c.id, cfg.images[c.id].base, c.size))
    && (InPlaceAuth(cfg, p.state, c) ==>
          ApartFromOthers(cfg, p, c.id, cfg.images[c.id].base, p.state.descs[c.id].copiedSize))
  }

  /** How much of the image was there before a copy call, and how large the image is to be. */
  function Had(d: Desc): nat { if d.state == Reset then 0 else d.copiedSize }
  function Total(d: Desc, c: Call): u32
    requires c.Copy?
  {
    if d.state == Reset then c.size else d.imageSize
  }

  /** A copy that returned success. */
  lemma CopyOk(cfg: Config, s: State, c: Call)
    requires Basic(cfg, s) && c.Copy? && CopyStep(cfg, s, c).Return? && CopyStep(cfg, s, c).status == Ok
    ensures c.id in cfg.images && cfg.images[c.id].world == Secure
    ensures var d, s' := s.descs[c.id], CopyStep(cfg, s, c).state;
            var had, total := Had(d), Total(d, c);
            && (d.state == Reset || d.state == Copying)
            && had < total <= cfg.images[c.id].maxSize && 0 < |Clip(c.block, total - had)| <= total - had
            && s'.descs == s.descs[c.id := Desc(if had + |Clip(c.block, total - had)| == total then Copied else Copying,
                                                had + |Clip(c.block, total - had)|, total)]
            && s'.mem == Splice(s.mem, cfg.images[c.id].base + had, Clip(c.block, total - had))
            && (d.state == Reset ==>
                  CheckOverlaps(cfg, s.descs[c.id := d.(imageSize := total)], s.loaded, c.id,
                                cfg.images[c.id].base, ImageEnd(cfg.images[c.id].base, total)) == Clear)
  {
  }

  /** A first copy went through the overlap check. */
  lemma FirstCopyFacts(cfg: Config, s: State, c: Call)
    requires Basic(cfg, s) && FirstCopy(cfg, s, c)
    ensures FirstRequest(cfg, s, c) && Verdict(cfg, s, c) == Clear && AddLoadedId(s.loaded, c.id).0
  {
  }

  /** The image being copied lies apart from all others. */
  lemma CopyApart(cfg: Config, p: Point, c: Call)
    requires Tracked(cfg, p.state) && Integrity(cfg, p) && SafeCall(cfg, p, c)
    requires c.Copy? && CopyStep(cfg, p.state, c).Return? && CopyStep(cfg, p.state, c).status == Ok
    ensures c.id in cfg.images
    ensures ApartFromOthers(cfg, p, c.id, cfg.images[c.id].base, Total(p.state.descs[c.id], c))
    ensures ApartFromStale(cfg, p, c.id, cfg.images[c.id].base, Total(p.state.descs[c.id], c))
  {
    CopyOk(cfg, p.state, c);
    if p.state.descs[c.id].state == Reset {
      FirstCopyFacts(cfg, p.state, c);
      forall x | x in cfg.images && x != c.id && ByCopy(p.state.descs[x], p.history[x])
        ensures Apart(cfg.images[x].base, p.state.descs[x].imageSize, cfg.images[c.id].base, c.size)
      {
        assert Content(cfg.images[x], p.state.descs[x], p.history[x], p.state.mem);
        ClearMeansApart(cfg, p.state, c, x);
      }
    } else {
      assert Origin(p.state.descs[c.id], p.history[c.id]);
      OwnRangeApart(cfg, p, c.id, p.state.descs[c.id].imageSize);
    }
  }

  /** The descriptor and the record of an image after one more block. */
  function DescWith(d: Desc, total: u32, block: seq<byte>): Desc {
    var copied := Had(d) + |block|;
    Desc(if copied == total then Copied else Copying, copied, total)
  }

  function RecordWith(d: Desc, r: Record, block: seq<byte>): Record {
    Record(true, (if d.state == Reset then [] else r.blocks) + [block], [])
  }

  /** The block a copy call moves. */
  function Moved(d: Desc, c: Call): seq<byte>
    requires c.Copy?
  {
    if Total(d, c) >= Had(d) then Clip(c.block, Total(d, c) - Had(d)) else []
  }

  /** What a copy that returned success adds to the history. */
  lemma CopyNoted(cfg: Config, p: Point, c: Call)
    requires Sound(cfg, p)
    requires c.Copy? && CopyStep(cfg, p.state, c).Return? && CopyStep(cfg, p.state, c).status == Ok
    ensures c.id in cfg.images && Total(p.state.descs[c.id], c) >= Had(p.state.descs[c.id])
    ensures Note(cfg, p.state, p.history, c) ==
            p.history[c.id := RecordWith(p.state.descs[c.id], p.history[c.id], Moved(p.state.descs[c.id], c))]
  {
    CopyOk(cfg, p.state, c);
  }

  /** A copy that returned success puts one more block in place, and changes nothing else. */
  lemma CopyUpdated(cfg: Config, p: Point, c: Call)
    requires Sound(cfg, p)
    requires c.Copy? && CopyStep(cfg, p.state, c).Return? && CopyStep(cfg, p.state, c).status == Ok
    ensures c.id in cfg.images && cfg.images[c.id].world == Secure
    ensures p.state.descs[c.id].state == Reset || p.state.descs[c.id].state == Copying
    ensures var d, r := p.state.descs[c.id], p.history[c.id];
            var block := Moved(d, c);
            && 0 < |block| && Had(d) + |block| <= Total(d, c) <= cfg.images[c.id].maxSize
            && Updated(p, Next(cfg, p, c), c.id, DescWith(d, Total(d, c), block), RecordWith(d, r, block),
                       cfg.images[c.id].base + Had(d), block)
  {
    CopyOk(cfg, p.state, c);
    CopyNoted(cfg, p, c);
    var d, p' := p.state.descs[c.id], Next(cfg, p, c);
    assert Moved(d, c) == Clip(c.block, Total(d, c) - Had(d));
    assert p'.state.descs == p.state.descs[c.id := DescWith(d, Total(d, c), Moved(d, c))];
    assert p'.state.mem == Splice(p.state.mem, cfg.images[c.id].base + Had(d), Moved(d, c));
  }

  /** One more block of image `id`, which is to have `total` bytes, was put in place apart from all others. */
  ghost predicate BlockPut(cfg: Config, p: Point, p': Point, id: nat, total: u32, block: seq<byte>)
    requires Matching(cfg, p)
  {
    && id in cfg.images && cfg.images[id].world == Secure
    && (p.state.descs[id].state == Reset || p.state.descs[id].state == Copying)
    && 0 < |block| && Had(p.state.descs[id]) + |block| <= total <= cfg.images[id].maxSize
    && Updated(p, p', id, DescWith(p.state.descs[id], total, block),
               RecordWith(p.state.descs[id], p.history[id], block), cfg.images[id].base + Had(p.state.descs[id]), block)
    && ApartFromOthers(cfg, p, id, cfg.images[id].base, total)
    && ApartFromStale(cfg, p, id, cfg.images[id].base, total)
  }

  lemma CopyPutsBlock(cfg: Config, p: Point, c: Call) returns (total: u32, block: seq<byte>)
    requires Tracked(cfg, p.state) && Integrity(cfg, p) && SafeCall(cfg, p, c)
    requires c.Copy? && CopyStep(cfg, p.state, c).Return? && CopyStep(cfg, p.state, c).status == Ok
    ensures BlockPut(cfg, p, Next(cfg, p, c), c.id, total, block)
  {
    CopyUpdated(cfg, p, c);
    CopyApart(cfg, p, c);
    total, block := Total(p.state.descs[c.id], c), Moved(p.state.descs[c.id], c);
  }

  lemma CopyIntegrity(cfg: Config, p: Point, c: Call)
    requires Tracked(cfg, p.state) && Integrity(cfg, p) && SafeCall(cfg, p, c)
    requires c.Copy? && CopyStep(cfg, p.state, c).Return? && CopyStep(cfg, p.state, c).status == Ok
    ensures Integrity(cfg, Next(cfg, p, c))
  {
    var total, block := CopyPutsBlock(cfg, p, c);
    CopiedBlockIntegrity(cfg, p, Next(cfg, p, c), c.id, total, block);
  }

  lemma NewContent(img: Image, d: Desc, r: Record, mem: seq<byte>, total: u32, block: seq<byte>)
    requires Content(img, d, r, mem) && (d.state == Copying ==> r.byCopy) && (d.state == Reset || d.state == Copying)
    requires img.world == Secure && img.base + img.maxSize <= |mem|
    requires 0 < |block| && Had(d) + |block| <= total <= img.maxSize
    ensures Content(img, DescWith(d, total, block), RecordWith(d, r, block), Splice(mem, img.base + Had(d), block))
  {
    BlockAppended(mem, img.base, Had(d), if d.state == Reset then [] else r.blocks, block);
  }

  lemma NarrowApart(cfg: Config, p: Point, id: nat, at: nat, size: nat, at': nat, size': nat)
    requires Matching(cfg, p) && ApartFromOthers(cfg, p, id, at, size)
    requires at <= at' && at' + size' <= at + size
    ensures ApartFromOthers(cfg, p, id, at', size')
  {
  }

  lemma CopiedBlockIntegrity(cfg: Config, p: Point, p': Point, id: nat, total: u32, block: seq<byte>)
    requires Basic(cfg, p.state) && Integrity(cfg, p) && BlockPut(cfg, p, p', id, total, block)
    ensures Integrity(cfg, p')
  {
    var img, d, r := cfg.images[id], p.state.descs[id], p.history[id];
    assert Content(img, d, r, p.state.mem) && Origin(d, r);
    NewContent(img, d, r, p.state.mem, total, block);
    NarrowApart(cfg, p, id, img.base, total, img.base + Had(d), |block|);
    FramedIntegrity(cfg, p, p', id, DescWith(d, total, block), RecordWith(d, r, block), img.base + Had(d), block);
  }

  /** A step that writes no memory and moves its image among the copied ones, among those authenticated in place, or
      to RESET. */
  lemma QuietIntegrity(cfg: Config, p: Point, p': Point, id: nat, d: Desc, r: Record)
    requires Integrity(cfg, p) && id in cfg.images && p'.state.mem == p.state.mem
    requires p'.state.descs == p.state.descs[id := d] && p'.history == p.history[id := r]
    requires Content(cfg.images[id], d, r, p.state.mem) && Origin(d, r) && FitsOthers(cfg, p, id, d, r)
    ensures Integrity(cfg, p')
  {
    assert p.state.mem == Splice(p.state.mem, 0, []);
    FramedIntegrity(cfg, p, p', id, d, r, 0, []);
  }

  /** A copy call that was refused writes no memory and no history; at most it records a size for an
      image in RESET. */
  lemma CopyRefusedFacts(cfg: Config, p: Point, c: Call)
    requires Basic(cfg, p.state) && p.history.Keys == cfg.images.Keys
    requires c.Copy? && CopyStep(cfg, p.state, c).Return? && CopyStep(cfg, p.state, c).status != Ok
    ensures var p' := Next(cfg, p, c);
            && p'.history == p.history && p'.state.mem == p.state.mem
            && (p'.state.descs == p.state.descs ||
                (c.id in cfg.images && p.state.descs[c.id].state == Reset && c.id in p'.state.descs &&
                 p'.state.descs == p.state.descs[c.id := p'.state.descs[c.id]] && p'.state.descs[c.id].state == Reset))
  {
    if c.id in cfg.images {
      var d := p.state.descs[c.id];
      assert d.state == Copying ==> p.state.descs[c.id := d] == p.state.descs;
    }
  }

  lemma CopyRefused(cfg: Config, p: Point, c: Call)
    requires Basic(cfg, p.state) && Integrity(cfg, p)
    requires c.Copy? && CopyStep(cfg, p.state, c).Return? && CopyStep(cfg, p.state, c).status != Ok
    ensures Integrity(cfg, Next(cfg, p, c))
  {
    var p' := Next(cfg, p, c);
    CopyRefusedFacts(cfg, p, c);
    if p'.state.descs != p.state.descs {
      assert p.history[c.id := p.history[c.id]] == p.history;
      QuietIntegrity(cfg, p, p', c.id, p'.state.descs[c.id], p.history[c.id]);
    } else {
      SameIntegrity(cfg, p, p');
    }
  }

  lemma SameIntegrity(cfg: Config, p: Point, p': Point)
    requires Integrity(cfg, p)
    requires p'.state.descs == p.state.descs && p'.state.mem == p.state.mem && p'.history == p.history
    ensures Integrity(cfg, p')
  {
    forall a, b | a in cfg.images && b in cfg.images
      ensures PairApart(cfg, p', a, b) && StaleApart(cfg, p', a, b)
    {
      assert PairApart(cfg, p, a, b) && StaleApart(cfg, p, a, b);
    }
  }

  lemma AuthCopiedIntegrity(cfg: Config, p: Point, c: Call)
    requires Tracked(cfg, p.state) && Integrity(cfg, p) && c.Auth? && c.id in cfg.images
    requires p.state.descs[c.id].state == Copied && AuthCopied(cfg, p.state, c).Return?
    requires AuthStep(cfg, p.state, c) == AuthCopied(cfg, p.state, c)
    ensures Integrity(cfg, Next(cfg, p, c))
  {
    var s, p' := p.state, Next(cfg, p, c);
    var img, d, r := cfg.images[c.id], s.descs[c.id], p.history[c.id];
    assert Content(img, d, r, s.mem) && Origin(d, r);
    OwnRangeApart(cfg, p, c.id, d.imageSize);
    if c.verified {
      QuietIntegrity(cfg, p, p', c.id, p'.state.descs[c.id], p'.history[c.id]);
    } else {
      FramedIntegrity(cfg, p, p', c.id, p'.state.descs[c.id], p'.history[c.id], img.base, Zeros(d.imageSize));
    }
  }

  /** Authentication in place writes no memory and changes one image, to RESET or to AUTHENTICATED. */
  lemma AuthInPlaceFacts(cfg: Config, p: Point, c: Call)
    requires Sound(cfg, p) && c.Auth? && c.id in cfg.images
    requires p.state.descs[c.id].state == Reset && AuthInPlace(cfg, p.state, c).Return?
    requires AuthStep(cfg, p.state, c) == AuthInPlace(cfg, p.state, c)
    ensures var p' := Next(cfg, p, c);
            && p'.state.mem == p.state.mem && c.id in p'.state.descs && c.id in p'.history
            && p'.state.descs == p.state.descs[c.id := p'.state.descs[c.id]]
            && p'.history == p.history[c.id := p'.history[c.id]]
            && (p'.state.descs[c.id].state == Reset ||
                (p'.state.descs[c.id].state == Authenticated && !p'.history[c.id].byCopy))
            && p'.state.descs[c.id].copiedSize == p.state.descs[c.id].copiedSize
  {
    assert p.state.descs[c.id := p.state.descs[c.id]] == p.state.descs;
    assert p.history[c.id := p.history[c.id]] == p.history;
  }

  lemma AuthInPlaceIntegrity(cfg: Config, p: Point, c: Call)
    requires Basic(cfg, p.state) && Integrity(cfg, p) && c.Auth? && c.id in cfg.images && SafeCall(cfg, p, c)
    requires p.state.descs[c.id].state == Reset && AuthInPlace(cfg, p.state, c).Return?
    requires AuthStep(cfg, p.state, c) == AuthInPlace(cfg, p.state, c)
    ensures Integrity(cfg, Next(cfg, p, c))
  {
    AuthInPlaceFacts(cfg, p, c);
    var p' := Next(cfg, p, c);
    QuietIntegrity(cfg, p, p', c.id, p'.state.descs[c.id], p'.history[c.id]);
  }

  lemma AuthIntegrity(cfg: Config, p: Point, c: Call)
    requires Tracked(cfg, p.state) && Integrity(cfg, p) && SafeCall(cfg, p, c)
    requires c.Auth? && AuthStep(cfg, p.state, c).Return?
    ensures Integrity(cfg, Next(cfg, p, c))
  {
    if c.id in cfg.images && p.state.descs[c.id].state == AuthFrom(cfg.images[c.id], c.caller) {
      if p.state.descs[c.id].state == Copied {
        AuthCopiedIntegrity(cfg, p, c);
      } else {
        AuthInPlaceIntegrity(cfg, p, c);
      }
    } else {
      SameIntegrity(cfg, p, Next(cfg, p, c));
    }
  }

  lemma ResetIntegrity(cfg: Config, p: Point, c: Call)
    requires Tracked(cfg, p.state) && Integrity(cfg, p) && c.ResetImage? && Step(cfg, p.state, c).Return?
    ensures Integrity(cfg, Next(cfg, p, c))
  {
    var s, p' := p.state, Next(cfg, p, c);
    if p'.state != s {
      var img, d, r := cfg.images[c.id], s.descs[c.id], p.history[c.id];
      assert Content(img, d, r, s.mem);
      if ByCopy(d, r) {
        OwnRangeApart(cfg, p, c.id, d.copiedSize);
      } else {
        StaleRangeApart(cfg, p, c.id);
      }
      FramedIntegrity(cfg, p, p', c.id, p'.state.descs[c.id], p'.history[c.id], img.base, Zeros(d.copiedSize));
    }
  }

  /** Execution, interruption, resumption and completion of an image that got past authentication. */
  lemma PhaseIntegrity(cfg: Config, p: Point, p': Point, id: nat, st: ImageState)
    requires Integrity(cfg, p) && id in cfg.images
    requires PastAuthentication(p.state.descs[id].state) && (PastAuthentication(st) || st == Reset)
    requires p'.state.descs == p.state.descs[id := p.state.descs[id].(state := st)]
    requires p'.state.mem == p.state.mem && p'.history == p.history
    ensures Integrity(cfg, p')
  {
    var d, r := p.state.descs[id], p.history[id];
    assert Content(cfg.images[id], d, r, p.state.mem) && Origin(d, r);
    if ByCopy(d, r) { OwnRangeApart(cfg, p, id, d.imageSize); } else { StaleRangeApart(cfg, p, id); }
    assert p.history[id := r] == p.history;
    QuietIntegrity(cfg, p, p', id, p'.state.descs[id], r);
  }

  lemma ControlIntegrity(cfg: Config, p: Point, c: Call)
    requires Tracked(cfg, p.state) && Integrity(cfg, p)
    requires (c.Execute? || c.Resume? || c.SecImageDone?) && Step(cfg, p.state, c).Return?
    ensures Integrity(cfg, Next(cfg, p, c))
  {
    var s, p' := p.state, Next(cfg, p, c);
    if p'.state != s {
      var id := if c.Execute? then c.id else s.secExec;
      PhaseIntegrity(cfg, p, p', id, p'.state.descs[id].state);
    }
  }

  lemma StepIntegrity(cfg: Config, p: Point, c: Call)
    requires Tracked(cfg, p.state) && Integrity(cfg, p) && SafeCall(cfg, p, c) && Step(cfg, p.state, c).Return?
    ensures Integrity(cfg, Next(cfg, p, c))
  {
    match c
    case Copy(_, _, _, _, _, _, _) =>
      if CopyStep(cfg, p.state, c).status == Ok { CopyIntegrity(cfg, p, c); } else { CopyRefused(cfg, p, c); }
    case Auth(_, _, _, _, _, _, _) => AuthIntegrity(cfg, p, c);
    case ResetImage(_, _) => ResetIntegrity(cfg, p, c);
    case _ => ControlIntegrity(cfg, p, c);
  }

  // ----- Whole runs -----

  lemma StartIntegrity(cfg: Config)
    requires WellFormed(cfg)
    ensures Tracked(cfg, Start(cfg).state) && Integrity(cfg, Start(cfg))
  {
    InitTracked(cfg);
  }

  lemma FollowsTracked(cfg: Config, p: Point, c: Call, p': Point)
    requires Follows(cfg, p, c, p') && Tracked(cfg, p.state)
    ensures Tracked(cfg, p'.state)
  {
    StepTracked(cfg, p.state, c);
  }

  /** In every run, table and states agree at every point. */
  lemma RunTracked(cfg: Config, t: Trace, n: nat)
    requires WellFormed(cfg) && IsRun(cfg, t) && n < |t.points|
    ensures Tracked(cfg, t.points[n].state)
  {
    StartIntegrity(cfg);
    forall i | 0 < i < |t.points| && Tracked(cfg, t.points[i - 1].state)
      ensures Tracked(cfg, t.points[i].state)
    {
      FollowsTracked(cfg, t.points[i - 1], t.steps[i - 1], t.points[i]);
    }
    Runs.Along(t.points, (p: Point) => Tracked(cfg, p.state), n);
  }

  /** No call of the run is a copy that only the pre-load hook refuses. */
  ghost predicate HookNeverFails(cfg: Config, t: Trace)
    requires IsRun(cfg, t)
  {
    forall i {:trigger t.steps[i]} :: 0 <= i < |t.steps| ==> !HookFails(cfg, t.points[i].state, t.steps[i])
  }

  ghost predicate AlwaysListed(cfg: Config, t: Trace) {
    forall n :: 0 <= n < |t.points| ==> Tracked(cfg, t.points[n].state) && ListedAreLoaded(t.points[n].state)
  }

  /** Throughout a run images are listed exactly while they are out of RESET, if and only if the pre-load hook
      never alone refuses a copy. */
  lemma RunListed(cfg: Config, t: Trace)
    requires WellFormed(cfg) && IsRun(cfg, t)
    ensures AlwaysListed(cfg, t) <==> HookNeverFails(cfg, t)
  {
    if AlwaysListed(cfg, t) {
      forall i | 0 <= i < |t.steps|
        ensures !HookFails(cfg, t.points[i].state, t.steps[i])
      {
        CallListed(cfg, t, i);
      }
    }
    if HookNeverFails(cfg, t) {
      InitTracked(cfg);
      forall i | 0 < i < |t.points| && Tracked(cfg, t.points[i - 1].state) && ListedAreLoaded(t.points[i - 1].state)
        ensures Tracked(cfg, t.points[i].state) && ListedAreLoaded(t.points[i].state)
      {
        CallListed(cfg, t, i - 1);
        assert !HookFails(cfg, t.points[i - 1].state, t.steps[i - 1]);
      }
      forall n | 0 <= n < |t.points|
        ensures Tracked(cfg, t.points[n].state) && ListedAreLoaded(t.points[n].state)
      {
        Runs.Along(t.points, (p: Point) => Tracked(cfg, p.state) && ListedAreLoaded(p.state), n);
      }
    }
  }

  lemma CallListed(cfg: Config, t: Trace, i: nat)
    requires IsRun(cfg, t) && i < |t.steps|
    requires Tracked(cfg, t.points[i].state) && ListedAreLoaded(t.points[i].state)
    ensures Tracked(cfg, t.points[i + 1].state)
    ensures ListedAreLoaded(t.points[i + 1].state) <==> !HookFails(cfg, t.points[i].state, t.steps[i])
  {
    FollowsTracked(cfg, t.points[i], t.steps[i], t.points[i + 1]);
    ListedIffLoaded(cfg, t.points[i].state, t.steps[i]);
  }
}
