/** The BL1 firmware-update service (bl1/bl1_fwu.c) as a state machine on values.

    Every SMC of the service is one step.  Results of platform hooks and of the authentication
    module, and the bytes found at a source address, are inputs of the step.  A failed assertion
    or a platform panic ends the run (`Stop`). */
module FwuModel {
  import opened Bytes
  import opened Common

  const UINTPTR_MAX: nat := 0xFFFF_FFFF_FFFF_FFFF

  datatype ImageState = Reset | Copied | Copying | Authenticated | Executed | Interrupted

  datatype World = Secure | NonSecure

  datatype Status = Ok | Eperm | Enomem | Eauth

  /** The parts of `image_desc_t` the service only reads. */
  datatype Image = Image(world: World, executable: bool, base: nat, maxSize: nat)

  /** The parts of `image_desc_t` the service updates. */
  datatype Desc = Desc(state: ImageState, copiedSize: nat, imageSize: u32)

  /** The platform: its images, the non-secure image running from boot on, the number of loaded-id slots, and
      what memory holds at boot. */
  datatype Config = Config(images: map<nat, Image>, boot: nat, slots: nat, memory: seq<byte>)

  datatype State = State(descs: map<nat, Desc>, loaded: seq<nat>, secExec: nat, mem: seq<byte>)

  datatype Call =
    | Copy(id: nat, src: nat, block: seq<byte>, size: u32, caller: World, mapped: bool, hookOk: bool)
    | Auth(id: nat, src: nat, size: u32, caller: World, mapped: bool, verified: bool, hookOk: bool)
    | Execute(id: nat, caller: World)
    | Resume(caller: World)
    | SecImageDone(caller: World)
    | ResetImage(id: nat, caller: World)

  datatype Outcome = Stop | Return(status: Status, state: State)

  /** Images lie in memory, also at their largest, and memory ends before addresses wrap. */
  predicate WellFormed(cfg: Config) {
    && INVALID_IMAGE_ID !in cfg.images
    && cfg.boot in cfg.images && cfg.images[cfg.boot].world == NonSecure
    && |cfg.memory| <= UINTPTR_MAX
    && (forall id :: id in cfg.images ==>
          cfg.images[id].base + cfg.images[id].maxSize <= |cfg.memory| && cfg.images[id].maxSize <= 0xFFFF_FFFF)
  }

  /** What a copied image needs for its range to lie in memory. */
  predicate SizesFit(img: Image, d: Desc) {
    && d.copiedSize <= img.maxSize
    && (d.state == Copying ==> 0 < d.copiedSize < d.imageSize <= img.maxSize)
    && (d.state == Copied ==> 0 < d.copiedSize == d.imageSize)
    && (img.world == NonSecure ==> d.copiedSize == 0)
  }

  predicate Basic(cfg: Config, s: State) {
    && WellFormed(cfg)
    && s.descs.Keys == cfg.images.Keys
    && |s.loaded| == cfg.slots
    && |s.mem| == |cfg.memory|
    && forall id :: id in cfg.images ==> SizesFit(cfg.images[id], s.descs[id])
  }

  function Init(cfg: Config): State {
    State(map id | id in cfg.images :: Desc(if id == cfg.boot then Executed else Reset, 0, 0),
          seq(cfg.slots, _ => INVALID_IMAGE_ID), INVALID_IMAGE_ID, cfg.memory)
  }

  /** Two ranges have no address in common. */
  ghost predicate Apart(base: nat, size: nat, base': nat, size': nat) {
    base + size <= base' || base' + size' <= base || size == 0 || size' == 0
  }

  // ----- The table of loaded ids -----

  /** The first slot holding `id`, or the number of slots. */
  function SlotOf(loaded: seq<nat>, id: nat): (i: nat)
    ensures i <= |loaded|
    ensures i < |loaded| ==> loaded[i] == id
    ensures forall j :: 0 <= j < i ==> loaded[j] != id
  {
    if loaded == [] then 0 else if loaded[0] == id then 0 else 1 + SlotOf(loaded[1..], id)
  }

  /** bl1_fwu_add_loaded_id; the flag says whether the id is in the table afterwards. */
  function AddLoadedId(loaded: seq<nat>, id: nat): (bool, seq<nat>) {
    var free := SlotOf(loaded, INVALID_IMAGE_ID);
    if SlotOf(loaded, id) < |loaded| then (true, loaded)
    else if free < |loaded| then (true, loaded[free := id])
    else (false, loaded)
  }

  /** bl1_fwu_remove_loaded_id; the flag says whether the id was there. */
  function RemoveLoadedId(loaded: seq<nat>, id: nat): (bool, seq<nat>) {
    var i := SlotOf(loaded, id);
    if i < |loaded| then (true, loaded[i := INVALID_IMAGE_ID]) else (false, loaded)
  }

  datatype Overlap = Clear | Overlapping | BadTable

  /** The end address of an image as computed in `uintptr_t`. */
  function ImageEnd(base: nat, size: nat): nat
    requires size > 0
  {
    (base + size - 1) % (UINTPTR_MAX + 1)
  }

  /** What the check says about one slot; `Clear` lets the scan go on. */
  function CheckSlot(cfg: Config, descs: map<nat, Desc>, id: nat, base: nat, end: nat, other: nat): Overlap
    requires descs.Keys == cfg.images.Keys
  {
    if other == INVALID_IMAGE_ID || other == id then Clear
    else if other !in descs || descs[other].state == Reset then BadTable
    else if descs[other].imageSize == 0 then Clear
    else
      var otherBase := cfg.images[other].base;
      var otherEnd := ImageEnd(otherBase, descs[other].imageSize);
      if otherEnd <= otherBase then BadTable
      else if otherEnd < base || end < otherBase then Clear
      else Overlapping
  }

  /** bl1_fwu_image_check_overlaps: the verdict of the first slot that is not clear. */
  function CheckOverlaps(cfg: Config, descs: map<nat, Desc>, loaded: seq<nat>, id: nat, base: nat, end: nat): Overlap
    requires descs.Keys == cfg.images.Keys
  {
    if loaded == [] then Clear
    else
      var v := CheckSlot(cfg, descs, id, base, end, loaded[0]);
      if v != Clear then v else CheckOverlaps(cfg, descs, loaded[1..], id, base, end)
  }

  // ----- Image copy -----

  function WithDesc(s: State, id: nat, d: Desc): State {
    s.(descs := s.descs[id := d])
  }

  /** The block of data a copy call moves: no more than what is still missing. */
  function Clip(block: seq<byte>, remaining: nat): seq<byte> {
    if |block| > remaining then block[..remaining] else block
  }

  /** The second half of bl1_fwu_image_copy: move one block of an image of size `d.imageSize`, of which
      `d.copiedSize` bytes are there. */
  function CopyBlock(cfg: Config, s: State, c: Call, d: Desc): Outcome
    requires Basic(cfg, s) && c.Copy? && c.id in cfg.images
    requires d.copiedSize < d.imageSize <= cfg.images[c.id].maxSize
  {
    var block := Clip(c.block, d.imageSize - d.copiedSize);
    var s1 := WithDesc(s, c.id, d);
    if !c.mapped then Return(Enomem, s1)
    else
      var (added, loaded) := AddLoadedId(s.loaded, c.id);
      if !added then Return(Enomem, s1)
      else if d.state == Reset && !c.hookOk then Return(Eperm, s1.(loaded := loaded))
      else
        var copied := d.copiedSize + |block|;
        var d' := Desc(if copied == d.imageSize then Copied else Copying, copied, d.imageSize);
        Return(Ok, WithDesc(s, c.id, d').(
          loaded := loaded,
          mem := Splice(s.mem, cfg.images[c.id].base + d.copiedSize, block)))
  }

  /** bl1_fwu_image_copy */
  function CopyStep(cfg: Config, s: State, c: Call): Outcome
    requires Basic(cfg, s) && c.Copy?
  {
    if c.id !in cfg.images then Return(Eperm, s)
    else
      var img, d := cfg.images[c.id], s.descs[c.id];
      if c.caller == Secure || img.world == NonSecure then Return(Eperm, s)
      else if d.state != Reset && d.state != Copying then Return(Eperm, s)
      else if c.src == 0 || |c.block| == 0 || c.src > UINTPTR_MAX - (|c.block| - 1) then Return(Enomem, s)
      else if d.state == Copying then CopyBlock(cfg, s, c, d)
      else if c.size == 0 || c.size > img.maxSize then Return(Enomem, s)
      else
        var sized := s.descs[c.id := d.(imageSize := c.size)];
        match CheckOverlaps(cfg, sized, s.loaded, c.id, img.base, ImageEnd(img.base, c.size))
        case BadTable => Stop
        case Overlapping => Return(Eperm, WithDesc(s, c.id, d.(imageSize := 0)))
        case Clear => CopyBlock(cfg, s, c, Desc(Reset, 0, c.size))
  }

  // ----- Image authentication -----

  /** The state an image must be in for the caller to ask for its authentication. */
  function AuthFrom(img: Image, caller: World): ImageState {
    if caller == NonSecure && img.world == Secure then Copied else Reset
  }

  function Zeros(n: nat): (z: seq<byte>)
    ensures |z| == n && forall i :: 0 <= i < n ==> z[i] == 0
  {
    seq(n, _ => 0)
  }

  /** Authentication of an image that was copied: its memory is cleared if it does not pass. */
  function AuthCopied(cfg: Config, s: State, c: Call): Outcome
    requires Basic(cfg, s) && c.Auth? && c.id in cfg.images && s.descs[c.id].state == Copied
  {
    var d := s.descs[c.id];
    if c.verified then
      if c.hookOk then Return(Ok, WithDesc(s, c.id, d.(state := Authenticated))) else Stop
    else
      Return(Eauth, WithDesc(s, c.id, d.(state := Reset)).(
        loaded := RemoveLoadedId(s.loaded, c.id).1,
        mem := Splice(s.mem, cfg.images[c.id].base, Zeros(d.imageSize))))
  }

  /** Authentication in place: the image stays where the caller has it. */
  function AuthInPlace(cfg: Config, s: State, c: Call): Outcome
    requires Basic(cfg, s) && c.Auth? && c.id in cfg.images
  {
    var (added, loaded) := AddLoadedId(s.loaded, c.id);
    if c.src == 0 || c.size == 0 || c.src > UINTPTR_MAX - (c.size - 1) then Return(Enomem, s)
    else if !c.mapped || !added then Return(Enomem, s)
    else
      var s1 := WithDesc(s, c.id, s.descs[c.id].(imageSize := c.size));
      if !c.verified then Return(Eauth, s1.(loaded := RemoveLoadedId(loaded, c.id).1))
      else if !c.hookOk then Stop
      else Return(Ok, WithDesc(s1, c.id, s1.descs[c.id].(state := Authenticated)).(loaded := loaded))
  }

  /** bl1_fwu_image_auth */
  function AuthStep(cfg: Config, s: State, c: Call): Outcome
    requires Basic(cfg, s) && c.Auth?
  {
    if c.id !in cfg.images || s.descs[c.id].state != AuthFrom(cfg.images[c.id], c.caller) then Return(Eperm, s)
    else if s.descs[c.id].state == Copied then AuthCopied(cfg, s, c)
    else AuthInPlace(cfg, s, c)
  }

  // ----- Execution and reset -----

  /** bl1_fwu_image_execute */
  function ExecuteStep(cfg: Config, s: State, id: nat, caller: World): Outcome
    requires Basic(cfg, s)
  {
    if id !in cfg.images || caller == Secure || cfg.images[id].world == NonSecure ||
       !cfg.images[id].executable || s.descs[id].state != Authenticated
    then Return(Eperm, s)
    else Return(Ok, WithDesc(s, id, s.descs[id].(state := Executed)).(secExec := id))
  }

  /** bl1_fwu_image_resume */
  function ResumeStep(cfg: Config, s: State, caller: World): Outcome
    requires Basic(cfg, s)
  {
    var id := s.secExec;
    if id !in cfg.images then
      if caller == NonSecure then Return(Eperm, s) else Stop
    else if cfg.images[id].world == NonSecure || !cfg.images[id].executable then Stop
    else if s.descs[id].state != (if caller == Secure then Executed else Interrupted) then Stop
    else Return(Ok, WithDesc(s, id, s.descs[id].(state := if caller == Secure then Interrupted else Executed)))
  }

  /** bl1_fwu_sec_image_done */
  function DoneStep(cfg: Config, s: State, caller: World): Outcome
    requires Basic(cfg, s)
  {
    var id := s.secExec;
    if caller == NonSecure then Return(Eperm, s)
    else if id !in cfg.images || cfg.images[id].world == NonSecure || !cfg.images[id].executable ||
            s.descs[id].state != Executed
    then Stop
    else
      var (found, loaded) := RemoveLoadedId(s.loaded, id);
      if !found then Stop
      else Return(Ok, WithDesc(s, id, s.descs[id].(state := Reset)).(loaded := loaded, secExec := INVALID_IMAGE_ID))
  }

  /** bl1_fwu_image_reset.  The copied bytes are cleared whatever range they now belong to. */
  function ResetStep(cfg: Config, s: State, id: nat, caller: World): Outcome
    requires Basic(cfg, s)
  {
    if id !in cfg.images || caller == Secure then Return(Eperm, s)
    else
      var d := s.descs[id];
      if d.state == Reset then Return(Ok, s)
      else if d.state == Executed then Stop
      else
        var (found, loaded) := RemoveLoadedId(s.loaded, id);
        if !found then Return(Eperm, s)
        else if d.copiedSize != 0 && cfg.images[id].world == NonSecure then Stop
        else Return(Ok, WithDesc(s, id, Desc(Reset, 0, 0)).(
               loaded := loaded,
               mem := Splice(s.mem, cfg.images[id].base, Zeros(d.copiedSize))))
  }

  /** bl1_fwu_smc_handler */
  function Step(cfg: Config, s: State, c: Call): Outcome
    requires Basic(cfg, s)
  {
    match c
    case Copy(_, _, _, _, _, _, _) => CopyStep(cfg, s, c)
    case Auth(_, _, _, _, _, _, _) => AuthStep(cfg, s, c)
    case Execute(id, caller) => ExecuteStep(cfg, s, id, caller)
    case Resume(caller) => ResumeStep(cfg, s, caller)
    case SecImageDone(caller) => DoneStep(cfg, s, caller)
    case ResetImage(id, caller) => ResetStep(cfg, s, id, caller)
  }

  // ----- The basic facts stay -----

  lemma UpdateKeepsBasic(cfg: Config, s: State, s': State, id: nat)
    requires Basic(cfg, s) && id in cfg.images && id in s'.descs
    requires s'.descs == s.descs[id := s'.descs[id]] && SizesFit(cfg.images[id], s'.descs[id])
    requires |s'.loaded| == |s.loaded| && |s'.mem| == |s.mem|
    ensures Basic(cfg, s')
  {
  }

  lemma CopyBlockKeepsBasic(cfg: Config, s: State, c: Call, d: Desc)
    requires Basic(cfg, s) && c.Copy? && c.id in cfg.images && |c.block| > 0 && cfg.images[c.id].world == Secure
    requires d.copiedSize < d.imageSize <= cfg.images[c.id].maxSize
    requires (d == s.descs[c.id] && d.state == Copying) || d.state == Reset
    ensures Basic(cfg, CopyBlock(cfg, s, c, d).state)
  {
    UpdateKeepsBasic(cfg, s, CopyBlock(cfg, s, c, d).state, c.id);
  }

  lemma CopyKeepsBasic(cfg: Config, s: State, c: Call)
    requires Basic(cfg, s) && c.Copy? && CopyStep(cfg, s, c).Return?
    ensures Basic(cfg, CopyStep(cfg, s, c).state)
  {
    var s' := CopyStep(cfg, s, c).state;
    if s' != s {
      var d := s.descs[c.id];
      if d.state == Copying {
        CopyBlockKeepsBasic(cfg, s, c, d);
      } else if s' == WithDesc(s, c.id, d.(imageSize := 0)) {
        UpdateKeepsBasic(cfg, s, s', c.id);
      } else {
        CopyBlockKeepsBasic(cfg, s, c, Desc(Reset, 0, c.size));
      }
    }
  }

  lemma AuthKeepsBasic(cfg: Config, s: State, c: Call)
    requires Basic(cfg, s) && c.Auth? && AuthStep(cfg, s, c).Return?
    ensures Basic(cfg, AuthStep(cfg, s, c).state)
  {
    var s' := AuthStep(cfg, s, c).state;
    if s' != s { UpdateKeepsBasic(cfg, s, s', c.id); }
  }

  lemma ControlKeepsBasic(cfg: Config, s: State, c: Call)
    requires Basic(cfg, s) && !c.Copy? && !c.Auth? && Step(cfg, s, c).Return?
    ensures Basic(cfg, Step(cfg, s, c).state)
  {
    var s' := Step(cfg, s, c).state;
    if s' != s { UpdateKeepsBasic(cfg, s, s', if c.Execute? || c.ResetImage? then c.id else s.secExec); }
  }

  lemma StepKeepsBasic(cfg: Config, s: State, c: Call)
    requires Basic(cfg, s) && Step(cfg, s, c).Return?
    ensures Basic(cfg, Step(cfg, s, c).state)
  {
    match c
    case Copy(_, _, _, _, _, _, _) => CopyKeepsBasic(cfg, s, c);
    case Auth(_, _, _, _, _, _, _) => AuthKeepsBasic(cfg, s, c);
    case _ => ControlKeepsBasic(cfg, s, c);
  }
}
