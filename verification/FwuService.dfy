/** The firmware-update service in the form of the source: a table searched by loops, descriptors and
    memory updated in place.  Every call refines the corresponding step of the model. */
module FwuService {
  import opened Bytes
  import opened Common
  import opened FwuModel

  datatype Reply = Stopped | Served(status: Status)

  /** The reply and the new state are the ones the model gives; nothing is said of the state once an
      assertion has stopped the machine. */
  ghost predicate Matches(o: Outcome, r: Reply, after: State) {
    match o
    case Stop => r == Stopped
    case Return(status, s) => r == Served(status) && after == s
  }

  class Service {
    const cfg: Config
    const loaded: array<nat>
    const mem: array<byte>
    var descs: map<nat, Desc>
    var secExec: nat

    ghost function View(): State
      reads this, loaded, mem
    {
      State(descs, loaded[..], secExec, mem[..])
    }

    ghost predicate Valid()
      reads this, loaded, mem
    {
      Basic(cfg, View())
    }

    constructor (cfg: Config)
      requires WellFormed(cfg)
      ensures Valid() && this.cfg == cfg && View() == Init(cfg)
      ensures fresh(loaded) && fresh(mem)
    {
      this.cfg := cfg;
      loaded := new nat[cfg.slots](_ => INVALID_IMAGE_ID);
      mem := new byte[|cfg.memory|](i requires 0 <= i < |cfg.memory| => cfg.memory[i]);
      descs := Init(cfg).descs;
      secExec := INVALID_IMAGE_ID;
      new;
      assert loaded[..] == Init(cfg).loaded && mem[..] == Init(cfg).mem;
    }

    /** The first slot holding `id`, or the number of slots: the loop all table operations share. */
    method FindSlot(id: nat) returns (i: nat)
      ensures i == SlotOf(loaded[..], id)
    {
      i := 0;
      while i < loaded.Length
        invariant i <= loaded.Length
        invariant forall j :: 0 <= j < i ==> loaded[j] != id
      {
        if loaded[i] == id { return; }
        i := i + 1;
      }
    }

    /** bl1_fwu_add_loaded_id */
    method AddId(id: nat) returns (added: bool)
      modifies loaded
      ensures (added, loaded[..]) == AddLoadedId(old(loaded[..]), id)
    {
      var i := FindSlot(id);
      if i < loaded.Length { return true; }
      i := FindSlot(INVALID_IMAGE_ID);
      if i < loaded.Length {
        loaded[i] := id;
        return true;
      }
      return false;
    }

    /** bl1_fwu_remove_loaded_id */
    method RemoveId(id: nat) returns (found: bool)
      modifies loaded
      ensures (found, loaded[..]) == RemoveLoadedId(old(loaded[..]), id)
    {
      var i := FindSlot(id);
      found := i < loaded.Length;
      if found { loaded[i] := INVALID_IMAGE_ID; }
    }

    /** bl1_fwu_image_check_overlaps */
    method ScanOverlaps(id: nat) returns (v: Overlap)
      requires descs.Keys == cfg.images.Keys && id in cfg.images && descs[id].imageSize > 0
      ensures v == CheckOverlaps(cfg, descs, loaded[..], id, cfg.images[id].base,
                                 ImageEnd(cfg.images[id].base, descs[id].imageSize))
    {
      var base, end := cfg.images[id].base, ImageEnd(cfg.images[id].base, descs[id].imageSize);
      var i := 0;
      while i < loaded.Length
        invariant i <= loaded.Length
        invariant CheckOverlaps(cfg, descs, loaded[..], id, base, end) ==
                  CheckOverlaps(cfg, descs, loaded[i..], id, base, end)
      {
        v := CheckSlot(cfg, descs, id, base, end, loaded[i]);
        assert loaded[i..][1..] == loaded[i + 1..];
        if v != Clear { return; }
        i := i + 1;
      }
      v := Clear;
    }

    /** The second half of bl1_fwu_image_copy; `before` is the state in which the call arrived. */
    method MoveBlock(c: Call, ghost before: State) returns (r: Reply)
      requires c.Copy? && c.id in cfg.images && c.id in descs
      requires Basic(cfg, before) && WithDesc(before, c.id, descs[c.id]) == View()
      requires descs[c.id].copiedSize < descs[c.id].imageSize <= cfg.images[c.id].maxSize
      modifies this`descs, loaded, mem
      ensures Matches(CopyBlock(cfg, before, c, old(descs)[c.id]), r, View())
    {
      var d := descs[c.id];
      var block, remaining := c.block, d.imageSize - d.copiedSize;
      if |block| > remaining { block := block[..remaining]; }
      if !c.mapped { return Served(Enomem); }
      var added := AddId(c.id);
      if !added { return Served(Enomem); }
      if d.state == Reset && !c.hookOk { return Served(Eperm); }
      ghost var table := loaded[..];
      Store(mem, cfg.images[c.id].base + d.copiedSize, block);
      assert loaded[..] == table == AddLoadedId(before.loaded, c.id).1;
      var copied := d.copiedSize + |block|;
      var d' := Desc(if |block| == remaining then Copied else Copying, copied, d.imageSize);
      descs := descs[c.id := d'];
      assert descs == before.descs[c.id := d'];
      return Served(Ok);
    }

    /** bl1_fwu_image_copy */
    method ImageCopy(c: Call) returns (r: Reply)
      requires Valid() && c.Copy?
      modifies this`descs, loaded, mem
      ensures Matches(CopyStep(cfg, old(View()), c), r, View())
    {
      if c.id !in cfg.images { return Served(Eperm); }
      var img, d := cfg.images[c.id], descs[c.id];
      if c.caller == Secure { return Served(Eperm); }
      if img.world == NonSecure { return Served(Eperm); }
      if d.state != Reset && d.state != Copying { return Served(Eperm); }
      if c.src == 0 || |c.block| == 0 || c.src > UINTPTR_MAX - (|c.block| - 1) { return Served(Enomem); }
      if d.state == Reset {
        if c.size == 0 || c.size > img.maxSize { return Served(Enomem); }
        descs := descs[c.id := d.(imageSize := c.size)];
        var v := ScanOverlaps(c.id);
        if v == BadTable { return Stopped; }
        if v == Overlapping {
          descs := descs[c.id := d.(imageSize := 0)];
          return Served(Eperm);
        }
        descs := descs[c.id := Desc(d.state, 0, c.size)];
      }
      assert WithDesc(old(View()), c.id, descs[c.id]) == View();
      r := MoveBlock(c, old(View()));
    }

    /** bl1_fwu_image_auth */
    method ImageAuth(c: Call) returns (r: Reply)
      requires Valid() && c.Auth?
      modifies this`descs, loaded, mem
      ensures Matches(AuthStep(cfg, old(View()), c), r, View())
    {
      if c.id !in cfg.images { return Served(Eperm); }
      var d := descs[c.id];
      if c.caller == Secure {
        if d.state != Reset { return Served(Eperm); }
      } else if cfg.images[c.id].world == Secure {
        if d.state != Copied { return Served(Eperm); }
      } else if d.state != Reset { return Served(Eperm); }
      if d.state != Copied {
        if c.src == 0 || c.size == 0 || c.src > UINTPTR_MAX - (c.size - 1) { return Served(Enomem); }
        if !c.mapped { return Served(Enomem); }
        var added := AddId(c.id);
        if !added { return Served(Enomem); }
        descs := descs[c.id := d.(imageSize := c.size)];
      }
      if !c.verified {
        if d.state == Copied {
          Store(mem, cfg.images[c.id].base, Zeros(d.imageSize));
          descs := descs[c.id := d.(state := Reset)];
        }
        var _ := RemoveId(c.id);
        return Served(Eauth);
      }
      descs := descs[c.id := descs[c.id].(state := Authenticated)];
      if !c.hookOk { return Stopped; }
      return Served(Ok);
    }

    /** bl1_fwu_image_execute */
    method ImageExecute(id: nat, caller: World) returns (r: Reply)
      requires Valid()
      modifies this`descs, this`secExec
      ensures Matches(ExecuteStep(cfg, old(View()), id, caller), r, View())
    {
      if id !in cfg.images || caller == Secure || cfg.images[id].world == NonSecure ||
         !cfg.images[id].executable || descs[id].state != Authenticated
      {
        return Served(Eperm);
      }
      descs := descs[id := descs[id].(state := Executed)];
      secExec := id;
      return Served(Ok);
    }

    /** bl1_fwu_image_resume */
    method ImageResume(caller: World) returns (r: Reply)
      requires Valid()
      modifies this`descs
      ensures Matches(ResumeStep(cfg, old(View()), caller), r, View())
    {
      if secExec !in cfg.images { return if caller == NonSecure then Served(Eperm) else Stopped; }
      var img, d := cfg.images[secExec], descs[secExec];
      if img.world == NonSecure || !img.executable { return Stopped; }
      if caller == Secure {
        if d.state != Executed { return Stopped; }
        descs := descs[secExec := d.(state := Interrupted)];
      } else {
        if d.state != Interrupted { return Stopped; }
        descs := descs[secExec := d.(state := Executed)];
      }
      return Served(Ok);
    }

    /** bl1_fwu_sec_image_done */
    method SecureImageDone(caller: World) returns (r: Reply)
      requires Valid()
      modifies this`descs, this`secExec, loaded
      ensures Matches(DoneStep(cfg, old(View()), caller), r, View())
    {
      if caller == NonSecure { return Served(Eperm); }
      if secExec !in cfg.images { return Stopped; }
      var img, d := cfg.images[secExec], descs[secExec];
      if img.world == NonSecure || !img.executable || d.state != Executed { return Stopped; }
      var found := RemoveId(secExec);
      if !found { return Stopped; }
      descs := descs[secExec := d.(state := Reset)];
      secExec := INVALID_IMAGE_ID;
      return Served(Ok);
    }

    /** bl1_fwu_image_reset */
    method ImageReset(id: nat, caller: World) returns (r: Reply)
      requires Valid()
      modifies this`descs, loaded, mem
      ensures Matches(ResetStep(cfg, old(View()), id, caller), r, View())
    {
      if id !in cfg.images || caller == Secure { return Served(Eperm); }
      var d := descs[id];
      if d.state == Reset { return Served(Ok); }
      if d.state == Executed { return Stopped; }
      var found := RemoveId(id);
      if !found { return Served(Eperm); }
      if d.copiedSize != 0 {
        if cfg.images[id].world != Secure { return Stopped; }
        Store(mem, cfg.images[id].base, Zeros(d.copiedSize));
      }
      assert d.copiedSize == 0 ==> mem[..] == Splice(mem[..], cfg.images[id].base, Zeros(0));
      descs := descs[id := Desc(Reset, 0, 0)];
      return Served(Ok);
    }
  }
}
