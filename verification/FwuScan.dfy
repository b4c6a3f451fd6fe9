/** What the overlap check of the firmware-update service finds in the table of loaded images. */
module FwuScan {
  import opened Common
  import opened FwuModel
  import opened FwuInvariant

  /** Checking image `id` against the listed `other` fails an assertion: the other one is in RESET, or its last
      address is not above its first, because it has one byte or because it goes beyond the last address. */
  ghost predicate Trips(cfg: Config, descs: map<nat, Desc>, id: nat, other: nat) {
    && other != INVALID_IMAGE_ID && other != id && other in descs && other in cfg.images
    && (descs[other].state == Reset || descs[other].imageSize == 1 ||
        cfg.images[other].base + descs[other].imageSize - 1 > UINTPTR_MAX)
  }

  /** The check goes on to the next slot: the slot is empty or holds the image itself, or the other image is empty
      or lies apart. */
  ghost predicate GoesOn(cfg: Config, descs: map<nat, Desc>, id: nat, size: nat, other: nat)
    requires id in cfg.images
  {
    || other == INVALID_IMAGE_ID || other == id
    || (other in descs && other in cfg.images && !Trips(cfg, descs, id, other) &&
        Apart(cfg.images[other].base, descs[other].imageSize, cfg.images[id].base, size))
  }

  ghost predicate KnownIds(cfg: Config, loaded: seq<nat>) {
    forall x :: x in loaded ==> x == INVALID_IMAGE_ID || x in cfg.images
  }

  lemma SlotVerdict(cfg: Config, descs: map<nat, Desc>, id: nat, size: nat, other: nat)
    requires WellFormed(cfg) && descs.Keys == cfg.images.Keys
    requires id in cfg.images && 0 < size <= cfg.images[id].maxSize
    requires other == INVALID_IMAGE_ID || other in cfg.images
    ensures var v := CheckSlot(cfg, descs, id, cfg.images[id].base, ImageEnd(cfg.images[id].base, size), other);
            && (v == BadTable <==> Trips(cfg, descs, id, other))
            && (v == Clear <==> GoesOn(cfg, descs, id, size, other))
  {
  }

  /** The scan gets to slot `k` and fails there. */
  ghost predicate TripsAt(cfg: Config, descs: map<nat, Desc>, loaded: seq<nat>, id: nat, size: nat, k: nat)
    requires id in cfg.images
  {
    && k < |loaded| && Trips(cfg, descs, id, loaded[k])
    && forall j :: 0 <= j < k ==> GoesOn(cfg, descs, id, size, loaded[j])
  }

  ghost predicate FailsScan(cfg: Config, descs: map<nat, Desc>, loaded: seq<nat>, id: nat, size: nat)
    requires id in cfg.images
  {
    exists k: nat :: TripsAt(cfg, descs, loaded, id, size, k)
  }

  lemma {:induction false} ScanTrips(cfg: Config, descs: map<nat, Desc>, loaded: seq<nat>, id: nat, size: nat)
    requires WellFormed(cfg) && descs.Keys == cfg.images.Keys && KnownIds(cfg, loaded)
    requires id in cfg.images && 0 < size <= cfg.images[id].maxSize
    ensures CheckOverlaps(cfg, descs, loaded, id, cfg.images[id].base,
                          ImageEnd(cfg.images[id].base, size)) == BadTable <==>
            FailsScan(cfg, descs, loaded, id, size)
    decreases |loaded|
  {
    if loaded != [] {
      var rest := loaded[1..];
      SlotVerdict(cfg, descs, id, size, loaded[0]);
      ScanTrips(cfg, descs, rest, id, size);
      if GoesOn(cfg, descs, id, size, loaded[0]) {
        if k: nat :| TripsAt(cfg, descs, rest, id, size, k) {
          assert TripsAt(cfg, descs, loaded, id, size, k + 1);
        }
        if k: nat :| TripsAt(cfg, descs, loaded, id, size, k) {
          assert TripsAt(cfg, descs, rest, id, size, k - 1);
        }
      } else if Trips(cfg, descs, id, loaded[0]) {
        assert TripsAt(cfg, descs, loaded, id, size, 0);
      }
    }
  }

  /** The check passes exactly if it goes on from every slot. */
  lemma {:induction false} ScanClear(cfg: Config, descs: map<nat, Desc>, loaded: seq<nat>, id: nat, size: nat)
    requires WellFormed(cfg) && descs.Keys == cfg.images.Keys && KnownIds(cfg, loaded)
    requires id in cfg.images && 0 < size <= cfg.images[id].maxSize
    ensures CheckOverlaps(cfg, descs, loaded, id, cfg.images[id].base,
                          ImageEnd(cfg.images[id].base, size)) == Clear <==>
            forall j :: 0 <= j < |loaded| ==> GoesOn(cfg, descs, id, size, loaded[j])
    decreases |loaded|
  {
    if loaded != [] {
      var rest := loaded[1..];
      SlotVerdict(cfg, descs, id, size, loaded[0]);
      ScanClear(cfg, descs, rest, id, size);
      assert forall j :: 0 <= j < |rest| ==> rest[j] == loaded[j + 1];
      assert forall j :: 0 < j < |loaded| ==> loaded[j] == rest[j - 1];
    }
  }

  /** The size recorded for the image itself does not matter to the scan. */
  lemma OwnSizeIgnored(cfg: Config, descs: map<nat, Desc>, loaded: seq<nat>, id: nat, d: Desc, size: nat)
    requires id in cfg.images && id in descs
    ensures FailsScan(cfg, descs[id := d], loaded, id, size) <==> FailsScan(cfg, descs, loaded, id, size)
  {
    var descs' := descs[id := d];
    if k: nat :| TripsAt(cfg, descs, loaded, id, size, k) { assert TripsAt(cfg, descs', loaded, id, size, k); }
    if k: nat :| TripsAt(cfg, descs', loaded, id, size, k) { assert TripsAt(cfg, descs, loaded, id, size, k); }
  }

  lemma TrackedIds(cfg: Config, s: State)
    requires Tracked(cfg, s)
    ensures KnownIds(cfg, s.loaded)
  {
    forall x | x in s.loaded && x != INVALID_IMAGE_ID
      ensures x in cfg.images
    {
      assert x in Ids(s.loaded);
    }
  }

  /** The overlap check of a first request passes exactly if it goes on from every listed image. */
  lemma VerdictClear(cfg: Config, s: State, c: Call)
    requires Tracked(cfg, s) && FirstRequest(cfg, s, c)
    ensures Verdict(cfg, s, c) == Clear <==>
            forall x :: x in Ids(s.loaded) ==> GoesOn(cfg, s.descs, c.id, c.size, x)
  {
    var sized := s.descs[c.id := s.descs[c.id].(imageSize := c.size)];
    TrackedIds(cfg, s);
    ScanClear(cfg, sized, s.loaded, c.id, c.size);
    forall x | x in cfg.images
      ensures GoesOn(cfg, sized, c.id, c.size, x) <==> GoesOn(cfg, s.descs, c.id, c.size, x)
    {
    }
    if forall x :: x in Ids(s.loaded) ==> GoesOn(cfg, s.descs, c.id, c.size, x) {
      forall j | 0 <= j < |s.loaded|
        ensures GoesOn(cfg, sized, c.id, c.size, s.loaded[j])
      {
        if s.loaded[j] != INVALID_IMAGE_ID { assert s.loaded[j] in Ids(s.loaded); }
      }
    }
  }

  /** When it passes, every other listed image that is not empty has more than one byte, ends before the last address,
      and lies apart. */
  lemma ClearMeansApart(cfg: Config, s: State, c: Call, x: nat)
    requires Tracked(cfg, s) && FirstRequest(cfg, s, c) && Verdict(cfg, s, c) == Clear
    requires x in Ids(s.loaded) && x != c.id && s.descs[x].imageSize > 0
    ensures s.descs[x].imageSize >= 2 && cfg.images[x].base + s.descs[x].imageSize - 1 <= UINTPTR_MAX
    ensures Apart(cfg.images[x].base, s.descs[x].imageSize, cfg.images[c.id].base, c.size)
  {
    VerdictClear(cfg, s, c);
    assert GoesOn(cfg, s.descs, c.id, c.size, x);
  }
}
