/** Dispatch of secure monitor calls to runtime services (common/runtime_svc.c): the table built at boot
    against a linear search of the descriptors. */
module RuntimeSvc {

  const MAX_RT_SVCS: nat := 128
  const OEN_LIMIT: nat := 64
  const SMC_TYPE_FAST: nat := 1
  const SMC_TYPE_YIELD: nat := 0
  /** The byte `memset` leaves in unused slots. */
  const UNUSED: nat := 0xFF

  datatype Init = Absent | Succeeds | Fails

  /** `rt_svc_desc_t`, with what its init routine will return. */
  datatype Service = Service(startOen: nat, endOen: nat, callType: nat, init: Init, hasHandler: bool)

  /** validate_rt_svc_desc */
  predicate IsValid(d: Service) {
    && d.startOen <= d.endOen < OEN_LIMIT
    && (d.callType == SMC_TYPE_FAST || d.callType == SMC_TYPE_YIELD)
    && (d.init != Absent || d.hasHandler)
  }

  /** get_unique_oen: the call type above the six bits of the owning entity number. */
  function UniqueOen(oen: nat, callType: nat): (u: nat)
    ensures u < MAX_RT_SVCS
  {
    (callType % 2) * 64 + oen % 64
  }

  /** The fields of a 32-bit function identifier: bit 31 and bits 29 to 24. */
  function CallType(fid: nat): nat { (fid / 0x8000_0000) % 2 }
  function OwningEntity(fid: nat): nat { (fid / 0x100_0000) % 64 }

  // ----- Linear search -----

  /** The service takes calls of this type and entity. */
  predicate Serves(d: Service, callType: nat, oen: nat) {
    d.callType == callType && d.startOen <= oen <= d.endOen && d.init != Fails
  }

  /** The last service that takes them, or -1. */
  function LastServing(descs: seq<Service>, callType: nat, oen: nat): (k: int)
    ensures -1 <= k < |descs|
    ensures k >= 0 ==> Serves(descs[k], callType, oen)
    ensures forall j :: k < j < |descs| ==> !Serves(descs[j], callType, oen)
  {
    if descs == [] then -1
    else if Serves(descs[|descs| - 1], callType, oen) then |descs| - 1
    else LastServing(descs[..|descs| - 1], callType, oen)
  }

  /** What the table holds for a unique entity number after `descs` were entered. */
  function Slot(descs: seq<Service>, u: nat): nat {
    var k := LastServing(descs, u / 64, u % 64);
    if k < 0 then UNUSED else k
  }

  datatype Dispatch = Unknown | Handler(index: nat)

  // ----- The table -----

  class Dispatcher {
    const descs: seq<Service>
    const indices: array<nat>

    constructor (descs: seq<Service>)
      ensures this.descs == descs && indices.Length == MAX_RT_SVCS && fresh(indices)
    {
      this.descs := descs;
      indices := new nat[MAX_RT_SVCS](_ => 0);
    }

    /** The table answers every identifier as the linear search does. */
    ghost predicate Ready()
      reads indices
    {
      && indices.Length == MAX_RT_SVCS && |descs| < MAX_RT_SVCS
      && (descs != [] ==> forall u :: 0 <= u < MAX_RT_SVCS ==> indices[u] == Slot(descs, u))
    }

    /** runtime_svc_init.  An invalid descriptor is a panic; a service whose init fails is passed over. */
    method Initialise() returns (ok: bool)
      requires indices.Length == MAX_RT_SVCS && |descs| < MAX_RT_SVCS
      modifies indices
      ensures ok <==> forall i :: 0 <= i < |descs| ==> IsValid(descs[i])
      ensures ok ==> Ready()
    {
      if |descs| == 0 { return true; }
      forall u | 0 <= u < MAX_RT_SVCS { indices[u] := UNUSED; }
      var index := 0;
      while index < |descs|
        invariant 0 <= index <= |descs|
        invariant forall i :: 0 <= i < index ==> IsValid(descs[i])
        invariant forall u :: 0 <= u < MAX_RT_SVCS ==> indices[u] == Slot(descs[..index], u)
      {
        var service := descs[index];
        if !IsValid(service) { return false; }
        if service.init != Fails { Enter(index); }
        forall u | 0 <= u < MAX_RT_SVCS
          ensures indices[u] == Slot(descs[..index + 1], u)
        {
          SlotGrows(descs, index, u);
        }
        index := index + 1;
      }
      assert descs[..index] == descs;
      return true;
    }

    /** The inner loop: give the entity range of service `index` to it. */
    method Enter(index: nat)
      requires indices.Length == MAX_RT_SVCS && index < |descs| && IsValid(descs[index])
      modifies indices
      ensures forall u :: 0 <= u < MAX_RT_SVCS ==>
                indices[u] == if InRange(descs[index], u) then index else old(indices[u])
    {
      var d := descs[index];
      var at, end := UniqueOen(d.startOen, d.callType), UniqueOen(d.endOen, d.callType);
      ghost var start := at;
      while at <= end
        invariant start <= at <= end + 1
        invariant forall u :: 0 <= u < MAX_RT_SVCS ==>
                    indices[u] == if start <= u < at then index else old(indices[u])
      {
        indices[at] := index;
        at := at + 1;
      }
      forall u | 0 <= u < MAX_RT_SVCS
        ensures start <= u <= end <==> InRange(d, u)
      {
        RangeOfService(d, u);
      }
    }

    /** The look-up of handle_runtime_svc: the last service of the call type whose entity range holds the call and
        whose init did not fail, and the unknown-call code if there is none. */
    method Lookup(fid: nat) returns (r: Dispatch)
      requires Ready() && fid < 0x1_0000_0000
      ensures var k := LastServing(descs, CallType(fid), OwningEntity(fid));
              r == if k < 0 then Unknown else Handler(k)
    {
      var u := UniqueOen(OwningEntity(fid), CallType(fid));
      var index := indices[u];
      if index >= |descs| { return Unknown; }
      return Handler(index);
    }
  }

  /** The unique entity number belongs to the service. */
  predicate InRange(d: Service, u: nat) { u / 64 == d.callType && d.startOen <= u % 64 <= d.endOen }

  lemma RangeOfService(d: Service, u: nat)
    requires IsValid(d) && u < MAX_RT_SVCS
    ensures UniqueOen(d.startOen, d.callType) <= u <= UniqueOen(d.endOen, d.callType) <==> InRange(d, u)
  {
  }

  lemma SlotGrows(descs: seq<Service>, index: nat, u: nat)
    requires index < |descs| && IsValid(descs[index]) && u < MAX_RT_SVCS
    ensures Slot(descs[..index + 1], u) ==
            if descs[index].init != Fails && InRange(descs[index], u) then index else Slot(descs[..index], u)
  {
    assert descs[..index + 1][..index] == descs[..index];
  }

  /** The calling-convention bit (bit 30, 32- or 64-bit call) has no influence on the service found. */
  lemma ConventionIgnored(fid: nat)
    requires fid < 0x1_0000_0000 && (fid / 0x4000_0000) % 2 == 0
    ensures CallType(fid + 0x4000_0000) == CallType(fid) && OwningEntity(fid + 0x4000_0000) == OwningEntity(fid)
  {
    assert (fid + 0x4000_0000) / 0x100_0000 == fid / 0x100_0000 + 64;
  }

  /** The identifier of function `low` of an entity: bit 31 the call type, bit 30 the convention, bits 29 to 24 the
      entity. */
  function FunctionId(callType: nat, convention: nat, oen: nat, low: nat): (fid: nat)
    requires callType < 2 && convention < 2 && oen < OEN_LIMIT && low < 0x100_0000
    ensures fid < 0x1_0000_0000
  {
    callType * 0x8000_0000 + convention * 0x4000_0000 + oen * 0x100_0000 + low
  }

  /** The fields are read back from it, */
  lemma FieldsOfIdentifier(callType: nat, convention: nat, oen: nat, low: nat)
    requires callType < 2 && convention < 2 && oen < OEN_LIMIT && low < 0x100_0000
    ensures var fid := FunctionId(callType, convention, oen, low);
            CallType(fid) == callType && OwningEntity(fid) == oen
  {
    var fid := FunctionId(callType, convention, oen, low);
    assert fid / 0x100_0000 == (callType * 2 + convention) * 64 + oen;
    assert fid / 0x8000_0000 == callType;
  }

  /** and every identifier of 32 bits is made of them. */
  lemma IdentifierOfFields(fid: nat)
    requires fid < 0x1_0000_0000
    ensures CallType(fid) < 2 && OwningEntity(fid) < OEN_LIMIT
    ensures FunctionId(CallType(fid), (fid / 0x4000_0000) % 2, OwningEntity(fid), fid % 0x100_0000) == fid
  {
    var high := fid / 0x100_0000;
    assert high < 256 && fid / 0x4000_0000 == high / 64 && fid / 0x8000_0000 == high / 128;
  }
}
