/** The scatter list of a UFS command (drivers/ufs/ufs.c): cutting a buffer into table entries of at most
    256 KiB. */
module UfsPrdt {
  import opened Bits

  const MAX_PRDT_SIZE: nat := 0x4_0000
  const PRDT_ENTRY_SIZE: nat := 16
  const UTRD_HEADER_SIZE: nat := 32
  const CMD_UPIU_SIZE: nat := 32
  const RESP_UPIU_SIZE: nat := 52

  /** `prdt_t`: the two halves of the address, and the byte count minus one. */
  datatype Prdt = Prdt(dba: nat, dbau: nat, dbc: nat)

  function Address(p: Prdt): nat { p.dbau * U32 + p.dba }
  function Size(p: Prdt): nat { p.dbc + 1 }

  /** The fields fit: 32 bits for each half of the address, 18 for the count. */
  predicate FieldsFit(p: Prdt) { p.dba < U32 && p.dbau < U32 && p.dbc < 0x4_0000 }

  /** The entries are the range, piece by piece: in order, without gap or overlap, none empty and none larger
      than 256 KiB. */
  ghost predicate Tiles(entries: seq<Prdt>, buf: nat, length: nat) {
    if entries == [] then length == 0
    else
      && Address(entries[0]) == buf && Size(entries[0]) <= length && FieldsFit(entries[0])
      && Tiles(entries[1..], buf + Size(entries[0]), length - Size(entries[0]))
  }

  /** The number of entries a length needs. */
  function EntryCount(length: nat): nat { (length + MAX_PRDT_SIZE - 1) / MAX_PRDT_SIZE }

  lemma EntryCountSteps(length: nat)
    ensures length > MAX_PRDT_SIZE ==> EntryCount(length) == 1 + EntryCount(length - MAX_PRDT_SIZE)
    ensures 0 < length <= MAX_PRDT_SIZE ==> EntryCount(length) == 1
    ensures length == 0 ==> EntryCount(length) == 0
  {
    if length > 0 {
      DivDrop(length + MAX_PRDT_SIZE - 1, MAX_PRDT_SIZE);
      if length <= MAX_PRDT_SIZE { DivSmall(length - 1, MAX_PRDT_SIZE); }
    } else {
      DivSmall(MAX_PRDT_SIZE - 1, MAX_PRDT_SIZE);
    }
  }

  /** One more piece at the end. */
  lemma {:induction false} TilesSnoc(entries: seq<Prdt>, buf: nat, length: nat, p: Prdt)
    requires Tiles(entries, buf, length) && Address(p) == buf + length && FieldsFit(p)
    ensures Tiles(entries + [p], buf, length + Size(p))
    decreases |entries|
  {
    var all := entries + [p];
    if entries == [] {
      assert all[1..] == [];
    } else {
      var n := Size(entries[0]);
      TilesSnoc(entries[1..], buf + n, length - n, p);
      assert all[1..] == entries[1..] + [p];
    }
  }

  /** The loop of ufs_prepare_cmd.  It panics exactly if the descriptor area has no room for the entries; otherwise
      they tile the buffer and there are as many as the length needs. */
  method FillPrdt(prdt: nat, descLimit: nat, buf: nat, length: nat) returns (ok: bool, entries: seq<Prdt>)
    requires buf + length <= U64
    ensures ok <==> length == 0 || prdt + EntryCount(length) * PRDT_ENTRY_SIZE <= descLimit
    ensures ok ==> Tiles(entries, buf, length) && |entries| == EntryCount(length)
  {
    var at, left, count := buf, length, 0;
    entries := [];
    EntryCountSteps(length);
    while left > 0
      invariant 0 <= left <= length && |entries| == count
      invariant left > 0 ==> at == buf + (length - left)
      invariant Tiles(entries, buf, length - left)
      invariant count + EntryCount(left) == EntryCount(length)
      invariant count > 0 ==> prdt + count * PRDT_ENTRY_SIZE <= descLimit
    {
      EntryCountSteps(left);
      if prdt + count * PRDT_ENTRY_SIZE + PRDT_ENTRY_SIZE > descLimit {
        return false, entries;
      }
      var size := if left > MAX_PRDT_SIZE then MAX_PRDT_SIZE else left;
      var p := Prdt(at % U32, (at / U32) % U32, size - 1);
      AddressSplits(at);
      TilesSnoc(entries, buf, length - left, p);
      entries := entries + [p];
      left := left - size;
      at := (at + MAX_PRDT_SIZE) % U64;
      count := count + 1;
      NextAddress(buf, length, left, at);
      EntryCountSteps(0);
    }
    return true, entries;
  }

  lemma AddressSplits(at: nat)
    requires at < U64
    ensures (at / U32) % U32 * U32 + at % U32 == at
  {
    DivSmall(at / U32, U32);
  }

  /** Unless the buffer is used up, advancing the address does not wrap. */
  lemma NextAddress(buf: nat, length: nat, left: nat, at: nat)
    requires buf + length <= U64 && left <= length
    requires left > 0 ==> at == (buf + (length - left)) % U64
    ensures left > 0 ==> at == buf + (length - left)
  {
    if left > 0 { DivSmall(buf + (length - left), U64); }
  }

  /** Under the assertion that the block count, an `unsigned int`, fits 16 bits there are at most 1024 entries, as
      long as the length is below 16 TiB and the count is not cut. */
  lemma EntryBound(length: nat)
    requires length < 0x1000_0000_0000 && length / 4096 % U32 <= 0xFFFF
    ensures EntryCount(length) <= 1024
  {
    DivSmall(length / 4096, U32);
    assert length < 0x1000_0000;
  }

  // ----- The descriptor -----

  function AlignUp(x: nat, a: nat): nat
    requires a > 0
  {
    (x + a - 1) - (x + a - 1) % a
  }

  /** The addresses get_utrd lays out in the descriptor area. */
  datatype Layout = Layout(header: nat, upiu: nat, respUpiu: nat, prdt: nat, sizeUpiu: nat, sizeResp: nat)

  function GetUtrd(base: nat): Layout {
    var upiu := AlignUp(base + UTRD_HEADER_SIZE, 128);
    var resp := AlignUp(upiu + CMD_UPIU_SIZE, 8);
    var size := AlignUp(RESP_UPIU_SIZE, 8);
    Layout(base, upiu, resp, resp + size, resp - upiu, size)
  }

  /** The parts follow each other without overlap: the command is 128-byte aligned behind the header, the response
      follows it, the table follows the response at the offset the header records in words; and the area after
      the table start has room for the largest table in 17 KiB. */
  lemma LayoutInOrder(base: nat)
    ensures var l := GetUtrd(base);
            && l.upiu % 128 == 0 && base + UTRD_HEADER_SIZE <= l.upiu < base + UTRD_HEADER_SIZE + 128
            && l.respUpiu == l.upiu + CMD_UPIU_SIZE && l.prdt == l.respUpiu + 56 && RESP_UPIU_SIZE <= 56
            && l.prdt == l.upiu + 4 * ((l.sizeUpiu + l.sizeResp) / 4)
            && l.prdt + 1024 * PRDT_ENTRY_SIZE <= base + 0x4400
  {
    var x := base + UTRD_HEADER_SIZE + 127;
    assert x == 128 * (x / 128) + x % 128;
    ModUnique(x - x % 128, 128, x / 128, 0);
    var upiu := x - x % 128;
    assert upiu == 8 * (16 * (x / 128));
    ModUnique(upiu + CMD_UPIU_SIZE + 7, 8, 16 * (x / 128) + 4, 7);
  }
}
