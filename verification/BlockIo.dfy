/** Byte-granular I/O over a block device (drivers/io/io_block.c).

    `BlockFile.Read` and `BlockFile.Write` hide block alignment, a bounce buffer and short
    transfers by the low-level driver.  They are proved against plain reads and updates of
    the device taken as one sequence of bytes. */
module BlockIo {
  import opened Bits
  import opened Bytes

  datatype Status = Ok | IoError | InvalidMode

  datatype SeekMode = SeekSet | SeekCur | OtherMode

  // ----- What a transfer does to the device -----

  /** `k` bytes of `data` written at `at`; nothing at all when `k` is zero, even if `at` is outside. */
  ghost predicate Committed(before: seq<byte>, after: seq<byte>, at: nat, data: seq<byte>, k: nat) {
    && k <= |data|
    && if k == 0 then after == before
       else at + k <= |before| && after == Splice(before, at, data[..k])
  }

  /** What a write of `length` bytes at `at` can do: any number `k` of them is written. */
  ghost predicate WriteEnds(before: seq<byte>, after: seq<byte>, at: nat, data: seq<byte>, length: nat, k: nat) {
    k <= length && Committed(before, after, at, data, k)
  }

  /** `k` bytes of the device from `at` on are what `data` starts with. */
  ghost predicate Fetched(content: seq<byte>, at: nat, data: seq<byte>, k: nat) {
    && k <= |data|
    && (k > 0 ==> at + k <= |content| && data[..k] == content[at..at + k])
  }

  // ----- The low-level driver -----

  /** The last transfer and how many bytes it moved; history only. */
  datatype Transfer = NoTransfer | ReadOf(n: nat) | WriteOf(n: nat)

  /** `io_block_ops_t` and the medium behind it.  Either transfer may be cut short anywhere, also inside a
      block; the amount is chosen freely by the driver.  Inside the device it moves at least `least` bytes of a
      request that is not smaller, which may be none. */
  class Driver {
    const blockSize: nat
    const least: nat
    var content: seq<byte>
    ghost var last: Transfer

    constructor (blockSize: nat, least: nat, content: seq<byte>)
      ensures this.blockSize == blockSize && this.least == least && this.content == content
    {
      this.blockSize, this.least, this.content, this.last := blockSize, least, content, NoTransfer;
    }

    ghost predicate Inside(lba: nat, request: nat)
      reads this`content
    {
      BlockStart(lba, blockSize) + request <= |content|
    }

    /** Fills the first `n` bytes of the buffer; the rest of the request may hold anything. */
    method Read(lba: nat, buf: array<byte>, request: nat) returns (n: nat)
      requires request <= buf.Length
      modifies buf, this`last
      ensures n <= request && last == ReadOf(n)
      ensures Fetched(content, BlockStart(lba, blockSize), buf[..], n)
      ensures Inside(lba, request) ==> n >= Min(request, least)
      ensures forall i :: request <= i < buf.Length ==> buf[i] == old(buf[i])
    {
      var at := lba * blockSize;
      BlockStartIsProduct(lba, blockSize);
      n := Amount(at, request);
      forall i | 0 <= i < n { buf[i] := content[at + i]; }
      last := ReadOf(n);
    }

    /** Commits exactly the first `n` bytes of the buffer. */
    method Write(lba: nat, buf: array<byte>, request: nat) returns (n: nat)
      requires request <= buf.Length
      modifies this`content, this`last
      ensures n <= request && last == WriteOf(n)
      ensures old(Inside(lba, request)) ==> n >= Min(request, least)
      ensures Committed(old(content), content, BlockStart(lba, blockSize), buf[..], n)
    {
      var at := lba * blockSize;
      BlockStartIsProduct(lba, blockSize);
      n := Amount(at, request);
      if n > 0 { content := Splice(content, at, buf[..n]); }
      last := WriteOf(n);
    }

    /** How much the driver decides to transfer. */
    method Amount(at: nat, request: nat) returns (n: nat)
      ensures n <= request && (n == 0 || at + n <= |content|)
      ensures at + request <= |content| ==> n >= Min(request, least)
    {
      if at + request <= |content| {
        n :| Min(request, least) <= n <= request;
      } else {
        n :| 0 <= n <= request && (n == 0 || at + n <= |content|);
      }
    }
  }

  // ----- Arithmetic of one iteration -----

  /** Byte addresses and buffer sizes stay below this, which leaves room to round up. */
  const ADDRESS_LIMIT: nat := 0x4000_0000_0000_0000

  /** Block numbers have to fit a non-negative `int`. */
  const LBA_LIMIT: nat := 0x8000_0000

  /** `x` bytes are a whole number of blocks, counted off one by one. */
  ghost predicate WholeBlocks(x: nat, b: nat)
    decreases x
  {
    b > 0 && (x == 0 || (b <= x && WholeBlocks(x - b, b)))
  }

  lemma {:induction false} WholeBlocksIsMod(x: nat, b: nat)
    requires b > 0
    ensures WholeBlocks(x, b) <==> x % b == 0
    decreases x
  {
    if x >= b {
      WholeBlocksIsMod(x - b, b);
      DivDrop(x, b);
    } else if x > 0 {
      ModUnique(x, b, 0, x);
    }
  }

  /** The byte address of block `lba`, that is `lba * b`. */
  ghost function BlockStart(lba: nat, b: nat): nat {
    if lba == 0 then 0 else b + BlockStart(lba - 1, b)
  }

  lemma {:induction false} BlockStartIsProduct(lba: nat, b: nat)
    ensures BlockStart(lba, b) == lba * b
  {
    if lba > 0 { BlockStartIsProduct(lba - 1, b); }
  }

  /** The number of the block byte `x` lies in. */
  function BlockOf(x: nat, b: nat): nat
    requires b > 0
  {
    x / b
  }

  lemma {:induction false} WithinBlock(x: nat, b: nat)
    requires b > 0
    ensures BlockStart(BlockOf(x, b), b) + x % b == x
    decreases x
  {
    if x < b {
      ModUnique(x, b, 0, x);
    } else {
      DivDrop(x, b);
      WithinBlock(x - b, b);
    }
  }

  lemma {:induction false} BaseKeepsSkip(pos: nat, base: nat, b: nat)
    requires WholeBlocks(base, b)
    ensures (pos + base) % b == pos % b
    decreases base
  {
    if base > 0 {
      BaseKeepsSkip(pos, base - b, b);
      DivDrop(pos + base, b);
    }
  }

  lemma BlockFits(lba: nat, b: nat)
    requires BlockStart(lba, b) < LBA_LIMIT * b
    ensures lba < LBA_LIMIT
  {
    BlockStartIsProduct(lba, b);
    MulStep(b, LBA_LIMIT - 1, lba);
  }

  lemma SkipIsRemainder(pos: nat, base: nat, b: nat)
    requires IsPowerOfTwo(b) && WholeBlocks(base, b)
    ensures And(pos, b - 1) == (pos + base) % b
  {
    MaskIsMod(pos, b);
    BaseKeepsSkip(pos, base, b);
  }

  lemma RemainderBound(x: nat, b: nat)
    requires b > 0
    ensures 0 <= x % b < b
  {
  }

  /** The skip bytes and the block number of a position make up that position. */
  lemma SkipAndBlock(pos: nat, base: nat, b: nat)
    requires IsPowerOfTwo(b) && WholeBlocks(base, b)
    ensures And(pos, b - 1) < b && BlockStart(BlockOf(pos + base, b), b) + And(pos, b - 1) == pos + base
  {
    SkipIsRemainder(pos, base, b);
    RemainderBound(pos + base, b);
    WithinBlock(pos + base, b);
  }

  lemma {:induction false} WholeArea(lba: nat, request: nat, b: nat)
    requires WholeBlocks(request, b)
    ensures WholeBlocks(BlockStart(lba, b) + request, b)
  {
    if lba > 0 { WholeArea(lba - 1, request, b); }
  }

  /** A request that ends less than a block behind the last byte wanted lies in a device of whole blocks, if that
      byte does. */
  lemma AreaInside(lba: nat, request: nat, b: nat, wanted: nat, total: nat)
    requires WholeBlocks(request, b) && WholeBlocks(total, b) && request < wanted + b
    requires BlockStart(lba, b) + wanted <= total
    ensures BlockStart(lba, b) + request <= total
  {
    WholeArea(lba, request, b);
    MultiplesApart(BlockStart(lba, b) + request, total, b);
  }

  /** `x & ~(b - 1)`: the greatest multiple of `b` that is at most `x`. */
  function RoundDown(x: nat, b: nat): (r: nat)
    requires IsPowerOfTwo(b) && b < U64 && x < U64
    ensures r <= x < r + b && WholeBlocks(r, b)
  {
    Pow2Of64();
    ClearIsRoundDown(64, x, b);
    RoundDownMultiple(x, b);
    WholeBlocksIsMod(x - x % b, b);
    And(x, Not(64, b - 1))
  }

  lemma RoundDownMultiple(x: nat, b: nat)
    requires b > 0
    ensures (x - x % b) % b == 0
  {
    assert x == b * (x / b) + x % b;
    ModUnique(x - x % b, b, x / b, 0);
  }

  /** No multiple of `b` lies strictly between a multiple and the next. */
  lemma MultiplesApart(m: nat, n: nat, b: nat)
    requires WholeBlocks(m, b) && WholeBlocks(n, b) && m < n + b
    ensures m <= n
  {
    WholeBlocksIsMod(m, b);
    WholeBlocksIsMod(n, b);
    assert m == b * (m / b) && n == b * (n / b);
    MulStep(b, n / b, m / b);
  }

  // ----- One iteration of the write loop, on sequences -----

  /** The bounce buffer holds old bytes, then user bytes, then old bytes again: committing a prefix
      of it longer than `skip` changes user bytes only. */
  lemma CommitBounce(dev: seq<byte>, at: nat, skip: nat, bounce: seq<byte>, user: seq<byte>, n: nat)
    requires skip < n <= |bounce| && at + n <= |dev|
    requires bounce[..skip] == dev[at..at + skip]
    requires forall i :: 0 <= i < |user| && skip + i < |bounce| ==> bounce[skip + i] == user[i]
    requires forall i :: skip + |user| <= i < n ==> bounce[i] == dev[at + i]
    ensures var m := if n - skip < |user| then n - skip else |user|;
            Splice(dev, at, bounce[..n]) == Splice(dev, at + skip, user[..m])
  {
    var m := if n - skip < |user| then n - skip else |user|;
    var l, r := Splice(dev, at, bounce[..n]), Splice(dev, at + skip, user[..m]);
    forall i | 0 <= i < |dev|
      ensures l[i] == r[i]
    {
      if at <= i < at + skip {
        assert bounce[..skip][i - at] == dev[at..at + skip][i - at];
      }
    }
  }

  /** A write of only the skip bytes, which were read before, changes nothing. */
  lemma CommitSkipOnly(dev: seq<byte>, at: nat, bounce: seq<byte>, n: nat)
    requires n <= |bounce| && at + n <= |dev|
    requires bounce[..n] == dev[at..at + n]
    ensures Splice(dev, at, bounce[..n]) == dev
  {
  }

  /** Committing the next bytes extends what has been committed. */
  lemma CommitMore(before: seq<byte>, mid: seq<byte>, after: seq<byte>,
                   at: nat, data: seq<byte>, k: nat, m: nat)
    requires m > 0 && Committed(before, mid, at, data, k)
    requires Committed(mid, after, at + k, data[k..], m)
    ensures Committed(before, after, at, data, k + m)
  {
    assert data[..k] + data[k..][..m] == data[..k + m];
    if k > 0 { SpliceAppend(before, at, data[..k], data[k..][..m]); }
  }

  lemma FetchedPart(content: seq<byte>, at: nat, data: seq<byte>, n: nat, skip: nat, m: nat)
    requires Fetched(content, at, data, n) && skip + m <= n && n > 0
    ensures data[skip..skip + m] == content[at + skip..at + skip + m]
  {
    assert data[skip..skip + m] == data[..n][skip..skip + m];
    SubSlice(content, at, at + n, skip, skip + m);
  }

  lemma FetchedLess(content: seq<byte>, at: nat, data: seq<byte>, n: nat, m: nat)
    requires Fetched(content, at, data, n) && m <= n
    ensures Fetched(content, at, data, m)
  {
    if m > 0 { FetchedPart(content, at, data, n, 0, m); }
  }

  /** Appending the useful part of the bounce buffer extends what has been read. */
  lemma FetchMore(content: seq<byte>, start: nat, dst: seq<byte>, count: nat,
                  bounce: seq<byte>, at: nat, n: nat, skip: nat, m: nat)
    requires Fetched(content, start, dst, count) && Fetched(content, at, bounce, n)
    requires at + skip == start + count && 0 < m && skip + m <= n && count + m <= |dst|
    ensures Fetched(content, start, Splice(dst, count, bounce[skip..skip + m]), count + m)
    ensures Splice(dst, count, bounce[skip..skip + m])[count + m..] == dst[count + m..]
  {
    FetchedPart(content, at, bounce, n, skip, m);
    var dst' := Splice(dst, count, bounce[skip..skip + m]);
    assert dst'[..count + m] == dst[..count] + bounce[skip..skip + m];
    assert content[start..start + count + m] ==
           content[start..start + count] + content[start + count..start + count + m];
  }

  /** A commit that stops inside the skip bytes, which were fetched before, changes nothing. */
  lemma ShortCommit(dev: seq<byte>, dev': seq<byte>, at: nat, fetched: seq<byte>, skip: nat,
                    user: seq<byte>, request: nat, n: nat)
    requires skip + |user| <= request <= |fetched| && n <= skip
    requires skip > 0 ==> Fetched(dev, at, fetched, request)
    requires Committed(dev, dev', at, Splice(fetched, skip, user), n)
    ensures dev' == dev
  {
    if n > 0 {
      FetchedPart(dev, at, fetched, request, 0, n);
      assert Splice(fetched, skip, user)[..n] == fetched[..n];
      CommitSkipOnly(dev, at, Splice(fetched, skip, user), n);
    }
  }

  /** One round of the write loop: the bounce buffer, filled by the driver where bytes have to be
      preserved and overwritten with the next `m` user bytes, is committed up to `n`. */
  lemma LongCommit(dev: seq<byte>, dev': seq<byte>, at: nat, fetched: seq<byte>, skip: nat,
                   data: seq<byte>, m: nat, request: nat, n: nat)
    requires m <= |data| && skip + m <= request <= |fetched| && skip < n <= request
    requires skip > 0 || skip + m < request ==> Fetched(dev, at, fetched, request)
    requires Committed(dev, dev', at, Splice(fetched, skip, data[..m]), n)
    ensures Committed(dev, dev', at + skip, data, if n - skip < m then n - skip else m)
  {
    var user := data[..m];
    var bounce := Splice(fetched, skip, user);
    if skip > 0 || skip + m < request {
      FetchedPart(dev, at, fetched, request, 0, skip);
      assert bounce[..skip] == fetched[0..skip];
      FetchedPart(dev, at, fetched, request, skip + m, request - skip - m);
      var tail := fetched[skip + m..skip + m + (request - skip - m)];
      forall i | skip + m <= i < n
        ensures bounce[i] == dev[at + i]
      {
        assert bounce[i] == fetched[i] == tail[i - skip - m];
      }
    }
    CommitBounce(dev, at, skip, bounce, user, n);
    var k := if n - skip < m then n - skip else m;
    assert user[..k] == data[..k];
  }

  /** Either kind of commit, with the user bytes taken from `all` at `count`. */
  lemma CommitRound(dev: seq<byte>, dev': seq<byte>, at: nat, fetched: seq<byte>, skip: nat,
                    all: seq<byte>, count: nat, m: nat, request: nat, n: nat)
    requires count + m <= |all| && skip + m <= request <= |fetched| && n <= request
    requires skip > 0 || skip + m < request ==> Fetched(dev, at, fetched, request)
    requires Committed(dev, dev', at, Splice(fetched, skip, all[count..count + m]), n)
    ensures Committed(dev, dev', at + skip, all[count..],
                      if n <= skip then 0 else if n - skip < m then n - skip else m)
  {
    assert all[count..count + m] == all[count..][..m];
    if n <= skip {
      ShortCommit(dev, dev', at, fetched, skip, all[count..count + m], request, n);
    } else {
      LongCommit(dev, dev', at, fetched, skip, all[count..], m, request, n);
    }
  }

  // ----- The open file -----

  /** `memcpy` between two buffers that do not overlap. */
  method CopyBytes(dst: array<byte>, dstAt: nat, src: array<byte>, srcAt: nat, n: nat)
    requires dst != src && dstAt + n <= dst.Length && srcAt + n <= src.Length
    modifies dst
    ensures dst[..] == Splice(old(dst[..]), dstAt, src[..][srcAt..srcAt + n])
  {
    forall i | dstAt <= i < dstAt + n { dst[i] := src[srcAt + (i - dstAt)]; }
    ghost var s := Splice(old(dst[..]), dstAt, src[..][srcAt..srcAt + n]);
    assert forall i :: 0 <= i < dst.Length ==> dst[i] == s[i];
  }

  /** Sequences that agree from `from` on agree from any later place on. */
  lemma ShorterTail(a: seq<byte>, b: seq<byte>, from: nat, n: nat)
    requires |a| == |b| && from + n <= |a| && a[from..] == b[from..]
    ensures a[from + n..] == b[from + n..]
  {
    assert a[from..][n..] == a[from + n..];
    assert b[from..][n..] == b[from + n..];
  }

  /** The destination `dst` holds the next `count` bytes of the device, and behind them what it held before. */
  ghost predicate Delivered(dev: seq<byte>, start: nat, dst: seq<byte>, before: seq<byte>, count: nat) {
    Fetched(dev, start, dst, count) && count <= |dst| == |before| && dst[count..] == before[count..]
  }

  lemma DeliveredMore(dev: seq<byte>, start: nat, dst: seq<byte>, prev: seq<byte>, before: seq<byte>,
                      count: nat, n: nat)
    requires Delivered(dev, start, prev, before, count) && count + n <= |dst| == |prev|
    requires Fetched(dev, start, dst, count + n) && dst[count + n..] == prev[count + n..]
    ensures Delivered(dev, start, dst, before, count + n)
  {
    ShorterTail(prev, before, count, n);
  }

  /** How many of the `left` user bytes a transfer of `n` bytes takes care of. */
  function Taken(n: nat, skip: nat, left: nat): nat { if n <= skip then 0 else Min(n - skip, left) }

  /** Whole blocks that do not get past the skip bytes are none. */
  lemma NotOneBlock(x: nat, b: nat, skip: nat)
    requires WholeBlocks(x, b) && x <= skip < b
    ensures x == 0
  {
  }

  /** `block_dev_state_t` with its device specification. */
  class BlockFile {
    const driver: Driver
    const buffer: array<byte>
    const blockSize: nat
    var base: nat
    var filePos: nat
    var size: nat

    /** The set-up facts asserted by block_dev_open and block_open, and addresses small enough for
        `int lba` and `size_t`. */
    ghost predicate Valid()
      reads this, driver
    {
      && IsPowerOfTwo(blockSize)
      && driver.blockSize == blockSize
      && WholeBlocks(buffer.Length, blockSize)
      && WholeBlocks(base, blockSize)
      && buffer.Length < ADDRESS_LIMIT
      && Limit() <= ADDRESS_LIMIT
      && base + size <= Limit()
      && base + filePos < Limit()
      && |driver.content| < Limit()
    }

    /** Block numbers fit a non-negative `int`. */
    ghost function Limit(): nat { LBA_LIMIT * blockSize }

    /** Where in the device the next byte lies. */
    ghost function Position(): nat reads this { base + filePos }

    constructor (driver: Driver, buffer: array<byte>)
      requires IsPowerOfTwo(driver.blockSize) && buffer.Length % driver.blockSize == 0
      requires buffer.Length < ADDRESS_LIMIT && LBA_LIMIT * driver.blockSize <= ADDRESS_LIMIT
      requires |driver.content| < LBA_LIMIT * driver.blockSize
      ensures Valid() && this.driver == driver && this.buffer == buffer
      ensures base == 0 && filePos == 0 && size == 0
    {
      this.driver, this.buffer, this.blockSize := driver, buffer, driver.blockSize;
      base, filePos, size := 0, 0, 0;
      WholeBlocksIsMod(buffer.Length, driver.blockSize);
    }

    /** block_open: select a region of whole blocks. */
    method Open(offset: nat, length: nat)
      requires Valid()
      requires offset % blockSize == 0 && length % blockSize == 0
      requires offset + length <= Limit() && offset < Limit()
      modifies this
      ensures Valid() && base == offset && size == length && filePos == 0
    {
      base, size, filePos := offset, length, 0;
      WholeBlocksIsMod(offset, blockSize);
    }

    /** block_seek.  The source asserts the offset and the new position to be inside the region. */
    method Seek(mode: SeekMode, offset: nat) returns (status: Status)
      requires Valid() && offset < size
      requires mode == SeekCur ==> filePos + offset < size
      modifies this`filePos
      ensures Valid()
      ensures mode == SeekSet ==> status == Ok && filePos == offset
      ensures mode == SeekCur ==> status == Ok && filePos == old(filePos) + offset
      ensures mode == OtherMode ==> status == InvalidMode && filePos == old(filePos)
    {
      match mode {
        case SeekSet => filePos := offset;
        case SeekCur => filePos := filePos + offset;
        case OtherMode => return InvalidMode;
      }
      status := Ok;
    }

    /** Transfers of the next `left` bytes get on, however short they are cut: the driver moves at least a block, there
        is a buffer, and the bytes lie in a device of whole blocks. */
    ghost predicate Sure(left: nat)
      reads this, driver
    {
      && driver.least >= blockSize && buffer.Length > 0
      && WholeBlocks(|driver.content|, blockSize) && Position() + left <= |driver.content|
    }

    /** The bytes between the start of the block and the position. */
    ghost function Skip(): nat
      requires blockSize > 0
      reads this
    {
      And(filePos, blockSize - 1)
    }

    /** The last transfer was a read that did not get past the skip bytes, */
    ghost predicate ReadStuck()
      requires blockSize > 0
      reads this, driver
    {
      driver.last.ReadOf? && driver.last.n <= Skip()
    }

    /** or, of a write, it was a fetch of less than a block or a commit that did not get past them. */
    ghost predicate WriteStuck()
      requires blockSize > 0
      reads this, driver
    {
      match driver.last
      case NoTransfer => false
      case ReadOf(n) => n < blockSize
      case WriteOf(n) => n <= Skip()
    }

    /** The first block and the byte count to ask the driver for; `left` bytes are still to do. */
    method PlanRequest(left: nat) returns (skip: nat, lba: nat, request: nat)
      requires Valid() && 0 < left <= size
      ensures skip == Skip() && BlockStart(lba, blockSize) + skip == Position() && lba < LBA_LIMIT
      ensures request <= buffer.Length && WholeBlocks(request, blockSize)
      ensures request < skip + left ==> request == buffer.Length
      ensures request < skip + left + blockSize
      ensures buffer.Length > 0 ==> skip < request
      ensures skip < blockSize
    {
      SkipAndBlock(filePos, base, blockSize);
      skip := And(filePos, blockSize - 1);
      lba := BlockOf(filePos + base, blockSize);
      BlockFits(lba, blockSize);
      if skip + left > buffer.Length {
        request := buffer.Length;
      } else {
        request := skip + left;
        request := RoundDown(request + (blockSize - 1), blockSize);
        MultiplesApart(request, buffer.Length, blockSize);
      }
    }

    /** block_read.  With `k` the number of bytes the file position moved, exactly the next `k` bytes
        of the device are at the start of the destination and nothing else in it changed; the call
        succeeds when `k` is the whole length, and reports an I/O error only when a driver read does not get past the
        skip bytes. */
    method Read(dst: array<byte>, length: nat) returns (status: Status, lengthRead: nat)
      requires Valid() && dst != buffer && length <= dst.Length
      requires 0 < length <= size
      modifies this`filePos, buffer, dst, driver`last
      ensures Valid()
      ensures old(filePos) <= filePos <= old(filePos) + length
      ensures Fetched(driver.content, old(Position()), dst[..], filePos - old(filePos))
      ensures dst[filePos - old(filePos)..] == old(dst[..])[filePos - old(filePos)..]
      ensures status == if filePos == old(filePos) + length then Ok else IoError
      ensures status == Ok ==> lengthRead == length
      ensures status == IoError ==> ReadStuck()
      ensures old(Sure(length)) ==> status == Ok
    {
      var left, count := length, 0;
      lengthRead := 0;
      ghost var start := Position();
      while left > 0
        invariant Valid() && count + left == length && 0 <= left
        invariant filePos == old(filePos) + count
        invariant old(Sure(length)) ==> Sure(left)
        invariant Delivered(driver.content, start, dst[..], old(dst[..]), count)
      {
        ghost var prev := dst[..];
        var nbytes := ReadBlocks(dst, count, left, start);
        DeliveredMore(driver.content, start, dst[..], prev, old(dst[..]), count, nbytes);
        if nbytes == 0 {
          return IoError, 0;
        }
        filePos := filePos + nbytes;
        count := count + nbytes;
        left := left - nbytes;
      }
      return Ok, count;
    }

    /** The body of the read loop: one driver request through the bounce buffer.  Zero stands for the
        -EIO exit. */
    method ReadBlocks(dst: array<byte>, count: nat, left: nat, ghost start: nat) returns (nbytes: nat)
      requires Valid() && dst != buffer && count + left <= dst.Length
      requires 0 < left <= size
      requires Position() == start + count && Fetched(driver.content, start, dst[..], count)
      modifies buffer, dst, driver`last
      ensures nbytes <= left && (Sure(left) ==> nbytes > 0) && (nbytes == 0 ==> ReadStuck())
      ensures Fetched(driver.content, start, dst[..], count + nbytes)
      ensures dst[count + nbytes..] == old(dst[..])[count + nbytes..]
    {
      var skip, lba, request := PlanRequest(left);
      if Sure(left) { AreaInside(lba, request, blockSize, skip + left, |driver.content|); }
      nbytes := FetchBlocks(dst, count, left, start, skip, lba, request);
    }

    /** The second half of it: the driver fills the buffer, and what lies behind the skip bytes goes to the user. */
    method FetchBlocks(dst: array<byte>, count: nat, left: nat, ghost start: nat, skip: nat, lba: nat, asked: nat)
      returns (nbytes: nat)
      requires driver.blockSize == blockSize && dst != buffer && count + left <= dst.Length && asked <= buffer.Length
      requires 0 < left && BlockStart(lba, blockSize) + skip == start + count
      requires Fetched(driver.content, start, dst[..], count)
      modifies buffer, dst, driver`last
      ensures driver.last.ReadOf? && nbytes == Taken(driver.last.n, skip, left)
      ensures driver.Inside(lba, asked) ==> driver.last.n >= Min(asked, driver.least)
      ensures Fetched(driver.content, start, dst[..], count + nbytes)
      ensures dst[count + nbytes..] == old(dst[..])[count + nbytes..]
    {
      var request := driver.Read(lba, buffer, asked);
      if request <= skip {
        return 0;
      }
      nbytes := request - skip;
      var padding := if nbytes > left then nbytes - left else 0;
      nbytes := nbytes - padding;
      FetchMore(driver.content, start, dst[..], count,
                buffer[..], BlockStart(lba, blockSize), request, skip, nbytes);
      CopyBytes(dst, count, buffer, skip, nbytes);
    }

    /** block_write.  With `k` the number of bytes the file position moved, the device is the old one
        with exactly `k` bytes replaced by the first `k` user bytes; skip and padding bytes keep their
        values.  The call succeeds when `k` is the whole length, and reports an I/O error only when a fetch yields less
        than a block or a commit does not get past the skip bytes. */
    method Write(src: array<byte>, length: nat) returns (status: Status, lengthWritten: nat)
      requires Valid() && src != buffer && length <= src.Length
      requires 0 < length <= size
      modifies this`filePos, buffer, driver`content, driver`last
      ensures Valid()
      ensures old(filePos) <= filePos <= old(filePos) + length
      ensures WriteEnds(old(driver.content), driver.content, old(Position()), src[..], length, filePos - old(filePos))
      ensures status == if filePos == old(filePos) + length then Ok else IoError
      ensures status == Ok ==> lengthWritten == length
      ensures status == IoError ==> WriteStuck()
      ensures old(Sure(length)) ==> status == Ok
    {
      var left, count := length, 0;
      lengthWritten := 0;
      ghost var start := Position();
      while left > 0
        invariant Valid() && count + left == length && 0 <= left
        invariant filePos == old(filePos) + count
        invariant old(Sure(length)) ==> Sure(left)
        invariant Committed(old(driver.content), driver.content, start, src[..], count)
      {
        ghost var dev := driver.content;
        var nbytes := WriteBlocks(src, count, left);
        if nbytes == 0 {
          return IoError, 0;
        }
        CommitMore(old(driver.content), dev, driver.content, start, src[..], count, nbytes);
        filePos := filePos + nbytes;
        count := count + nbytes;
        left := left - nbytes;
      }
      return Ok, count;
    }

    /** Works out how many user bytes the request takes and, when bytes around them have to be kept,
        fetches whole blocks first.  Not ok if that fetch was too short. */
    method PrepareBounce(skip: nat, lba: nat, asked: nat, left: nat)
      returns (ok: bool, request: nat, nbytes: nat)
      requires Valid() && 0 < left <= size && skip < blockSize
      requires asked <= buffer.Length && (buffer.Length > 0 ==> skip < asked)
      modifies buffer, driver`last
      ensures request <= asked
      ensures ok ==> skip <= request && nbytes == if request - skip > left then left else request - skip
      ensures ok && (skip > 0 || skip + nbytes < request) ==>
                Fetched(driver.content, BlockStart(lba, blockSize), buffer[..], request)
      ensures ok && WholeBlocks(asked, blockSize) ==> WholeBlocks(request, blockSize)
      ensures ok && buffer.Length > 0 ==> skip < request
      ensures !ok ==> driver.last.ReadOf? && driver.last.n < blockSize
      ensures !ok && driver.Inside(lba, asked) ==> driver.last.n >= Min(asked, driver.least)
    {
      ok, request := true, asked;
      nbytes := Minus64(request, skip);
      var padding := if nbytes > left then nbytes - left else 0;
      nbytes := nbytes - padding;
      if skip > 0 || padding > 0 {
        request := driver.Read(lba, buffer, request);
        ghost var n := request;
        request := RoundDown(request, blockSize);
        if request <= skip {
          NotOneBlock(request, blockSize, skip);
          return false, 0, 0;
        }
        nbytes := request - skip;
        padding := if nbytes > left then nbytes - left else 0;
        nbytes := nbytes - padding;
        FetchedLess(driver.content, BlockStart(lba, blockSize), buffer[..], n, request);
      }
    }

    /** The body of the write loop: one read-modify-write round through the bounce buffer.  Zero stands
        for the -EIO exits, which leave the device as it was. */
    method WriteBlocks(src: array<byte>, count: nat, left: nat) returns (nbytes: nat)
      requires Valid() && src != buffer && count + left <= src.Length
      requires 0 < left <= size
      modifies buffer, driver`content, driver`last
      ensures nbytes <= left && (old(Sure(left)) ==> nbytes > 0) && (nbytes == 0 ==> WriteStuck())
      ensures Committed(old(driver.content), driver.content, Position(), src[..][count..], nbytes)
    {
      var skip, lba, request := PlanRequest(left);
      if Sure(left) { AreaInside(lba, request, blockSize, skip + left, |driver.content|); }
      var ok;
      ok, request, nbytes := PrepareBounce(skip, lba, request, left);
      if !ok {
        return 0;
      }
      nbytes := CommitBlocks(src, count, left, skip, lba, request, nbytes);
    }

    /** The second half of it: `room` user bytes go behind the skip bytes of the prepared buffer, and the buffer to
        the device. */
    method CommitBlocks(src: array<byte>, count: nat, left: nat, skip: nat, lba: nat, asked: nat, room: nat)
      returns (nbytes: nat)
      requires driver.blockSize == blockSize && src != buffer && count + left <= src.Length
      requires skip <= asked <= buffer.Length && room == if asked - skip > left then left else asked - skip
      requires skip > 0 || skip + room < asked ==>
                 Fetched(driver.content, BlockStart(lba, blockSize), buffer[..], asked)
      modifies buffer, driver`content, driver`last
      ensures driver.last.WriteOf? && nbytes == Taken(driver.last.n, skip, left)
      ensures old(driver.Inside(lba, asked)) ==> driver.last.n >= Min(asked, driver.least)
      ensures Committed(old(driver.content), driver.content, BlockStart(lba, blockSize) + skip,
                        src[..][count..], nbytes)
    {
      ghost var fetched, all, dev := buffer[..], src[..], driver.content;
      CopyBytes(buffer, skip, src, count, room);
      var request := driver.Write(lba, buffer, asked);
      assert src[..] == all;
      CommitRound(dev, driver.content, BlockStart(lba, blockSize), fetched, skip, all, count, room, asked, request);
      if request <= skip {
        return 0;
      }
      nbytes := request - skip;
      var padding := if nbytes > left then nbytes - left else 0;
      nbytes := nbytes - padding;
    }
  }

  /** A successful write, a seek back and a successful read of the same length return what was written. */
  method WriteSeekRead(f: BlockFile, src: array<byte>, dst: array<byte>, length: nat) returns (ok: bool)
    requires f.Valid() && src != f.buffer && dst != f.buffer && src != dst
    requires length <= src.Length && length <= dst.Length && 0 < length <= f.size
    requires f.filePos < f.size
    modifies f`filePos, f.buffer, f.driver`content, f.driver`last, dst
    ensures f.Valid()
    ensures ok ==> dst[..length] == src[..length]
    ensures old(f.Sure(length)) ==> ok
  {
    var start := f.filePos;
    var ws, n := f.Write(src, length);
    if ws != Ok { return false; }
    ghost var content := f.driver.content;
    var ss := f.Seek(SeekSet, start);
    var rs, m := f.Read(dst, length);
    ok := rs == Ok;
    if ok {
      SpliceParts(old(f.driver.content), old(f.Position()), src[..length]);
      assert dst[..][..length] == dst[..length];
      assert src[..][..length] == src[..length];
    }
  }

  // ----- Writes across the end of the region -----

  /** Nothing behind `end` changed. */
  ghost predicate KeptFrom(before: seq<byte>, after: seq<byte>, end: nat) {
    |after| == |before| && forall i :: end <= i < |before| ==> after[i] == before[i]
  }

  /** A write of `length` bytes at `at` keeps what lies behind `end`, whatever the bytes and however much of them the
      driver takes. */
  ghost predicate AlwaysKeeps(before: seq<byte>, at: nat, length: nat, end: nat) {
    forall data: seq<byte>, after: seq<byte>, k: nat ::
      length <= |data| && WriteEnds(before, after, at, data, length, k) ==> KeptFrom(before, after, end)
  }

  lemma InsideKeeps(before: seq<byte>, after: seq<byte>, at: nat, data: seq<byte>, length: nat, k: nat, end: nat)
    requires WriteEnds(before, after, at, data, length, k) && at + length <= end
    ensures KeptFrom(before, after, end)
  {
  }

  lemma AcrossChanges(before: seq<byte>, after: seq<byte>, at: nat, data: seq<byte>, length: nat, end: nat)
    requires 0 < length && WriteEnds(before, after, at, data, length, length) && at + length > end
    requires data[length - 1] != before[at + length - 1]
    ensures !KeptFrom(before, after, end)
  {
    assert data[..length][length - 1] == data[length - 1];
    assert after[at + length - 1] == data[length - 1];
  }

  /** A request of `length` bytes at `at` can get beyond `end`: it does not end before, and there is something of the
      device both at `at` and behind `end`. */
  ghost predicate ReachesBeyond(total: nat, at: nat, length: nat, end: nat) {
    at + length > end && total > end && total > at
  }

  /** The source checks the length of a request against the size of the region, not its end.  What lies behind the
      region is safe from a request of `length` bytes at `pos`, under every behaviour of the driver and for all user
      bytes, exactly if the request ends inside the region or the device has nothing to reach. */
  lemma WriteStaysInRegion(before: seq<byte>, base: nat, size: nat, pos: nat, length: nat)
    requires 0 < length
    ensures AlwaysKeeps(before, base + pos, length, base + size) <==>
            !ReachesBeyond(|before|, base + pos, length, base + size)
  {
    var at, end := base + pos, base + size;
    if ReachesBeyond(|before|, at, length, end) {
      var k := Min(length, |before| - at);
      var last: byte := if before[at + k - 1] == 0 then 1 else 0;
      var data: seq<byte> := seq(length, _ => last);
      var after := Splice(before, at, data[..k]);
      assert WriteEnds(before, after, at, data, length, k);
      assert after[at + k - 1] == last;
    } else {
      forall data: seq<byte>, after: seq<byte>, k: nat |
        length <= |data| && WriteEnds(before, after, at, data, length, k)
        ensures KeptFrom(before, after, end)
      {
      }
    }
  }

  /** What a read of `length` bytes at `at` delivers is decided by what lies before `end`, however much of it the driver
      transfers: two devices that agree there give the same bytes. */
  ghost predicate ReadsOnlyBefore(content: seq<byte>, at: nat, length: nat, end: nat) {
    forall content': seq<byte>, data: seq<byte>, data': seq<byte>, k: nat |
      && |content'| == |content| && AgreeBefore(content, content', end) && k <= length
      && Fetched(content, at, data, k) && Fetched(content', at, data', k) ::
        data[..k] == data'[..k]
  }

  ghost predicate AgreeBefore(a: seq<byte>, b: seq<byte>, end: nat) {
    forall i :: 0 <= i < |a| && i < |b| && i < end ==> a[i] == b[i]
  }

  /** Likewise a read delivers nothing from behind the region exactly under the same condition. */
  lemma ReadStaysInRegion(content: seq<byte>, base: nat, size: nat, pos: nat, length: nat)
    requires 0 < length
    ensures ReadsOnlyBefore(content, base + pos, length, base + size) <==>
            !ReachesBeyond(|content|, base + pos, length, base + size)
  {
    var at, end := base + pos, base + size;
    if ReachesBeyond(|content|, at, length, end) {
      var k := Min(length, |content| - at);
      var x := at + k - 1;
      var other := content[x := if content[x] == 0 then 1 else 0];
      var data, data' := content[at..at + k], other[at..at + k];
      assert Fetched(content, at, data, k) && Fetched(other, at, data', k);
      assert AgreeBefore(content, other, end);
      assert data[..k][k - 1] != data'[..k][k - 1];
    } else {
      forall content': seq<byte>, data: seq<byte>, data': seq<byte>, k: nat |
        |content'| == |content| && AgreeBefore(content, content', end) && k <= length &&
        Fetched(content, at, data, k) && Fetched(content', at, data', k)
        ensures data[..k] == data'[..k]
      {
        if k > 0 { assert content[at..at + k] == content'[at..at + k]; }
      }
    }
  }

  /** The same of the call itself.  With a driver that gets on, if the last user byte is new, the call leaves
      what lies behind the region alone exactly if it ends inside. */
  method WriteNewByte(f: BlockFile, src: array<byte>, length: nat)
    requires f.Valid() && src != f.buffer && length <= src.Length && 0 < length <= f.size
    requires f.Sure(length) && src[length - 1] != f.driver.content[f.Position() + length - 1]
    modifies f`filePos, f.buffer, f.driver`content, f.driver`last
    ensures KeptFrom(old(f.driver.content), f.driver.content, f.base + f.size) <==> old(f.filePos) + length <= f.size
  {
    ghost var dev, at, data := f.driver.content, f.Position(), src[..];
    var status, n := f.Write(src, length);
    if at + length <= f.base + f.size {
      InsideKeeps(dev, f.driver.content, at, data, length, length, f.base + f.size);
    } else {
      AcrossChanges(dev, f.driver.content, at, data, length, f.base + f.size);
    }
  }

  /** Two bytes written at the last position of a region of two: the second one lands behind the region. */
  method WritePastEnd() returns (content: seq<byte>)
    ensures content == [0, 1, 1, 0]
  {
    var driver := new Driver(2, 2, [0, 0, 0, 0]);
    var buffer, src := new byte[2], new byte[2](_ => 1);
    var f := new BlockFile(driver, buffer);
    f.Open(0, 2);
    var seek := f.Seek(SeekSet, 1);
    WholeBlocksIsMod(4, 2);
    assert src[..] == [1, 1];
    var status, n := f.Write(src, 2);
    assert src[..][..2] == [1, 1];
    content := driver.content;
  }
}
