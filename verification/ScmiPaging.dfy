/** Paged answers of the SCMI server: clock rates (drivers/scmi-msg/clock.c) and the protocol list
    (drivers/scmi-msg/base.c), each against a client that asks page by page. */
module ScmiPaging {
  import opened Bits
  import opened Bytes
  import opened Common

  /** Rates that fit in one answer: 92 bytes of payload, less a header of 8, at 8 bytes each. */
  const MAX_RATES: nat := 10

  // ----- Rates as words -----

  /** Low word first, then the high word, rate by rate. */
  function Words(rates: seq<u64>): (w: seq<u32>)
    ensures |w| == 2 * |rates|
  {
    if rates == [] then []
    else
      var last := rates[|rates| - 1];
      Words(rates[..|rates| - 1]) + [last % U32, last / U32]
  }

  /** What a client makes of them. */
  function Rates(w: seq<u32>): seq<u64>
    decreases |w|
  {
    if |w| < 2 then [] else Rates(w[..|w| - 2]) + [w[|w| - 1] * U32 + w[|w| - 2]]
  }

  lemma {:induction false} WordsRoundTrip(rates: seq<u64>)
    ensures Rates(Words(rates)) == rates
  {
    if rates != [] {
      var init, last := rates[..|rates| - 1], rates[|rates| - 1];
      WordsRoundTrip(init);
      var w := Words(rates);
      assert w[..|w| - 2] == Words(init);
      assert last == (last / U32) * U32 + last % U32;
    }
  }

  /** write_rate_desc_array_in_buffer */
  method WriteRates(out: array<u32>, at: nat, rates: seq<u64>)
    requires at + 2 * |rates| <= out.Length
    modifies out
    ensures out[at..at + 2 * |rates|] == Words(rates)
    ensures out[..at] == old(out[..at]) && out[at + 2 * |rates|..] == old(out[at + 2 * |rates|..])
  {
    var n := 0;
    while n < |rates|
      invariant 0 <= n <= |rates|
      invariant out[at..at + 2 * n] == Words(rates[..n])
      invariant out[..at] == old(out[..at])
      invariant out[at + 2 * n..] == old(out[at + 2 * n..])
    {
      ghost var before, behind := out[at..at + 2 * n], out[at + 2 * n..];
      var low: u32, high: u32 := rates[n] % U32, rates[n] / U32;
      out[at + 2 * n] := low;
      out[at + 2 * n + 1] := high;
      assert out[at..at + 2 * n] == before;
      assert out[at..at + 2 * (n + 1)] == before + [low, high];
      assert rates[..n + 1][..n] == rates[..n];
      assert out[at + 2 * (n + 1)..] == behind[2..] == old(out[at + 2 * n..])[2..];
      n := n + 1;
    }
    assert rates[..n] == rates;
  }

  // ----- The packed counts -----

  /** The fields of `num_rates_flags`. */
  datatype Fields = Fields(count: nat, format: nat, remaining: nat)

  /** SCMI_CLOCK_DESCRIBE_RATES_NUM_RATES_FLAGS cuts each value to its field: 12 bits of count, one of format, 16 of
      remaining rates, */
  function Cut(count: nat, format: nat, remaining: nat): (f: Fields)
    ensures Fit(f)
  {
    Fields(count % 0x1000, format % 2, remaining % 0x1_0000)
  }

  predicate Fit(f: Fields) { f.count < 0x1000 && f.format < 2 && f.remaining < 0x1_0000 }

  /** and puts them at bits 0, 12 and 16 of the word. */
  function Wire(f: Fields): nat { f.count + f.format * 0x1000 + f.remaining * 0x1_0000 }

  /** What a client reads from the word. */
  function Unwire(w: nat): Fields { Fields(w % 0x1000, w / 0x1000 % 2, w / 0x1_0000) }

  lemma WireRoundTrip(f: Fields)
    requires Fit(f)
    ensures Wire(f) < U32 && Unwire(Wire(f)) == f
  {
    ModUnique(Wire(f), 0x1000, f.format + 16 * f.remaining, f.count);
    ModUnique(f.format + 16 * f.remaining, 2, 8 * f.remaining, f.format);
    ModUnique(Wire(f), 0x1_0000, f.remaining, f.count + f.format * 0x1000);
  }

  // ----- CLOCK_DESCRIBE_RATES -----

  /** A successful answer; the fields travel as one word. */
  datatype Page = Page(fields: Fields, words: seq<u32>)

  /** How many rates an answer from `index` on holds. */
  function PageSize(rates: seq<u64>, index: nat): nat
    requires index <= |rates|
  {
    Min(|rates| - index, MAX_RATES)
  }

  /** A page of the list: the next rates, as many as fit, and how many are left. */
  function DescribeRates(rates: seq<u64>, index: nat): Page
    requires index <= |rates|
  {
    var n := PageSize(rates, index);
    Page(Cut(n, 0, |rates| - index - n), Words(rates[index..index + n]))
  }

  const SUCCESS: int := 0
  const INVALID_PARAMETERS: int := -2
  const PROTOCOL_ERROR: int := -10

  /** What the platform says of a clock: the number of its rates, then the rates and the status of the read that
      follows; a triplet of lowest, highest and step with a status of its own; or an error. */
  datatype Clock =
    | RateList(total: nat, answer: seq<u64>, status: int)
    | RateRange(lowest: u64, highest: u64, step: u64, status: int)
    | NoRates(status: int)

  datatype Reply = StatusOnly(status: int) | Full(page: Page)

  /** How many rates the platform is asked for and how many are left behind them, in `size_t`: an index beyond the
      list wraps around. */
  function Asked(total: nat, index: nat): nat
    requires total < U64 && index < U64
  {
    Min(Minus64(total, index), MAX_RATES)
  }

  function Left(total: nat, index: nat): nat
    requires total < U64 && index < U64
  {
    Minus64(Minus64(total, index), Asked(total, index))
  }

  /** The platform fills no more rates than it is asked for; it may fill fewer. */
  predicate Answers(clock: Clock, index: nat) {
    && index < U32 && -0x8000_0000 <= clock.status < 0x8000_0000
    && (clock.RateList? ==> clock.total < U64 && |clock.answer| <= Asked(clock.total, index))
  }

  /** scmi_clock_describe_rates: which answer a request gets. */
  function AnswerRates(inSize: nat, clockId: nat, clockCount: nat, clock: Clock, index: nat): Reply
    requires Answers(clock, index)
  {
    if inSize != 8 then StatusOnly(PROTOCOL_ERROR)
    else if clockId >= clockCount then StatusOnly(INVALID_PARAMETERS)
    else match clock
         case RateList(total, answer, status) =>
           if status == SUCCESS then Full(Page(Cut(|answer|, 0, Left(total, index)), Words(answer)))
           else StatusOnly(status)
         case RateRange(lo, hi, step, status) =>
           if status == SUCCESS then Full(Page(Cut(3, 1, 0), Words([lo, hi, step]))) else StatusOnly(status)
         case NoRates(status) => StatusOnly(status)
  }

  function AsWord(status: int): u32
    requires -0x8000_0000 <= status < 0x8000_0000
  {
    if status >= 0 then status else status + U32
  }

  /** The answer as it lies in the output buffer: status, packed fields, rates. */
  ghost predicate Written(r: Reply, out: seq<u32>, outSize: nat) {
    match r
    case StatusOnly(status) =>
      |out| >= 1 && -0x8000_0000 <= status < 0x8000_0000 && out[0] == AsWord(status) && outSize == 4
    case Full(page) =>
      && |out| >= 2 + |page.words| && outSize == 8 + 4 * |page.words|
      && out[0] == SUCCESS && out[1] == Wire(page.fields) && out[2..2 + |page.words|] == page.words
  }

  /** The size of an answer in bytes. */
  function ReplySize(r: Reply): nat {
    match r
    case StatusOnly(_) => 4
    case Full(page) => 8 + 4 * |page.words|
  }

  /** The handler does not compare its answer with the size of the output buffer.  The answer fits, for all requests and
      all answers of the platform, exactly if the longest one does: a header and ten rates. */
  lemma RatesInside(outSize: nat)
    ensures (forall inSize: nat, clockId: nat, clockCount: nat, clock: Clock, index: nat | Answers(clock, index) ::
               ReplySize(AnswerRates(inSize, clockId, clockCount, clock, index)) <= outSize) <==>
            8 + 8 * MAX_RATES <= outSize
  {
    if 8 + 8 * MAX_RATES > outSize {
      var rates: seq<u64> := seq(MAX_RATES, _ => 0);
      var clock := RateList(MAX_RATES, rates, SUCCESS);
      assert Answers(clock, 0);
      assert ReplySize(AnswerRates(8, 0, 1, clock, 0)) == 8 + 8 * MAX_RATES;
    }
  }

  /** The handler, on shared memory from the output buffer on: the rates are written behind the header first, then the
      header. */
  method HandleDescribeRates(inSize: nat, clockId: nat, clockCount: nat, clock: Clock, index: nat, out: array<u32>)
    returns (outSize: nat)
    requires out.Length >= 2 + 2 * MAX_RATES && Answers(clock, index)
    modifies out
    ensures Written(AnswerRates(inSize, clockId, clockCount, clock, index), out[..], outSize)
  {
    if inSize != 8 { outSize := RespondStatus(out, PROTOCOL_ERROR); return; }
    if clockId >= clockCount { outSize := RespondStatus(out, INVALID_PARAMETERS); return; }
    match clock {
      case RateList(total, answer, status) =>
        if status != SUCCESS { outSize := RespondStatus(out, status); return; }
        outSize := RespondRates(out, answer, Cut(|answer|, 0, Left(total, index)));
      case RateRange(lo, hi, step, status) =>
        if status != SUCCESS { outSize := RespondStatus(out, status); return; }
        outSize := RespondRates(out, [lo, hi, step], Cut(3, 1, 0));
      case NoRates(status) =>
        outSize := RespondStatus(out, status);
    }
  }

  /** scmi_status_response */
  method RespondStatus(out: array<u32>, status: int) returns (outSize: nat)
    requires out.Length >= 1 && -0x8000_0000 <= status < 0x8000_0000
    modifies out
    ensures Written(StatusOnly(status), out[..], outSize)
  {
    out[0] := AsWord(status);
    outSize := 4;
  }

  method RespondRates(out: array<u32>, rates: seq<u64>, fields: Fields) returns (outSize: nat)
    requires out.Length >= 2 + 2 * |rates| && Fit(fields)
    modifies out
    ensures Written(Full(Page(fields, Words(rates))), out[..], outSize)
  {
    WriteRates(out, 2, rates);
    ghost var words := out[2..2 + 2 * |rates|];
    WireRoundTrip(fields);
    out[1] := Wire(fields);
    out[0] := SUCCESS;
    outSize := 8 + 8 * |rates|;
    assert out[2..2 + 2 * |rates|] == words;
    assert out[..][2..2 + 2 * |rates|] == words;
  }

  /** A platform that fills in its rates, asked within the list, gets a page of the list. */
  lemma HonestAnswer(clockId: nat, clockCount: nat, rates: seq<u64>, index: nat)
    requires clockId < clockCount && index <= |rates| < U64 && index < U32
    ensures var clock := RateList(|rates|, rates[index..index + PageSize(rates, index)], SUCCESS);
            && Answers(clock, index)
            && AnswerRates(8, clockId, clockCount, clock, index) == Full(DescribeRates(rates, index))
  {
  }

  /** What a client makes of an answer: the status, and if that is a success the fields and the rates. */
  datatype Decoded = Refused(status: int) | Described(fields: Fields, rates: seq<u64>)

  function Decode(r: Reply): Decoded {
    match r
    case StatusOnly(status) => Refused(status)
    case Full(page) => Described(page.fields, Rates(page.words))
  }

  /** The same from the words in shared memory; the size tells the two kinds of answers apart. */
  function DecodeWords(out: seq<u32>, outSize: nat): Decoded
    requires |out| >= 2
  {
    if outSize < 8 then Refused(if out[0] < 0x8000_0000 then out[0] else out[0] - U32)
    else Described(Unwire(out[1]), Rates(out[2..Min(outSize / 4, |out|)]))
  }

  lemma WordsDecoded(r: Reply, out: seq<u32>, outSize: nat)
    requires |out| >= 2 && Written(r, out, outSize) && (r.Full? ==> Fit(r.page.fields))
    ensures DecodeWords(out, outSize) == Decode(r)
  {
    if r.Full? { WireRoundTrip(r.page.fields); }
  }

  /** What a client is to learn: of a list, how many rates there are, the rates, and how many are left; of a range, a
      triplet of lowest, highest and step in the range format; otherwise why not. */
  function Learned(inSize: nat, clockId: nat, clockCount: nat, clock: Clock, index: nat): Decoded
    requires Answers(clock, index)
  {
    if inSize != 8 then Refused(PROTOCOL_ERROR)
    else if clockId >= clockCount then Refused(INVALID_PARAMETERS)
    else if clock.status != SUCCESS || clock.NoRates? then Refused(clock.status)
    else if clock.RateList? then Described(Fields(|clock.answer|, 0, Shown(Left(clock.total, index))), clock.answer)
    else Described(Fields(3, 1, 0), [clock.lowest, clock.highest, clock.step])
  }

  /** Every answer, read back by a client from the words in shared memory. */
  lemma ClientLearns(inSize: nat, clockId: nat, clockCount: nat, clock: Clock, index: nat, out: seq<u32>, outSize: nat)
    requires Answers(clock, index) && |out| >= 2
    requires Written(AnswerRates(inSize, clockId, clockCount, clock, index), out, outSize)
    ensures DecodeWords(out, outSize) == Learned(inSize, clockId, clockCount, clock, index)
  {
    var r := AnswerRates(inSize, clockId, clockCount, clock, index);
    FieldsFit(inSize, clockId, clockCount, clock, index);
    WordsDecoded(r, out, outSize);
    AnswerDecoded(inSize, clockId, clockCount, clock, index);
  }

  lemma FieldsFit(inSize: nat, clockId: nat, clockCount: nat, clock: Clock, index: nat)
    requires Answers(clock, index)
    ensures var r := AnswerRates(inSize, clockId, clockCount, clock, index);
            r.Full? ==> Fit(r.page.fields)
  {
  }

  lemma AnswerDecoded(inSize: nat, clockId: nat, clockCount: nat, clock: Clock, index: nat)
    requires Answers(clock, index)
    ensures Decode(AnswerRates(inSize, clockId, clockCount, clock, index)) ==
            Learned(inSize, clockId, clockCount, clock, index)
  {
    if clock.RateList? {
      WordsRoundTrip(clock.answer);
      DivSmall(|clock.answer|, 0x1000);
    } else if clock.RateRange? {
      WordsRoundTrip([clock.lowest, clock.highest, clock.step]);
    }
  }

  /** The rates that remain, as far as a 16-bit field can tell. */
  function Shown(remaining: nat): nat { remaining % 0x1_0000 }

  /** An answer counts the rates it holds and tells the rest modulo 65536. */
  lemma PageCounts(rates: seq<u64>, index: nat)
    requires index <= |rates|
    ensures var page, n := DescribeRates(rates, index), PageSize(rates, index);
            page.fields.count == n && page.fields.remaining == Shown(|rates| - index - n)
  {
    DivSmall(PageSize(rates, index), 0x1000);
  }

  /** An answer holds the next rates of the list. */
  lemma PageRates(rates: seq<u64>, index: nat)
    requires index <= |rates|
    ensures Rates(DescribeRates(rates, index).words) == rates[index..index + PageSize(rates, index)]
  {
    WordsRoundTrip(rates[index..index + PageSize(rates, index)]);
  }

  /** As long as something remains, answers are not empty. */
  lemma Progress(rates: seq<u64>, index: nat)
    requires index <= |rates|
    ensures Shown(|rates| - index - PageSize(rates, index)) != 0 ==> PageSize(rates, index) > 0
  {
  }

  /** What a client gets from `index` on that decodes the rates of each answer, goes on behind them by the count
      it reads there, and stops when the answer says that nothing remains. */
  function Walk(rates: seq<u64>, index: nat): seq<u64>
    requires index <= |rates|
    decreases |rates| - index
  {
    PageCounts(rates, index);
    Progress(rates, index);
    var page := DescribeRates(rates, index);
    Rates(page.words) + (if page.fields.remaining == 0 then [] else Walk(rates, index + page.fields.count))
  }

  /** The same in terms of the list itself. */
  function Pieces(rates: seq<u64>, index: nat): seq<u64>
    requires index <= |rates|
    decreases |rates| - index
  {
    var n := PageSize(rates, index);
    rates[index..index + n] + (if Shown(|rates| - index - n) == 0 then [] else Pieces(rates, index + n))
  }

  lemma {:induction false} WalkIsPieces(rates: seq<u64>, index: nat)
    requires index <= |rates|
    ensures Walk(rates, index) == Pieces(rates, index)
    decreases |rates| - index
  {
    var page, n := DescribeRates(rates, index), PageSize(rates, index);
    PageCounts(rates, index);
    PageRates(rates, index);
    if page.fields.remaining != 0 { WalkIsPieces(rates, index + n); }
  }

  /** Some page from `index` on leaves a positive multiple of 65536 rates, which the answer shows as none. */
  ghost predicate EndsEarly(total: nat, index: nat)
    decreases total - index
  {
    index + MAX_RATES < total && (Shown(total - index - MAX_RATES) == 0 || EndsEarly(total, index + MAX_RATES))
  }

  lemma {:induction false} PiecesComplete(rates: seq<u64>, index: nat)
    requires index <= |rates|
    ensures Pieces(rates, index) == rates[index..] <==> !EndsEarly(|rates|, index)
    decreases |rates| - index
  {
    var n := PageSize(rates, index);
    if Shown(|rates| - index - n) != 0 {
      PiecesComplete(rates, index + n);
      assert rates[index..] == rates[index..index + n] + rates[index + n..];
      if Pieces(rates, index) == rates[index..] {
        assert Pieces(rates, index)[n..] == Pieces(rates, index + n);
        assert rates[index..][n..] == rates[index + n..];
      }
    } else {
      assert |Pieces(rates, index)| == n;
    }
  }

  /** The list is longer than some multiple of 65536 by a multiple of ten. */
  ghost predicate Truncates(total: nat) {
    exists m: nat :: m >= 1 && m * 0x1_0000 < total && (total - m * 0x1_0000) % MAX_RATES == 0
  }

  lemma {:induction false} EarlyMeansMultiple(total: nat, index: nat) returns (m: nat)
    requires EndsEarly(total, index)
    ensures m >= 1 && m * 0x1_0000 < total - index && (total - index - m * 0x1_0000) % MAX_RATES == 0
    decreases total - index
  {
    var rest := total - index - MAX_RATES;
    if rest % 0x1_0000 == 0 {
      m := rest / 0x1_0000;
      assert rest == m * 0x1_0000;
    } else {
      m := EarlyMeansMultiple(total, index + MAX_RATES);
      DivDrop(total - index - m * 0x1_0000, MAX_RATES);
    }
  }

  lemma {:induction false} MultipleMeansEarly(total: nat, index: nat, m: nat)
    requires m >= 1 && index <= total && m * 0x1_0000 < total - index && (total - index - m * 0x1_0000) % MAX_RATES == 0
    ensures EndsEarly(total, index)
    decreases total - index
  {
    if total - index - MAX_RATES != m * 0x1_0000 {
      MultipleMeansEarly(total, index + MAX_RATES, m);
    }
  }

  lemma EarlyExactly(total: nat)
    ensures EndsEarly(total, 0) <==> Truncates(total)
  {
    if EndsEarly(total, 0) {
      var m := EarlyMeansMultiple(total, 0);
    }
    if Truncates(total) {
      var m: nat :| m >= 1 && m * 0x1_0000 < total && (total - m * 0x1_0000) % MAX_RATES == 0;
      MultipleMeansEarly(total, 0, m);
    }
  }

  /** The client rebuilds the platform's rate list, whose rates it can all name by the 32-bit index of a request, if
      and only if the length of the list does not exceed a multiple of 65536 by a multiple of ten. */
  lemma RatesRebuilt(rates: seq<u64>)
    requires |rates| < U32
    ensures Walk(rates, 0) == rates <==> !Truncates(|rates|)
  {
    WalkIsPieces(rates, 0);
    PiecesComplete(rates, 0);
    EarlyExactly(|rates|);
    assert rates[0..] == rates;
  }

  lemma NoTruncation(total: nat)
    requires total < 0x1_0000 + MAX_RATES
    ensures !Truncates(total)
  {
    forall m: nat | m >= 1 && m * 0x1_0000 < total
      ensures (total - m * 0x1_0000) % MAX_RATES != 0
    {
      assert m == 1;
      DivSmall(total - 0x1_0000, MAX_RATES);
    }
  }

  /** In particular for every list short enough for the 16-bit field of remaining rates. */
  lemma ShortListsRebuilt(rates: seq<u64>)
    requires |rates| < 0x1_0000 + MAX_RATES
    ensures Walk(rates, 0) == rates
  {
    RatesRebuilt(rates);
    NoTruncation(|rates|);
  }

  // ----- BASE_DISCOVER_LIST_PROTOCOLS -----

  /** The status and the count of protocols. */
  const HEADER_SIZE: nat := 8

  /** The protocols before the terminating zero. */
  function Listed(list: seq<byte>): seq<byte> {
    if list == [] || list[0] == 0 then [] else [list[0]] + Listed(list[1..])
  }

  /** What a platform without a list offers, or one with a list that ends with a zero. */
  function Offered(list: Option<seq<byte>>): seq<byte> {
    match list
    case None => []
    case Some(l) => Listed(l)
  }

  ghost predicate Terminated(list: Option<seq<byte>>) { list.Some? ==> 0 in list.value }

  lemma {:induction false} ListedUpTo(l: seq<byte>, n: nat)
    requires n < |l| && l[n] == 0 && forall j :: 0 <= j < n ==> l[j] != 0
    ensures Listed(l) == l[..n]
    decreases n
  {
    if n > 0 {
      ListedUpTo(l[1..], n - 1);
      assert l[..n] == [l[0]] + l[1..][..n - 1];
    }
  }

  /** count_protocols_in_list */
  method CountProtocols(list: Option<seq<byte>>) returns (count: nat)
    requires Terminated(list)
    ensures count == |Offered(list)|
    ensures list.Some? ==> count <= |list.value| && list.value[..count] == Offered(list)
  {
    count := 0;
    match list {
      case None =>
      case Some(l) =>
        ghost var end :| 0 <= end < |l| && l[end] == 0;
        while l[count] != 0
          invariant count <= end && forall j :: 0 <= j < count ==> l[j] != 0
          decreases end - count
        {
          count := count + 1;
        }
        ListedUpTo(l, count);
    }
  }

  /** discover_list_protocols: the protocols an answer holds, with room for `room` bytes behind its header. */
  function DiscoverProtocols(protocols: seq<byte>, skip: nat, room: nat): (page: seq<byte>)
    ensures |page| <= room
  {
    if |protocols| > skip then protocols[skip..skip + Min(|protocols| - skip, room)] else []
  }

  /** The room behind the header of eight bytes in an output buffer, cut to 32 bits: it wraps around in a buffer that
      is smaller. */
  function Room(outSize: nat): nat
    requires outSize < U64
  {
    Minus64(outSize, HEADER_SIZE) % U32
  }

  /** Answers stay inside the output buffer, for all lists and requests, exactly if the header does. */
  lemma AnswerInside(outSize: nat)
    requires outSize < U32
    ensures (forall protocols: seq<byte>, skip: nat ::
               HEADER_SIZE + |DiscoverProtocols(protocols, skip, Room(outSize))| <= outSize) <==> HEADER_SIZE <= outSize
  {
    if HEADER_SIZE <= outSize {
      DivSmall(outSize - HEADER_SIZE, U32);
    } else {
      assert HEADER_SIZE + |DiscoverProtocols([], 0, Room(outSize))| > outSize;
    }
  }

  /** The size an answer reports, which is rounded up to words. */
  function ReportedSize(count: nat): nat { HEADER_SIZE + (count + 3) / 4 * 4 }

  /** The reported size stays inside the output buffer, for all lists and requests, exactly if the header does and the
      buffer is a whole number of words. */
  lemma ReportInside(outSize: nat)
    requires outSize < U32
    ensures (forall protocols: seq<byte>, skip: nat ::
               ReportedSize(|DiscoverProtocols(protocols, skip, Room(outSize))|) <= outSize) <==>
            HEADER_SIZE <= outSize && outSize % 4 == 0
  {
    if HEADER_SIZE > outSize {
      assert ReportedSize(|DiscoverProtocols([], 0, Room(outSize))|) > outSize;
    } else {
      DivSmall(outSize - HEADER_SIZE, U32);
      if outSize % 4 != 0 {
        var protocols: seq<byte> := seq(outSize - HEADER_SIZE, _ => 1);
        assert |DiscoverProtocols(protocols, 0, Room(outSize))| == outSize - HEADER_SIZE;
        assert ReportedSize(outSize - HEADER_SIZE) > outSize;
      } else {
        forall protocols: seq<byte>, skip: nat
          ensures ReportedSize(|DiscoverProtocols(protocols, skip, Room(outSize))|) <= outSize
        {
          assert |DiscoverProtocols(protocols, skip, Room(outSize))| <= outSize - HEADER_SIZE;
        }
      }
    }
  }

  /** A word in memory, least significant byte first. */
  function Word(x: u32): seq<byte> { [x % 256, x / 256 % 256, x / 0x1_0000 % 256, x / 0x100_0000] }

  lemma WordValue(x: u32)
    ensures var w := Word(x);
            x == (w[0] as int) + 0x100 * (w[1] as int) + 0x1_0000 * (w[2] as int) + 0x100_0000 * (w[3] as int)
  {
    assert x / 0x1_0000 == x / 256 / 256 && x / 0x100_0000 == x / 256 / 256 / 256;
  }

  lemma SameSlice(l: seq<byte>, protocols: seq<byte>, skip: nat, count: nat)
    requires skip + count <= |protocols| <= |l| && l[..|protocols|] == protocols
    ensures l[skip..skip + count] == protocols[skip..skip + count]
  {
    assert l[..|protocols|][skip..skip + count] == l[skip..skip + count];
  }

  /** The handler, on shared memory from the output buffer on: a refusal is a status alone; otherwise status and count
      are followed by the protocols, and the size is rounded up to words. */
  method HandleListProtocols(inSize: nat, skip: nat, list: Option<seq<byte>>, mem: array<byte>, outSize: nat)
    returns (outSizeOut: nat)
    requires Terminated(list) && outSize < U64 && |Offered(list)| < U32
    requires HEADER_SIZE + |DiscoverProtocols(Offered(list), skip, Room(outSize))| <= mem.Length
    modifies mem
    ensures inSize != 4 ==>
              outSizeOut == 4 && mem[..] == Splice(old(mem[..]), 0, Word(AsWord(PROTOCOL_ERROR)))
    ensures inSize == 4 ==>
              var page := DiscoverProtocols(Offered(list), skip, Room(outSize));
              && outSizeOut == ReportedSize(|page|)
              && mem[..] == Splice(old(mem[..]), 0, Word(SUCCESS) + Word(|page|) + page)
  {
    if inSize != 4 {
      Store(mem, 0, Word(AsWord(PROTOCOL_ERROR)));
      return 4;
    }
    var count := CountProtocols(list);
    if count > skip {
      count := Min(count - skip, Room(outSize));
    } else {
      count := 0;
    }
    var bytes := if count == 0 then [] else list.value[skip..skip + count];
    if count > 0 { SameSlice(list.value, Offered(list), skip, count); }
    assert bytes == DiscoverProtocols(Offered(list), skip, Room(outSize));
    RespondProtocols(mem, bytes);
    return ReportedSize(count);
  }

  /** Status and count, then the protocols behind them. */
  method RespondProtocols(mem: array<byte>, page: seq<byte>)
    requires |page| < U32 && HEADER_SIZE + |page| <= mem.Length
    modifies mem
    ensures mem[..] == Splice(old(mem[..]), 0, Word(SUCCESS) + Word(|page|) + page)
  {
    var header := Word(SUCCESS) + Word(|page|);
    Store(mem, 0, header);
    Store(mem, HEADER_SIZE, page);
    SpliceAppend(old(mem[..]), 0, header, page);
  }

  /** A client that skips what it has until an answer is empty. */
  function WalkProtocols(protocols: seq<byte>, skip: nat, room: nat): seq<byte>
    decreases |protocols| - skip
  {
    var page := DiscoverProtocols(protocols, skip, room);
    if page == [] then [] else page + WalkProtocols(protocols, skip + |page|, room)
  }

  lemma {:induction false} WalkProtocolsFrom(protocols: seq<byte>, skip: nat, room: nat)
    requires room > 0 && skip <= |protocols|
    ensures WalkProtocols(protocols, skip, room) == protocols[skip..]
    decreases |protocols| - skip
  {
    if skip < |protocols| {
      NextProtocols(protocols, skip, room);
      WalkProtocolsFrom(protocols, skip + |DiscoverProtocols(protocols, skip, room)|, room);
    }
  }

  lemma NextProtocols(protocols: seq<byte>, skip: nat, room: nat)
    requires room > 0 && skip < |protocols|
    ensures var page := DiscoverProtocols(protocols, skip, room);
            0 < |page| <= |protocols| - skip && protocols[skip..] == page + protocols[skip + |page|..]
  {
  }

  /** The client rebuilds the protocol list exactly if answers have room for a protocol, or there is none. */
  lemma ProtocolsRebuilt(protocols: seq<byte>, room: nat)
    ensures WalkProtocols(protocols, 0, room) == protocols <==> room > 0 || protocols == []
  {
    if room > 0 { WalkProtocolsFrom(protocols, 0, room); }
  }
}
