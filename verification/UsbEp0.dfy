/** The data stage of control transfers on endpoint 0 (drivers/usb/usb_device.c).

    Each completion event acknowledges the packet on its way.  The packets of an IN transfer, the zero-length
    packet at its end and the number of events are proved for every length and packet size (section 8.5.3.2 of
    the USB 2.0 specification). */
module UsbEp0 {
  import opened Bits
  import opened Bytes

  datatype Ep0State = Idle | Setup | DataIn | DataOut | StatusIn | StatusOut

  /** The parts of `usb_handle` that carry endpoint 0: its state, the lengths of the transfer in each direction
      and the length the host asked for. */
  datatype Ep0 = Ep0(state: Ep0State, inTotal: nat, inRem: nat, outTotal: nat, outRem: nat, dataLen: nat,
                     maxPacket: nat)

  /** usb_core_setup_stage, as far as it concerns the data stage: the requested length from bytes 6 and 7. */
  function SetupStage(e: Ep0, setup: seq<byte>): Ep0
    requires |setup| == 8
  {
    e.(state := Setup, dataLen := (setup[6] as int) + 256 * (setup[7] as int))
  }

  /** usb_core_transmit_ep0 and usb_core_receive_ep0 */
  function TransmitEp0(e: Ep0, len: nat): Ep0 {
    e.(state := if len != 0 then DataIn else StatusIn, inTotal := len, inRem := len)
  }

  function ReceiveEp0(e: Ep0, len: nat): Ep0 {
    e.(state := if len != 0 then DataOut else StatusOut, outTotal := len, outRem := len)
  }

  /** The packet the controller sends when it is handed `len` bytes for endpoint 0. */
  function Packet(e: Ep0, len: nat): nat { Min(len, e.maxPacket) }

  /** A transfer that ends on a packet boundary but short of what the host asked for. */
  predicate NeedsZeroPacket(e: Ep0)
    requires e.maxPacket > 0
  {
    e.inTotal % e.maxPacket == 0 && e.inTotal >= e.maxPacket && e.inTotal < e.dataLen
  }

  /** What a completion event starts. */
  datatype Started = Nothing | Send(len: nat)

  /** usb_core_data_in */
  function DataInEvent(e: Ep0): (Ep0, Started)
    requires e.maxPacket > 0
  {
    if e.state != DataIn then (e, Nothing)
    else if e.inRem > e.maxPacket then (e.(inRem := e.inRem - e.maxPacket), Send(e.inRem - e.maxPacket))
    else if NeedsZeroPacket(e) then (e.(dataLen := 0), Send(0))
    else (ReceiveEp0(e, 0), Nothing)
  }

  /** usb_core_data_out; the packet to expect next. */
  function DataOutEvent(e: Ep0): (Ep0, Started)
    requires e.maxPacket > 0
  {
    if e.state != DataOut then (e, Nothing)
    else if e.outRem > e.maxPacket then
      (e.(outRem := e.outRem - e.maxPacket), Send(Min(e.outRem - e.maxPacket, e.maxPacket)))
    else (TransmitEp0(e, 0), Nothing)
  }

  /** The handle, updated in place. */
  class UsbDevice {
    var ep0State: Ep0State
    var inTotal: nat
    var inRem: nat
    var outTotal: nat
    var outRem: nat
    var dataLen: nat
    const maxPacket: nat

    constructor (maxPacket: nat)
      ensures View() == Ep0(Idle, 0, 0, 0, 0, 0, maxPacket)
    {
      ep0State, inTotal, inRem, outTotal, outRem, dataLen := Idle, 0, 0, 0, 0, 0;
      this.maxPacket := maxPacket;
    }

    ghost function View(): Ep0
      reads this
    {
      Ep0(ep0State, inTotal, inRem, outTotal, outRem, dataLen, maxPacket)
    }

    /** usb_core_transmit_ep0 */
    method Transmit(len: nat)
      modifies this
      ensures View() == TransmitEp0(old(View()), len)
    {
      ep0State := if len != 0 then DataIn else StatusIn;
      inTotal, inRem := len, len;
    }

    /** usb_core_receive_ep0 */
    method Receive(len: nat)
      modifies this
      ensures View() == ReceiveEp0(old(View()), len)
    {
      ep0State := if len != 0 then DataOut else StatusOut;
      outTotal, outRem := len, len;
    }

    /** usb_core_data_in */
    method OnDataIn() returns (started: Started)
      requires maxPacket > 0
      modifies this
      ensures (View(), started) == DataInEvent(old(View()))
    {
      started := Nothing;
      if ep0State == DataIn {
        if inRem > maxPacket {
          inRem := inRem - maxPacket;
          started := Send(inRem);
        } else if inTotal % maxPacket == 0 && inTotal >= maxPacket && inTotal < dataLen {
          dataLen := 0;
          started := Send(0);
        } else {
          Receive(0);
        }
      }
    }

    /** usb_core_data_out */
    method OnDataOut() returns (started: Started)
      requires maxPacket > 0
      modifies this
      ensures (View(), started) == DataOutEvent(old(View()))
    {
      started := Nothing;
      if ep0State == DataOut {
        if outRem > maxPacket {
          outRem := outRem - maxPacket;
          started := Send(Min(outRem, maxPacket));
        } else {
          Transmit(0);
        }
      }
    }
  }

  // ----- The packets of a transfer -----

  /** A length cut into packets. */
  function Split(len: nat, m: nat): (packets: seq<nat>)
    requires m > 0
    decreases len
  {
    if len <= m then [len] else [m] + Split(len - m, m)
  }

  function Sum(s: seq<nat>): nat { if s == [] then 0 else s[0] + Sum(s[1..]) }

  /** The packets are all full but the last, and together they are the length. */
  lemma {:induction false} SplitFacts(len: nat, m: nat)
    requires m > 0
    ensures var s := Split(len, m);
            && Sum(s) == len && s != []
            && (forall i :: 0 <= i < |s| - 1 ==> s[i] == m) && s[|s| - 1] <= m && (len > 0 ==> s[|s| - 1] > 0)
    decreases len
  {
    var s := Split(len, m);
    if len > m {
      SplitFacts(len - m, m);
      assert s[1..] == Split(len - m, m);
    } else {
      assert s[1..] == [];
    }
  }

  /** There are as many as the length needs, rounded up. */
  lemma {:induction false} SplitCount(len: nat, m: nat)
    requires m > 0 && len > 0
    ensures |Split(len, m)| == (len + m - 1) / m
    decreases len
  {
    DivDrop(len + m - 1, m);
    if len > m { SplitCount(len - m, m); } else { DivSmall(len - 1, m); }
  }

  /** All packets the device sends from now on in an IN transfer, the one on its way first; one completion event
      follows each, and the last one moves the device on. */
  function PacketsFrom(e: Ep0, packet: nat): seq<nat>
    requires e.maxPacket > 0
    decreases e.inRem, e.dataLen
  {
    var (e', started) := DataInEvent(e);
    if e.state != DataIn || started == Nothing then [packet]
    else [packet] + PacketsFrom(e', Packet(e, started.len))
  }

  /** The state after `n` completion events. */
  function AfterEvents(e: Ep0, n: nat): Ep0
    requires e.maxPacket > 0
    decreases n
  {
    if n == 0 then e else AfterEvents(DataInEvent(e).0, n - 1)
  }

  lemma {:induction false} PacketsAreSplit(e: Ep0)
    requires e.maxPacket > 0 && e.state == DataIn
    ensures PacketsFrom(e, Packet(e, e.inRem)) == Split(e.inRem, e.maxPacket) + (if NeedsZeroPacket(e) then [0] else [])
    decreases e.inRem
  {
    if e.inRem > e.maxPacket {
      PacketsAreSplit(DataInEvent(e).0);
    } else if NeedsZeroPacket(e) {
      assert Split(e.inRem, e.maxPacket) == [e.inRem];
      assert PacketsFrom(DataInEvent(e).0, 0) == [0];
    }
  }

  /** The events are as many as the packets: before the last one the device is in the data stage, after it in the
      status stage. */
  lemma {:induction false} EventsAreCounted(e: Ep0, packet: nat, n: nat)
    requires e.maxPacket > 0 && e.state == DataIn
    ensures var k := |PacketsFrom(e, packet)|;
            && (n < k ==> AfterEvents(e, n).state == DataIn)
            && (n == k ==> AfterEvents(e, n).state == StatusOut)
    decreases e.inRem, e.dataLen
  {
    var (e', started) := DataInEvent(e);
    if started != Nothing && n > 0 {
      EventsAreCounted(e', Packet(e, started.len), n - 1);
    }
  }

  /** An IN transfer of `len` bytes, of `requested` the host asked for: the device sends the packets of that
      length, then one zero-length packet exactly if the length is a multiple of the packet size and less than
      requested, and reaches the status stage after exactly as many completion events as packets. */
  lemma InTransfer(e: Ep0, len: nat)
    requires e.maxPacket > 0 && len > 0
    ensures var e0 := TransmitEp0(e, len);
            var zero := len % e.maxPacket == 0 && len < e.dataLen;
            var packets := PacketsFrom(e0, Packet(e0, len));
            && packets == Split(len, e.maxPacket) + (if zero then [0] else [])
            && |packets| == (len + e.maxPacket - 1) / e.maxPacket + (if zero then 1 else 0)
            && AfterEvents(e0, |packets|).state == StatusOut
            && forall n :: 0 <= n < |packets| ==> AfterEvents(e0, n).state == DataIn
  {
    var e0 := TransmitEp0(e, len);
    MultipleIsLarge(len, e.maxPacket);
    PacketsAreSplit(e0);
    SplitCount(len, e.maxPacket);
    var packets := PacketsFrom(e0, Packet(e0, len));
    forall n | 0 <= n <= |packets|
      ensures n < |packets| ==> AfterEvents(e0, n).state == DataIn
      ensures n == |packets| ==> AfterEvents(e0, n).state == StatusOut
    {
      EventsAreCounted(e0, Packet(e0, len), n);
    }
  }

  /** The same from the setup packet on, which holds the requested length in its last two bytes. */
  lemma ControlRead(e: Ep0, setup: seq<byte>, len: nat)
    requires e.maxPacket > 0 && len > 0 && |setup| == 8
    ensures var requested := (setup[6] as int) + 256 * (setup[7] as int);
            var zero := len % e.maxPacket == 0 && len < requested;
            var e0 := TransmitEp0(SetupStage(e, setup), len);
            var packets := PacketsFrom(e0, Packet(e0, len));
            && packets == Split(len, e.maxPacket) + (if zero then [0] else [])
            && AfterEvents(e0, |packets|).state == StatusOut
  {
    InTransfer(SetupStage(e, setup), len);
  }

  lemma MultipleIsLarge(len: nat, m: nat)
    requires m > 0 && len > 0
    ensures len % m == 0 ==> len >= m
  {
    if len < m { DivSmall(len, m); }
  }

  // ----- OUT transfers -----

  function AfterOutEvents(e: Ep0, n: nat): Ep0
    requires e.maxPacket > 0
    decreases n
  {
    if n == 0 then e else AfterOutEvents(DataOutEvent(e).0, n - 1)
  }

  /** An OUT transfer reaches the status stage after exactly one event per packet. */
  lemma {:induction false} OutTransfer(e: Ep0, n: nat)
    requires e.maxPacket > 0 && e.state == DataOut
    ensures var k := |Split(e.outRem, e.maxPacket)|;
            && (n < k ==> AfterOutEvents(e, n).state == DataOut)
            && (n == k ==> AfterOutEvents(e, n).state == StatusIn)
    decreases n
  {
    if n > 0 && e.outRem > e.maxPacket { OutTransfer(DataOutEvent(e).0, n - 1); }
  }

  /** The packets the device gets ready for from now on in an OUT transfer, the one on its way first. */
  function ExpectedFrom(e: Ep0, packet: nat): seq<nat>
    requires e.maxPacket > 0
    decreases e.outRem
  {
    var (e', started) := DataOutEvent(e);
    if e.state != DataOut || started == Nothing then [packet] else [packet] + ExpectedFrom(e', started.len)
  }

  /** They are those of the length. */
  lemma {:induction false} ExpectedAreSplit(e: Ep0)
    requires e.maxPacket > 0 && e.state == DataOut
    ensures ExpectedFrom(e, Packet(e, e.outRem)) == Split(e.outRem, e.maxPacket)
    decreases e.outRem
  {
    if e.outRem > e.maxPacket { ExpectedAreSplit(DataOutEvent(e).0); }
  }
}
