/** A RakNet connection (src/raknet/connection.rs): sender, receiver, pending acknowledgements, and the closed flag. */
module Connections {
  import opened Words
  import opened Packets
  import opened Bits
  import opened Compressed
  import opened PacketCodec
  import opened AckCodec
  import opened RangeLists
  import Sending
  import Receiving
  import opened Datagrams

  datatype ConnState = ConnState(
    closed: bool,
    remoteSystemTime: u32,
    acks: seq<Range>,
    recv: Receiving.RecvState,
    send: Sending.SendState)

  const INITIAL: ConnState := ConnState(false, 0, [], Receiving.INITIAL, Sending.INITIAL)

  /** A datagram handled: an assertion fails, its header cannot be read, or packets come out. */
  datatype Handling = Fault | Failed | Handled(state: ConnState, packets: seq<Packet>)

  /** The packets a datagram carries after its header. */
  function Contents(data: Bytes): Parsed {
    match ReadHeader(BytesBits(data))
    case Got(_, pos) => ParsePackets(BytesBits(data), pos)
    case _ => Parsed([])
  }

  function Handle(c: ConnState, data: Bytes): Handling {
    match ReadHeader(BytesBits(data))
    case Got(header, pos) =>
      (match ParsePackets(BytesBits(data), pos)
       case ParsePanic => Fault
       case Parsed(ps) => Process(c, if header.time.Some? then header.time.value else c.remoteSystemTime, ps))
    case _ => Failed
  }

  function Process(c: ConnState, time: u32, ps: seq<RaknetPacket>): Handling {
    match Receiving.Run(c.recv, ps)
    case Panic => Fault
    case Done(recv, out, disconnect) =>
      var acks := InsertedAll(c.acks, Receiving.AckNumbers(ps));
      Handled(ConnState(c.closed || disconnect, time, acks, recv, c.send), out)
  }

  /** Everything a list of messages becomes on the wire. */
  function Outgoing(s: Sending.SendState, packets: seq<Packet>): (ps: seq<RaknetPacket>)
    ensures AllEncodable(ps)
  {
    WireEncodable(s, packets);
    Flatten(Sending.Wire(s, packets))
  }

  lemma {:induction false} WireEncodable(s: Sending.SendState, packets: seq<Packet>)
    ensures AllEncodable(Flatten(Sending.Wire(s, packets)))
  {
    hide Sending.Fragments, Sending.StateAfter, Encodable;
    if packets != [] {
      var init, last := packets[..|packets| - 1], packets[|packets| - 1];
      WireEncodable(s, init);
      FragmentsEncodable(Sending.StateAfter(s, init), last);
      assert Sending.Wire(s, packets)[..|init|] == Sending.Wire(s, init);
    }
  }

  /** A send: refused once closed, otherwise the datagrams it produces. */
  datatype Sendout = Refused | Sent(state: ConnState, datagrams: seq<Bytes>)

  function Send(c: ConnState, packets: seq<Packet>): Sendout {
    if c.closed then Refused
    else Sent(
      c.(acks := [], send := Sending.StateAfter(c.send, packets)),
      DatagramsOf(Outgoing(c.send, packets), c.acks, c.remoteSystemTime))
  }

  /**
   * A datagram with acknowledgements only changes nothing. Its header can be read unless it fills
   * whole bytes, as it does for a single range.
   */
  lemma AcksAloneChangeNothing(c: ConnState, acks: seq<Range>, time: u32)
    requires 0 < |acks| < 0x1_0000
    ensures Handle(c, ToBytes(AckBits(acks, time))) ==
            if (1 + LengthU16(|acks|) + |acks|) % 8 == 0 then Failed else Handled(c, [])
  {
    hide AckBits, BytesBits, ToBytes, ReadHeader, ParsePackets, LengthU16;
    AckDatagramRead(acks, time);
    AckBitsLength(acks, time);
  }

  // Whole runs of a connection

  datatype Event = Receives(data: Bytes) | Sends(packets: seq<Packet>)

  /** One event; a datagram whose header cannot be read, and a refused send, change nothing. */
  function After(c: ConnState, e: Event): Option<ConnState> {
    match e
    case Receives(data) =>
      (match Handle(c, data)
       case Fault => None
       case Failed => Some(c)
       case Handled(c', _) => Some(c'))
    case Sends(packets) =>
      (match Send(c, packets)
       case Refused => Some(c)
       case Sent(c', _) => Some(c'))
  }

  function AfterAll(c: ConnState, events: seq<Event>): Option<ConnState> {
    if events == [] then Some(c)
    else
      match AfterAll(c, events[..|events| - 1])
      case None => None
      case Some(c') => After(c', events[|events| - 1])
  }

  /** The closed flag never clears, and a closed connection produces no datagram. */
  lemma {:induction false} ClosedForEver(c: ConnState, events: seq<Event>, packets: seq<Packet>)
    requires c.closed && AfterAll(c, events).Some?
    ensures AfterAll(c, events).value.closed && Send(AfterAll(c, events).value, packets) == Refused
  {
    hide ReadHeader, ParsePackets, BytesBits;
    if events != [] {
      ClosedForEver(c, events[..|events| - 1], packets);
    }
  }

  class Connection {
    var closed: bool
    var remoteSystemTime: u32
    const acks: RangeList
    const recv: Receiving.ReceivePart
    const send: Sending.SendPart

    constructor ()
      ensures State() == INITIAL
      ensures fresh(acks) && fresh(recv) && fresh(send)
    {
      closed, remoteSystemTime := false, 0;
      acks := new RangeList();
      recv := new Receiving.ReceivePart();
      send := new Sending.SendPart();
    }

    function State(): ConnState
      reads this, acks, recv, send
    {
      ConnState(closed, remoteSystemTime, acks.ranges, recv.State(), send.State())
    }

    /** Reads past the acknowledgements and takes over the remote time, if there is one. */
    method HandleHeader(reader: BitReader) returns (r: Read<Header>)
      requires reader.pos == 0
      modifies reader, this`remoteSystemTime
      ensures r == ReadHeader(reader.bits) && (r.Got? ==> reader.pos == r.pos)
      ensures remoteSystemTime ==
              if r.Got? && r.value.time.Some? then r.value.time.value else old(remoteSystemTime)
    {
      hide ReadLe, ReadList;
      var hasAcks :- reader.ReadOne();
      var ranges: seq<Range> := [];
      if hasAcks {
        var oldTime :- reader.ReadInt(4);
        ranges :- ReadListFrom(reader);
      }
      var hasRemoteSystemTime :- reader.ReadOne();
      if hasRemoteSystemTime {
        var time :- reader.ReadInt(4);
        remoteSystemTime := time;
        return Got(Header(ranges, Some(time)), reader.pos);
      }
      return Got(Header(ranges, None), reader.pos);
    }

    method HandleDatagram(data: Bytes) returns (ok: bool, packets: seq<Packet>)
      requires Handle(State(), data) != Fault
      modifies this, acks, recv
      ensures var h := Handle(old(State()), data);
              if ok then h == Handled(State(), packets) else h == Failed && State() == old(State())
    {
      hide ReadHeader, ParsePackets, Receiving.Run, InsertedAll, Receiving.AckNumbers, BytesBits;
      packets := [];
      var reader := new BitReader(data);
      var header := HandleHeader(reader);
      if !header.Got? {
        return false, [];
      }
      var rakPackets := ParseAll(reader);
      packets, closed := recv.ProcessIncomingPackets(rakPackets, acks, closed);
      ok := true;
    }

    method SendPackets(packets: seq<Packet>) returns (ok: bool, datagrams: seq<Bytes>)
      modifies this, acks, send
      ensures var s := Send(old(State()), packets);
              if ok then s == Sent(State(), datagrams) else s == Refused && State() == old(State())
    {
      hide DatagramsOf, Sending.Wire, Sending.StateAfter, Encodable;
      if closed {
        return false, [];
      }
      var rakPackets := send.ProcessOutgoingPackets(packets);
      assert rakPackets == Outgoing(old(send.State()), packets);
      datagrams := SendRakPackets(rakPackets, acks, remoteSystemTime);
      ok := true;
    }
  }
}
