/** The remote system time (src/raknet/connection.rs): what a connection echoes with its acknowledgements. */
module RemoteTime {
  import opened Words
  import opened Packets
  import opened Bits
  import opened PacketCodec
  import opened AckCodec
  import opened RangeLists
  import opened Datagrams
  import opened Connections

  /** The time in the last datagram whose header has one. */
  function LastTime(time: u32, events: seq<Event>): u32 {
    if events == [] then time
    else
      var before := LastTime(time, events[..|events| - 1]);
      match events[|events| - 1]
      case Sends(_) => before
      case Receives(data) =>
        match ReadHeader(BytesBits(data))
        case Got(header, _) => if header.time.Some? then header.time.value else before
        case _ => before
  }

  lemma TimeAfter(c: ConnState, e: Event)
    requires After(c, e).Some?
    ensures After(c, e).value.remoteSystemTime == LastTime(c.remoteSystemTime, [e])
  {
    hide ReadHeader, ParsePackets, BytesBits, DatagramsOf, Outgoing;
    assert [e][..0] == [];
  }

  lemma LastTimeNext(time: u32, events: seq<Event>, e: Event)
    ensures LastTime(time, events + [e]) == LastTime(LastTime(time, events), [e])
  {
    hide ReadHeader, BytesBits;
    assert (events + [e])[..|events|] == events && [e][..0] == [];
  }

  /** Over any run the remote time is the one last received. */
  lemma {:induction false} TimeIsLast(c: ConnState, events: seq<Event>)
    requires AfterAll(c, events).Some?
    ensures AfterAll(c, events).value.remoteSystemTime == LastTime(c.remoteSystemTime, events)
  {
    if events != [] {
      hide After, LastTime;
      var init, e := events[..|events| - 1], events[|events| - 1];
      TimeIsLast(c, init);
      TimeAfter(AfterAll(c, init).value, e);
      LastTimeNext(c.remoteSystemTime, init, e);
      assert init + [e] == events;
    }
  }

  /** The field behind the acknowledgement flag. */
  lemma TimeIsWritten(acks: seq<Range>, time: u32, rest: Bits)
    requires acks != []
    ensures var bits := BytesBits(ToBytes(AckBits(acks, time) + rest));
            ReadBit(bits, 0) == Got(true, 1) && ReadU32(bits, 1) == Got(time, 33)
  {
    var list := ListBits(acks);
    ToBytesBits(AckBits(acks, time) + rest);
    hide ToBytes, BytesBits, ListBits, U32Bits, ReadU32, ReadBit;
    var pad := Zeros(PadLen(|AckBits(acks, time) + rest|));
    var bits := AckBits(acks, time) + rest + pad;
    assert AckBits(acks, time) == [true] + (U32Bits(time) + list);
    assert bits == [true] + (U32Bits(time) + (list + rest + pad));
    assert bits[0..] == bits;
    SplitAt(bits, 0, [true], U32Bits(time) + (list + rest + pad));
    ReadBitAt(bits, 0, true);
    SplitAt(bits, 1, U32Bits(time), list + rest + pad);
    ReadU32At(bits, 1, time);
  }

  /**
   * A send that acknowledges anything echoes, in bits 1 to 32 of its first datagram, the remote time
   * that was received last.
   */
  lemma SendEchoesTime(c: ConnState, events: seq<Event>, packets: seq<Packet>)
    requires AfterAll(c, events).Some? && !AfterAll(c, events).value.closed
    requires AfterAll(c, events).value.acks != []
    ensures var sent := Send(AfterAll(c, events).value, packets);
            && sent.Sent? && sent.datagrams != []
            && ReadBit(BytesBits(sent.datagrams[0]), 0) == Got(true, 1)
            && ReadU32(BytesBits(sent.datagrams[0]), 1) == Got(LastTime(c.remoteSystemTime, events), 33)
  {
    TimeIsLast(c, events);
    var now := AfterAll(c, events).value;
    hide AfterAll, LastTime, BytesBits, ToBytes, ReadBit, ReadU32, AckBits;
    var ps := Outgoing(now.send, packets);
    hide Outgoing;
    if ps == [] {
      TimeIsWritten(now.acks, now.remoteSystemTime, []);
      assert AckBits(now.acks, now.remoteSystemTime) + [] == AckBits(now.acks, now.remoteSystemTime);
    } else {
      FirstDatagramTime(ps[0], now.acks, now.remoteSystemTime);
    }
  }

  lemma FirstDatagramTime(p: RaknetPacket, acks: seq<Range>, time: u32)
    requires acks != [] && Encodable(p)
    ensures var bits := BytesBits(PacketDatagram(p, acks, time));
            ReadBit(bits, 0) == Got(true, 1) && ReadU32(bits, 1) == Got(time, 33)
  {
    hide AckBits, PacketBits, BytesBits, ToBytes, ReadBit, ReadU32;
    var rest := [false] + PacketBits(p, |HeadBits(acks, time)|);
    TimeIsWritten(acks, time, rest);
    assert AckBits(acks, time) + rest == HeadBits(acks, time) + PacketBits(p, |HeadBits(acks, time)|);
  }
}
