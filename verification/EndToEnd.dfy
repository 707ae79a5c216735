/** From one connection's send to the other's received packets, through the bytes of the datagrams. */
module EndToEnd {
  import opened Words
  import opened Packets
  import opened Bits
  import opened Compressed
  import opened PacketCodec
  import opened RangeLists
  import opened Sending
  import opened Receiving
  import opened InOrder
  import opened Datagrams
  import Connections
  import opened Fitting
  import opened WireRuns
  import opened Sessions
  import opened Delivery
  import opened Unordered
  import opened Permutations

  // Receiving datagrams one after the other

  /** A datagram whose header cannot be read is skipped. */
  function Collect(c: Connections.ConnState, ds: seq<Bytes>): Connections.Handling {
    if ds == [] then Connections.Handled(c, [])
    else
      match Collect(c, ds[..|ds| - 1])
      case Handled(c', before) =>
        (match Connections.Handle(c', ds[|ds| - 1])
         case Handled(c'', more) => Connections.Handled(c'', before + more)
         case Failed => Connections.Handled(c', before)
         case Fault => Connections.Fault)
      case h => h
  }

  /** A packet with whatever acknowledgements and time it was sent with. */
  ghost predicate Carries(d: Bytes, p: RaknetPacket) {
    Encodable(p) && exists acks, time :: |acks| < 0x1_0000 && d == PacketDatagram(p, acks, time)
  }

  /** Acknowledgements and no packet. */
  ghost predicate AcksAlone(d: Bytes) {
    exists acks, time :: 0 < |acks| < 0x1_0000 && d == ToBytes(AckBits(acks, time))
  }

  /** The datagrams carry the packets, one each, in order, except for those with acknowledgements alone. */
  ghost predicate Carry(ds: seq<Bytes>, ps: seq<RaknetPacket>) {
    if ds == [] then ps == []
    else
      var init, last := ds[..|ds| - 1], ds[|ds| - 1];
      || (AcksAlone(last) && Carry(init, ps))
      || (ps != [] && Carries(last, ps[|ps| - 1]) && Carry(init, ps[..|ps| - 1]))
  }

  lemma {:induction false} EachCarries(ds: seq<Bytes>, ps: seq<RaknetPacket>)
    requires |ds| == |ps| && forall i :: 0 <= i < |ds| ==> Carries(ds[i], ps[i])
    ensures Carry(ds, ps)
  {
    hide Carries, AcksAlone;
    if ds != [] {
      EachCarries(ds[..|ds| - 1], ps[..|ps| - 1]);
    }
  }

  /** What a connection makes of a receiver's outcome. */
  function Lifted(c: Connections.ConnState, ps: seq<RaknetPacket>, o: Outcome): Connections.Handling {
    match o
    case Panic => Connections.Fault
    case Done(t, out, disconnect) =>
      Connections.Handled(
        Connections.ConnState(
          c.closed || disconnect, c.remoteSystemTime, InsertedAll(c.acks, AckNumbers(ps)), t, c.send),
        out)
  }

  lemma HandleCarried(c: Connections.ConnState, d: Bytes, p: RaknetPacket)
    requires Carries(d, p)
    ensures Connections.Handle(c, d) == Connections.Process(c, c.remoteSystemTime, [GarbledPacket(p)])
  {
    hide PacketDatagram, ReadHeader, ParsePackets, BytesBits, GarbledPacket, Connections.Process, HeadBits, Encodable;
    var acks, time :| |acks| < 0x1_0000 && d == PacketDatagram(p, acks, time);
    DatagramCarries(p, acks, time);
  }

  lemma ProcessIsLifted(c: Connections.ConnState, before: seq<RaknetPacket>, p: RaknetPacket, o: Outcome)
    requires o == Run(c.recv, before)
    ensures Lifted(c, before + [p], Run(c.recv, before + [p])) ==
            match Lifted(c, before, o)
            case Handled(c', out) =>
              (match Connections.Process(c', c'.remoteSystemTime, [p])
               case Handled(c'', more) => Connections.Handled(c'', out + more)
               case h => h)
            case h => h
  {
    hide Step, Inserted;
    RunConcat(c.recv, before, [p]);
    assert (before + [p])[..|before|] == before;
    assert [p][..0] == [];
    if p.NeedsAck() {
      InsertedAllAppend(c.acks, AckNumbers(before), p.messageNumber);
      assert AckNumbers([p]) == [p.messageNumber];
      InsertedAllAppend(InsertedAll(c.acks, AckNumbers(before)), [], p.messageNumber);
      assert [] + [p.messageNumber] == [p.messageNumber];
    } else {
      assert AckNumbers([p]) == [];
    }
  }

  /** Receiving datagrams is running the receiver on the packets they carry, split headers garbled. */
  lemma {:induction false} CollectIsRun(c: Connections.ConnState, ds: seq<Bytes>, ps: seq<RaknetPacket>)
    requires Carry(ds, ps)
    ensures Collect(c, ds) == Lifted(c, AllGarbled(ps), Run(c.recv, AllGarbled(ps)))
  {
    hide Collect, Run, Lifted, Carries, AcksAlone, AllGarbled;
    if ds == [] {
      CollectNothing(c);
    } else {
      var init, last := ds[..|ds| - 1], ds[|ds| - 1];
      if AcksAlone(last) && Carry(init, ps) {
        CollectIsRun(c, init, ps);
        CollectAcks(c, ds);
      } else {
        CollectIsRun(c, init, ps[..|ps| - 1]);
        CollectPacket(c, ds, ps);
      }
    }
  }

  lemma CollectNothing(c: Connections.ConnState)
    ensures Collect(c, []) == Lifted(c, AllGarbled([]), Run(c.recv, AllGarbled([])))
  {
    assert AllGarbled([]) == [];
  }

  lemma CollectAcks(c: Connections.ConnState, ds: seq<Bytes>)
    requires ds != [] && AcksAlone(ds[|ds| - 1])
    ensures Collect(c, ds) == Collect(c, ds[..|ds| - 1])
  {
    hide Connections.Handle, AckBits, ToBytes;
    var acks, time :| 0 < |acks| < 0x1_0000 && ds[|ds| - 1] == ToBytes(AckBits(acks, time));
    var h := Collect(c, ds[..|ds| - 1]);
    if h.Handled? {
      Connections.AcksAloneChangeNothing(h.state, acks, time);
      assert h.packets + [] == h.packets;
    }
  }

  lemma CollectPacket(c: Connections.ConnState, ds: seq<Bytes>, ps: seq<RaknetPacket>)
    requires ds != [] && ps != [] && Carries(ds[|ds| - 1], ps[|ps| - 1])
    requires var init := AllGarbled(ps[..|ps| - 1]);
             Collect(c, ds[..|ds| - 1]) == Lifted(c, init, Run(c.recv, init))
    ensures Collect(c, ds) == Lifted(c, AllGarbled(ps), Run(c.recv, AllGarbled(ps)))
  {
    hide *;
    CollectUnfold(c, ds);
    var n, m := |ds| - 1, |ps| - 1;
    var init, g := AllGarbled(ps[..m]), GarbledPacket(ps[m]);
    LiftedDone(c, init, Run(c.recv, init));
    ProcessIsLifted(c, init, g, Run(c.recv, init));
    if Collect(c, ds[..n]).Handled? {
      HandleCarried(Collect(c, ds[..n]).state, ds[n], ps[m]);
      ProcessReads(Collect(c, ds[..n]).state, g);
    }
    assert AllGarbled(ps) == init + [g];
  }

  lemma ProcessReads(c: Connections.ConnState, p: RaknetPacket)
    ensures !Connections.Process(c, c.remoteSystemTime, [p]).Failed?
  {
    hide Run, InsertedAll, AckNumbers;
  }

  lemma CollectUnfold(c: Connections.ConnState, ds: seq<Bytes>)
    requires ds != []
    ensures Collect(c, ds) ==
            match Collect(c, ds[..|ds| - 1])
            case Handled(c', before) =>
              (match Connections.Handle(c', ds[|ds| - 1])
               case Handled(c'', more) => Connections.Handled(c'', before + more)
               case Failed => Connections.Handled(c', before)
               case Fault => Connections.Fault)
            case h => h
  {
    hide Connections.Handle;
  }

  lemma LiftedDone(c: Connections.ConnState, ps: seq<RaknetPacket>, o: Outcome)
    ensures Lifted(c, ps, o).Handled? ==> Lifted(c, ps, o).state.remoteSystemTime == c.remoteSystemTime
  {
  }

  /** The datagrams of one call carry its packets. */
  lemma DatagramsCarry(ps: seq<RaknetPacket>, acks: seq<Range>, time: u32)
    requires AllEncodable(ps) && |acks| < 0x1_0000
    ensures Carry(DatagramsOf(ps, acks, time), ps)
  {
    hide PacketDatagram, Encodable, AckBits, ToBytes;
    var ds := DatagramsOf(ps, acks, time);
    if ps == [] {
      if acks != [] {
        assert AcksAlone(ds[0]) && ds[..0] == [];
      }
    } else {
      forall i | 0 <= i < |ps| ensures Carries(ds[i], ps[i]) {
        assert Encodable(ps[i]);
      }
      EachCarries(ds, ps);
    }
  }

  // The theorems

  /**
   * What one connection sends in a call, the other receives unchanged if and only if no message is a
   * disconnect notification and none takes more than 255 chunks; both sides are then open and in
   * step again. In any case no more packets come out than there are messages without these faults.
   */
  lemma EndToEndIff(a: Connections.ConnState, b: Connections.ConnState, packets: seq<Packet>)
    requires !a.closed && !b.closed && |a.acks| < 0x1_0000 && Synchronised(a.send, b.recv)
    requires AllAddressable(packets)
    ensures var sent := Connections.Send(a, packets);
            && sent.Sent?
            && var h := Collect(b, sent.datagrams);
            && (h.Handled? && h.packets == packets <==> NoDisconnects(packets) && AllFit(packets))
            && (h.Handled? && h.packets == packets ==>
                  !h.state.closed && Synchronised(sent.state.send, h.state.recv))
            && (h.Handled? ==> |h.packets| <= Arriving(packets))
  {
    var ps := Connections.Outgoing(a.send, packets);
    hide DatagramsOf, Run, Wire, StateAfter, InsertedAll, AckNumbers, Carry, AllEncodable, FitsWire, Addressable;
    DatagramsCarry(ps, a.acks, a.remoteSystemTime);
    CollectIsRun(b, Connections.Send(a, packets).datagrams, ps);
    ArrivingIff(packets);
    if AllFit(packets) {
      FittingWireIsExact(a.send, packets);
      InOrderIdentityIff(a.send, b.recv, packets);
    }
    RunGrows(a.send, b.recv, packets);
  }

  /** The disconnect notification a dropped connection sends closes its peer and delivers nothing. */
  lemma DropClosesPeer(a: Connections.ConnState, b: Connections.ConnState)
    requires !a.closed && |a.acks| < 0x1_0000
    ensures var sent := Connections.Send(a, [DropNotice()]);
            && sent.Sent?
            && var h := Collect(b, sent.datagrams);
            h.Handled? && h.state.closed && h.packets == []
  {
    var p := DropNotice();
    var fs := Fragments(a.send, p);
    NoticeFits(a.send);
    OnlyFragmentOf(a.send, p);
    WholeMessage(a.send, p, b.recv);
    hide Fragments, GarbledPacket, DatagramsOf, Run, InsertedAll, AckNumbers, Carry, AllEncodable, NeedsSplit;
    hide Addressable, Collect, Pieces, Connections.Outgoing;
    DatagramsCarry(fs, a.acks, a.remoteSystemTime);
    CollectIsRun(b, DatagramsOf(fs, a.acks, a.remoteSystemTime), fs);
  }

  lemma NoticeFits(s: SendState)
    ensures Addressable(DropNotice()) && !NeedsSplit(DropNotice())
    ensures AllGarbled(Fragments(s, DropNotice())) == Fragments(s, DropNotice())
  {
    assert !NeedsSplit(DropNotice());
    hide Fragments;
    PiecesAreExact(DropNotice());
    GarbledIsExact(s, DropNotice());
  }

  /** What a dropped connection sends. */
  function DropNotice(): (p: Packet)
    ensures p == Packet(Unreliable, [19])
  {
    Packet(Unreliable, [DISCONNECT_NOTIFICATION])
  }

  lemma OnlyFragmentOf(s: SendState, p: Packet)
    requires !NeedsSplit(p)
    ensures |Fragments(s, p)| == 1 && AllEncodable(Fragments(s, p))
    ensures Connections.Outgoing(s, [p]) == Fragments(s, p)
  {
    FragmentsEncodable(s, p);
    assert [p][..0] == [];
    assert Wire(s, [p]) == [Fragments(s, p)];
    OneBatch(Fragments(s, p));
  }

  /** Over datagrams, a session whose messages fit is received as the receiver alone would receive it. */
  lemma SessionOverDatagrams(s: Session, c: Connections.ConnState, arrivals: seq<Arrival>, ds: seq<Bytes>)
    requires s.Valid() && AllFit(s.sent) && s.HasAll(arrivals) && Carry(ds, s.PacketsOf(arrivals))
    ensures Collect(c, ds) == Lifted(c, s.PacketsOf(arrivals), Outcomes(s, c.recv, arrivals))
  {
    var ps := s.PacketsOf(arrivals);
    forall i | 0 <= i < |ps| ensures GarbledPacket(ps[i]) == ps[i] {
      FragmentsExact(s.Before(arrivals[i].msg), s.sent[arrivals[i].msg], arrivals[i].frag);
    }
    hide GarbledPacket, Run, Lifted, Carry, Session.Frags, FitsWire;
    assert AllGarbled(ps) == ps;
    CollectIsRun(c, ds, ps);
  }

  /**
   * Prefix safety over datagrams: lost, repeated and reordered datagrams, each with whatever
   * acknowledgements it was sent with, deliver a prefix of the ordered messages, as long as no
   * message is so large that its garbled indices run past its garbled count.
   */
  lemma PrefixSafetyOverDatagrams(s: Session, c: Connections.ConnState, arrivals: seq<Arrival>, ds: seq<Bytes>)
    requires s.Valid() && InStep(s, c.recv) && AllInRange(s.sent)
    requires s.HasAll(arrivals) && WireOrderly(s, c.recv, arrivals) && Carry(ds, s.PacketsOf(arrivals))
    ensures Collect(c, ds).Handled? && Ordered(Collect(c, ds).packets) <= Ordered(s.sent)
  {
    hide Collect, Run, Ordered, WireOrderly, Carry, AllInRange, InsertedAll, AckNumbers;
    CollectIsRun(c, ds, s.PacketsOf(arrivals));
    WirePrefixSafety(s, c.recv, arrivals);
  }

  /** Any-order delivery over datagrams: the datagrams of a small session, rearranged at will. */
  lemma AnyPermutationOverDatagrams(s: Session, c: Connections.ConnState, ps: seq<RaknetPacket>, ds: seq<Bytes>)
    requires s.Valid() && InStep(s, c.recv) && Small(s) && NoDisconnects(s.sent) && AllFit(s.sent)
    requires multiset(ps) == multiset(Flatten(Wire(s.start, s.sent))) && Carry(ds, ps)
    ensures var h := Collect(c, ds);
            && h.Handled? && h.state.closed == c.closed
            && Ordered(h.packets) == Ordered(s.sent)
            && multiset(Plain(h.packets)) == multiset(Plain(s.sent))
            && h.state.recv.queue == map[] && h.state.recv.splits == map[]
  {
    hide Collect, Run, Wire, Ordered, Plain, Carry, InsertedAll, AckNumbers;
    var arrivals := ArrivalsOf(s, ps);
    SessionOverDatagrams(s, c, arrivals, ds);
    OneBatch(ps);
    AnyPermutationDelivers(s, c.recv, [ps]);
    BatchingIsIrrelevant(c.recv, [ps]);
  }

  lemma OneBatch(ps: seq<RaknetPacket>)
    ensures Flatten([ps]) == ps
  {
    assert Flatten([ps]) == Flatten([]) + ps;
  }
}
