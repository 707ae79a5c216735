/** Which numbers a peer acknowledges: those of the fragments of the reliable messages it was sent. */
module Acknowledging {
  import opened Words
  import opened Packets
  import opened PacketCodec
  import opened RangeLists
  import opened Sending
  import opened Receiving
  import opened Sessions
  import opened Delivery
  import opened Permutations
  import opened Datagrams
  import opened AckConservation
  import opened EndToEnd
  import Connections

  /** The position of a fragment among all the packets of the session. */
  function Position(s: Session, a: Arrival): nat
    requires s.Has(a)
  {
    |Flatten(Wire(s.start, s.sent[..a.msg]))| + a.frag
  }

  /** The numbers of the arriving fragments of Reliable and ReliableOrdered messages. */
  function ReliableNumbers(s: Session, arrivals: seq<Arrival>): seq<u32>
    requires s.HasAll(arrivals)
  {
    if arrivals == [] then []
    else
      var before, a := ReliableNumbers(s, arrivals[..|arrivals| - 1]), arrivals[|arrivals| - 1];
      match s.sent[a.msg].reliability
      case Reliable => before + [Wrap32(s.start.messageNumber + Position(s, a))]
      case ReliableOrdered => before + [Wrap32(s.start.messageNumber + Position(s, a))]
      case Unreliable => before
      case UnreliableSequenced => before
  }

  /** A fragment's message number is its wrapped position. */
  lemma NumberIsPosition(s: Session, a: Arrival)
    requires s.Has(a)
    ensures s.At(a).messageNumber == Wrap32(s.start.messageNumber + Position(s, a))
  {
    hide StateAfter, Wire, Flatten, Fragments, Wrap32;
    var n := |Flatten(Wire(s.start, s.sent[..a.msg]))|;
    NumbersCount(s.start, s.sent[..a.msg]);
    FragmentsConsecutive(s.Before(a.msg), s.sent[a.msg]);
    AdvancedNumber(s.start.messageNumber, n, a.frag);
  }

  lemma KindOfFragment(s: Session, a: Arrival)
    requires s.Has(a)
    ensures s.At(a).relData.Kind() == s.sent[a.msg].reliability
  {
    hide StateAfter, Pieces, NeedsSplit;
  }

  lemma {:induction false} AckNumbersOfSession(s: Session, arrivals: seq<Arrival>)
    requires s.HasAll(arrivals)
    ensures AckNumbers(AllGarbled(s.PacketsOf(arrivals))) == ReliableNumbers(s, arrivals)
  {
    hide AckNumbers, Position, Session.Frags, GarbledPacket;
    if arrivals == [] {
      AckNumbersAre([], RaknetPacket(0, UnreliableData, None, []));
      assert AllGarbled(s.PacketsOf([])) == [];
    } else {
      var before, a := arrivals[..|arrivals| - 1], arrivals[|arrivals| - 1];
      AckNumbersOfSession(s, before);
      NumberIsPosition(s, a);
      KindOfFragment(s, a);
      GarbledKeeps(s.At(a));
      var ps := AllGarbled(s.PacketsOf(before));
      AckNumbersAre(ps, GarbledPacket(s.At(a)));
      assert AllGarbled(s.PacketsOf(arrivals)) == ps + [GarbledPacket(s.At(a))];
    }
  }

  lemma GarbledKeeps(p: RaknetPacket)
    ensures GarbledPacket(p).messageNumber == p.messageNumber && GarbledPacket(p).relData == p.relData
  {
  }

  /** What a datagram list acknowledges, in its first datagram. */
  function Written(ds: seq<Bytes>): seq<u32> {
    if ds == [] then [] else AcksIn(ds[0])
  }

  /**
   * A peer that has received fragments of a session, whatever was lost, repeated and reordered,
   * acknowledges with its next send the numbers of those of Reliable and ReliableOrdered messages,
   * in its first datagram, and no others anywhere.
   */
  lemma PeerAcknowledges(
      s: Session, b: Connections.ConnState, arrivals: seq<Arrival>, ds: seq<Bytes>, packets: seq<Packet>)
    requires s.HasAll(arrivals) && Carry(ds, s.PacketsOf(arrivals)) && b.acks == []
    requires var h := Collect(b, ds); h.Handled? && !h.state.closed && |h.state.acks| < 0x1_0000
    ensures var sent := Connections.Send(Collect(b, ds).state, packets);
            && sent.Sent?
            && AcknowledgedOnce(ReliableNumbers(s, arrivals), Written(sent.datagrams))
            && (forall i :: 0 < i < |sent.datagrams| ==> AcksIn(sent.datagrams[i]) == [])
  {
    var now, nums := Collect(b, ds).state, ReliableNumbers(s, arrivals);
    hide AcknowledgedOnce, AcksIn, InsertedAll, Enumerated, DatagramsOf, Carry, Collect, Run, AckNumbers, Session.Frags;
    hide ReliableNumbers, AllGarbled, AllEncodable;
    CollectIsRun(b, ds, s.PacketsOf(arrivals));
    AckNumbersOfSession(s, arrivals);
    assert now.acks == InsertedAll([], nums);
    ListAcknowledges(nums);
    FirstAcksOnly(Connections.Outgoing(now.send, packets), now.acks, now.remoteSystemTime);
    if Connections.Send(now, packets).datagrams == [] {
      NothingEnumerated();
    }
  }

  lemma NothingEnumerated()
    ensures Enumerated(InsertedAll([], [])) == []
  {
  }

  // Different packets have different numbers

  lemma PositionIsOffset(s: Session, a: Arrival)
    requires s.Has(a)
    ensures var w := Wire(s.start, s.sent);
            && |w| == |s.sent| && a.frag < |w[a.msg]|
            && Position(s, a) == Offset(w, a.msg) + a.frag < |Flatten(w)|
            && Locate(w, Position(s, a)) == a
  {
    hide Wire, Flatten, Locate, Session.Frags;
    var w := Wire(s.start, s.sent);
    WirePrefix(s.start, s.sent, a.msg);
    WireIsFrags(s, a.msg);
    LocateOffset(w, a.msg, a.frag);
  }

  lemma NumbersDiffer(s: Session, a: Arrival, b: Arrival)
    requires s.Has(a) && s.Has(b) && a != b && |Flatten(Wire(s.start, s.sent))| <= 0x1_0000_0000
    ensures Wrap32(s.start.messageNumber + Position(s, a)) != Wrap32(s.start.messageNumber + Position(s, b))
  {
    hide *;
    PositionIsOffset(s, a);
    PositionIsOffset(s, b);
    WrapsDiffer(s.start.messageNumber, Position(s, a), Position(s, b));
  }

  lemma WrapsDiffer(base: u32, m: nat, n: nat)
    requires m != n && m < 0x1_0000_0000 && n < 0x1_0000_0000
    ensures Wrap32(base + m) != Wrap32(base + n)
  {
  }

  lemma {:induction false} NumbersAreOf(s: Session, arrivals: seq<Arrival>, x: u32)
    requires s.HasAll(arrivals) && x in ReliableNumbers(s, arrivals)
    ensures exists a :: a in arrivals && s.Has(a) && x == Wrap32(s.start.messageNumber + Position(s, a))
  {
    hide Position, Session.Frags, Wrap32;
    var before, last := arrivals[..|arrivals| - 1], arrivals[|arrivals| - 1];
    if x in ReliableNumbers(s, before) {
      NumbersAreOf(s, before, x);
    } else {
      assert last in arrivals && s.Has(last);
    }
  }

  lemma {:induction false} NumbersDistinct(s: Session, arrivals: seq<Arrival>)
    requires s.HasAll(arrivals) && Unrepeated(arrivals) && |Flatten(Wire(s.start, s.sent))| <= 0x1_0000_0000
    ensures Distinct(ReliableNumbers(s, arrivals))
  {
    hide Position, Session.Frags, Wrap32, Wire, Flatten;
    if arrivals != [] {
      var before, last := arrivals[..|arrivals| - 1], arrivals[|arrivals| - 1];
      NumbersDistinct(s, before);
      var x := Wrap32(s.start.messageNumber + Position(s, last));
      if x in ReliableNumbers(s, before) {
        NumbersAreOf(s, before, x);
        var a :| a in before && s.Has(a) && x == Wrap32(s.start.messageNumber + Position(s, a));
        NumbersDiffer(s, a, last);
        assert false;
      }
    }
  }

  /**
   * In a session of at most 2^32 packets, those of the reliable ones that arrived, none twice, are
   * acknowledged exactly once each.
   */
  lemma EachIsAcknowledged(
      s: Session, b: Connections.ConnState, arrivals: seq<Arrival>, ds: seq<Bytes>, packets: seq<Packet>)
    requires s.HasAll(arrivals) && Carry(ds, s.PacketsOf(arrivals)) && b.acks == []
    requires var h := Collect(b, ds); h.Handled? && !h.state.closed && |h.state.acks| < 0x1_0000
    requires Unrepeated(arrivals) && |Flatten(Wire(s.start, s.sent))| <= 0x1_0000_0000
    ensures var sent := Connections.Send(Collect(b, ds).state, packets);
            && sent.Sent?
            && multiset(Written(sent.datagrams)) == multiset(ReliableNumbers(s, arrivals))
            && StrictlyIncreasing(Written(sent.datagrams))
  {
    PeerAcknowledges(s, b, arrivals, ds, packets);
    NumbersDistinct(s, arrivals);
    hide Collect, ReliableNumbers, Written, Kept, Distinct, StrictlyIncreasing, Carry, Wire;
  }
}
