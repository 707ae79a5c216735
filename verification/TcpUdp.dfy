/** The TCP- and UDP-based protocol (src/tcpudp/mod.rs). */
module TcpUdp {
  import opened Words
  import opened Packets
  import opened Bits
  import opened Framing

  // What is sent

  function ReliableMessages(ps: seq<Packet>): seq<Bytes> {
    if ps == [] then []
    else
      var before, last := ReliableMessages(ps[..|ps| - 1]), ps[|ps| - 1];
      if last.reliability.Reliable? || last.reliability.ReliableOrdered? then before + [last.data] else before
  }

  /** The datagram of an unreliable packet, with its 8-bit id. */
  function UdpBytes(seqNum: u32, p: Packet): Bytes {
    if p.reliability.Unreliable? then [0] + p.data else [1] + LeBytes(seqNum, 4) + p.data
  }

  predicate IsUnreliable(p: Packet) {
    p.reliability.Unreliable? || p.reliability.UnreliableSequenced?
  }

  function SequencedCount(ps: seq<Packet>): nat {
    if ps == [] then 0
    else SequencedCount(ps[..|ps| - 1]) + if ps[|ps| - 1].reliability.UnreliableSequenced? then 1 else 0
  }

  /** The datagrams of a list of packets; sequence numbers count up, wrapping, from `seqNum`. */
  function Datagrams(seqNum: u32, ps: seq<Packet>): seq<Bytes> {
    if ps == [] then []
    else
      var init, last := ps[..|ps| - 1], ps[|ps| - 1];
      var before := Datagrams(seqNum, init);
      if IsUnreliable(last) then before + [UdpBytes(Wrap32(seqNum + SequencedCount(init)), last)] else before
  }

  // What is received

  /** A datagram of this protocol; others make the source panic. */
  predicate IsDatagram(d: Bytes) {
    |d| >= 1 && (d[0] == 0 || (d[0] == 1 && |d| >= 5))
  }

  ghost predicate AreDatagrams(ds: seq<Bytes>) {
    forall i :: 0 <= i < |ds| ==> IsDatagram(ds[i])
  }

  function SeqNumOf(d: Bytes): u32
    requires |d| >= 5
  {
    LeShiftedBound(d[1..5], 0);
    LeValue(d[1..5])
  }

  datatype UdpResult = UdpResult(seqNum: u32, packets: seq<Packet>)

  function UdpStep(seqNum: u32, d: Bytes): UdpResult
    requires IsDatagram(d)
  {
    if d[0] == 0 then UdpResult(seqNum, [Packet(Unreliable, d[1..])])
    else if NotOld(SeqNumOf(d), seqNum)
    then UdpResult(Wrap32(SeqNumOf(d) + 1), [Packet(UnreliableSequenced, d[5..])])
    else UdpResult(seqNum, [])
  }

  function UdpRun(seqNum: u32, ds: seq<Bytes>): UdpResult
    requires AreDatagrams(ds)
  {
    if ds == [] then UdpResult(seqNum, [])
    else
      var before := UdpRun(seqNum, ds[..|ds| - 1]);
      var last := UdpStep(before.seqNum, ds[|ds| - 1]);
      UdpResult(last.seqNum, before.packets + last.packets)
  }

  function AsReliableOrdered(messages: seq<Bytes>): (ps: seq<Packet>)
    ensures |ps| == |messages|
  {
    seq(|messages|, i requires 0 <= i < |messages| => Packet(ReliableOrdered, messages[i]))
  }

  /** What comes over TCP is ReliableOrdered, one packet for each message. */
  lemma EachIsOrdered(messages: seq<Bytes>)
    ensures forall i :: 0 <= i < |messages| ==> AsReliableOrdered(messages)[i] == Packet(ReliableOrdered, messages[i])
  {
  }

  lemma NothingReliable()
    ensures AsReliableOrdered([]) == []
  {
  }

  lemma AsReliableOrderedAppend(messages: seq<Bytes>, data: Bytes)
    ensures AsReliableOrdered(messages + [data]) == AsReliableOrdered(messages) + [Packet(ReliableOrdered, data)]
  {
  }

  function UnreliablePackets(ps: seq<Packet>): seq<Packet> {
    if ps == [] then []
    else
      var before, last := UnreliablePackets(ps[..|ps| - 1]), ps[|ps| - 1];
      if IsUnreliable(last) then before + [last] else before
  }

  lemma SeqNumRoundTrip(n: u32, p: Packet)
    requires p.reliability.UnreliableSequenced?
    ensures IsDatagram(UdpBytes(n, p)) && UdpBytes(n, p)[0] == 1
    ensures SeqNumOf(UdpBytes(n, p)) == n && UdpBytes(n, p)[5..] == p.data
  {
    var bytes := LeBytes(n, 4);
    LeBytesShifted(n, 4, 0);
    LowBytesAll(n, 4);
    ShiftLeftAdds(n, 0, 0, 0);
    assert LeValue(bytes) == n;
    hide LeBytes, LeValue, LeShifted;
    assert UdpBytes(n, p)[1..5] == bytes;
  }

  ghost predicate UdpMirrors(seqNum: u32, ps: seq<Packet>) {
    && AreDatagrams(Datagrams(seqNum, ps))
    && UdpRun(seqNum, Datagrams(seqNum, ps)) ==
       UdpResult(Wrap32(seqNum + SequencedCount(ps)), UnreliablePackets(ps))
  }

  lemma UdpMirrorsNext(seqNum: u32, init: seq<Packet>, last: Packet)
    requires UdpMirrors(seqNum, init)
    ensures UdpMirrors(seqNum, init + [last])
  {
    OneMoreDatagram(seqNum, init, last);
    hide UdpRun, UdpBytes, UdpStep, Wrap32, AreDatagrams, IsUnreliable, SequencedCount, IsDatagram;
    hide Datagrams, UnreliablePackets;
    if IsUnreliable(last) {
      UdpOneInOrder(seqNum, init, last);
      UdpRunAppend(seqNum, Datagrams(seqNum, init), UdpBytes(Wrap32(seqNum + SequencedCount(init)), last));
    }
  }

  lemma OneMoreDatagram(seqNum: u32, init: seq<Packet>, last: Packet)
    ensures !IsUnreliable(last) ==>
              && Datagrams(seqNum, init + [last]) == Datagrams(seqNum, init)
              && UnreliablePackets(init + [last]) == UnreliablePackets(init)
              && SequencedCount(init + [last]) == SequencedCount(init)
    ensures IsUnreliable(last) ==>
              && Datagrams(seqNum, init + [last]) ==
                 Datagrams(seqNum, init) + [UdpBytes(Wrap32(seqNum + SequencedCount(init)), last)]
              && UnreliablePackets(init + [last]) == UnreliablePackets(init) + [last]
  {
    hide UdpBytes, Wrap32;
    assert (init + [last])[..|init|] == init;
  }

  /** Receiving the datagrams in the order sent gives back the unreliable packets and stays in step. */
  lemma {:induction false} UdpInOrder(seqNum: u32, ps: seq<Packet>)
    ensures UdpMirrors(seqNum, ps)
  {
    if ps != [] {
      UdpInOrder(seqNum, ps[..|ps| - 1]);
      UdpMirrorsNext(seqNum, ps[..|ps| - 1], ps[|ps| - 1]);
      assert ps[..|ps| - 1] + [ps[|ps| - 1]] == ps;
      hide *;
    }
  }

  lemma UdpRunAppend(seqNum: u32, ds: seq<Bytes>, d: Bytes)
    requires AreDatagrams(ds) && IsDatagram(d)
    ensures AreDatagrams(ds + [d])
    ensures var before := UdpRun(seqNum, ds);
            var last := UdpStep(before.seqNum, d);
            UdpRun(seqNum, ds + [d]) == UdpResult(last.seqNum, before.packets + last.packets)
  {
    hide UdpStep, IsDatagram;
    assert (ds + [d])[..|ds|] == ds;
  }

  lemma UdpOneInOrder(seqNum: u32, init: seq<Packet>, last: Packet)
    requires IsUnreliable(last)
    ensures var n := Wrap32(seqNum + SequencedCount(init));
            && IsDatagram(UdpBytes(n, last))
            && UdpStep(n, UdpBytes(n, last)) == UdpResult(Wrap32(seqNum + SequencedCount(init + [last])), [last])
  {
    var n := Wrap32(seqNum + SequencedCount(init));
    assert (init + [last])[..|init|] == init;
    if last.reliability.UnreliableSequenced? {
      SeqNumRoundTrip(n, last);
      WrapNext(seqNum + SequencedCount(init), 1);
      assert NotOld(n, n);
    } else {
      assert UdpBytes(n, last)[1..] == last.data;
    }
  }

  /**
   * Everything that was sent, received: the reliable messages in order, promoted to ReliableOrdered,
   * then the unreliable packets in order; no byte is left over.
   */
  lemma SentIsReceived(seqNum: u32, ps: seq<Packet>)
    requires forall j :: 0 <= j < |ps| ==> |ps[j].data| < 0x1_0000_0000
    ensures Deframe(Frames(ReliableMessages(ps))) == (ReliableMessages(ps), [])
    ensures AreDatagrams(Datagrams(seqNum, ps))
    ensures UdpRun(seqNum, Datagrams(seqNum, ps)).packets == UnreliablePackets(ps)
    ensures UdpRun(seqNum, Datagrams(seqNum, ps)).seqNum == Wrap32(seqNum + SequencedCount(ps))
  {
    ReliableIsFramable(ps);
    DeframeFrames(ReliableMessages(ps));
    UdpInOrder(seqNum, ps);
  }

  lemma {:induction false} ReliableIsFramable(ps: seq<Packet>)
    requires forall j :: 0 <= j < |ps| ==> |ps[j].data| < 0x1_0000_0000
    ensures Framable(ReliableMessages(ps))
  {
    if ps != [] {
      ReliableIsFramable(ps[..|ps| - 1]);
    }
  }

  lemma UnreliableOrNot(p: Packet)
    ensures IsUnreliable(p) <==> !(p.reliability.Reliable? || p.reliability.ReliableOrdered?)
  {
  }

  lemma SendsNothing(seqNum: u32)
    ensures Frames(ReliableMessages([])) == [] && Datagrams(seqNum, []) == []
    ensures Wrap32(seqNum + SequencedCount([])) == seqNum
  {
  }

  lemma SendsNext(seqNum: u32, ps: seq<Packet>, j: nat)
    requires j < |ps|
    ensures var p, before, after := ps[j], ps[..j], ps[..j + 1];
            && Frames(ReliableMessages(after)) ==
               Frames(ReliableMessages(before)) + (if IsUnreliable(p) then [] else Frame(p.data))
            && Datagrams(seqNum, after) == Datagrams(seqNum, before) +
               (if IsUnreliable(p) then [UdpBytes(Wrap32(seqNum + SequencedCount(before)), p)] else [])
            && Wrap32(seqNum + SequencedCount(after)) ==
               if p.reliability.UnreliableSequenced? then Wrap32(Wrap32(seqNum + SequencedCount(before)) + 1)
               else Wrap32(seqNum + SequencedCount(before))
  {
    hide Wrap32, Frame, UdpBytes, Frames, IsUnreliable;
    assert ps[..j + 1][..j] == ps[..j];
    WrapNext(seqNum + SequencedCount(ps[..j]), 1);
    UnreliableOrNot(ps[j]);
    FramesAppend(ReliableMessages(ps[..j]), ps[j].data);
    var before := ps[..j];
    assert Datagrams(seqNum, before) + [] == Datagrams(seqNum, before);
    assert Frames(ReliableMessages(before)) + [] == Frames(ReliableMessages(before));
  }

  /**
   * The TCP socket: bytes that have arrived and are still unread. A read may return any number of
   * them up to the room in the buffer; zero stands for a read that would block or is at the end.
   */
  class TcpStream {
    var incoming: Bytes
    // the last read returned nothing
    ghost var blocked: bool

    constructor (bytes: Bytes)
      ensures incoming == bytes
    {
      incoming := bytes;
    }

    method Read(buf: array<byte>, from: nat) returns (n: nat)
      requires from < buf.Length
      modifies this, buf
      ensures n <= |old(incoming)| && from + n <= buf.Length
      ensures incoming == old(incoming)[n..]
      ensures blocked <==> n == 0
      ensures buf[..from + n] == old(buf[..from]) + old(incoming)[..n]
    {
      n :| 0 <= n <= |incoming| && from + n <= buf.Length;
      forall i | 0 <= i < n {
        buf[from + i] := incoming[i];
      }
      incoming := incoming[n..];
      blocked := n == 0;
    }
  }

  class Connection {
    const tcp: TcpStream
    var seqNumRecv: u32
    var seqNumSend: u32
    // the packet that was only read in part
    var readingLength: bool
    var offset: nat
    const length: array<byte>
    var buffer: array<byte>

    ghost predicate Valid()
      reads this, length, buffer
    {
      && length.Length == 4 && length != buffer
      && if readingLength then offset < 4
         else offset < buffer.Length && buffer.Length == LeValue(length[..])
    }

    /** The bytes read of the packet in progress. */
    ghost function Pending(): Bytes
      requires Valid()
      reads this, length, buffer
    {
      if readingLength then length[..offset] else length[..] + buffer[..offset]
    }

    constructor (stream: TcpStream)
      ensures Valid() && fresh(length) && fresh(buffer) && tcp == stream
      ensures Pending() == [] && seqNumRecv == seqNumSend == 0
    {
      tcp, seqNumRecv, seqNumSend := stream, 0, 0;
      readingLength, offset := true, 0;
      length, buffer := new byte[4](_ => 0), new byte[0];
    }

    /** Sends packets: the bytes that go to the TCP socket, and the datagrams. */
    method Send(packets: seq<Packet>) returns (stream: Bytes, datagrams: seq<Bytes>)
      modifies this`seqNumSend
      ensures stream == Frames(ReliableMessages(packets))
      ensures datagrams == Datagrams(old(seqNumSend), packets)
      ensures seqNumSend == Wrap32(old(seqNumSend) + SequencedCount(packets))
    {
      SendsNothing(seqNumSend);
      hide Wrap32, Frame, UdpBytes, IsUnreliable, ReliableMessages, Datagrams, SequencedCount, Frames;
      stream, datagrams := [], [];
      assert packets[..0] == [];
      for j := 0 to |packets|
        invariant stream == Frames(ReliableMessages(packets[..j]))
        invariant datagrams == Datagrams(old(seqNumSend), packets[..j])
        invariant seqNumSend == Wrap32(old(seqNumSend) + SequencedCount(packets[..j]))
      {
        SendsNext(old(seqNumSend), packets, j);
        var bytes, sent := SendOne(packets[j]);
        stream, datagrams := stream + bytes, datagrams + sent;
      }
      assert packets[..|packets|] == packets;
    }

    method SendOne(packet: Packet) returns (stream: Bytes, datagrams: seq<Bytes>)
      modifies this`seqNumSend
      ensures stream == if IsUnreliable(packet) then [] else Frame(packet.data)
      ensures datagrams == if IsUnreliable(packet) then [UdpBytes(old(seqNumSend), packet)] else []
      ensures seqNumSend ==
              if packet.reliability.UnreliableSequenced? then Wrap32(old(seqNumSend) + 1) else old(seqNumSend)
    {
      hide LeBytes;
      stream, datagrams := [], [];
      match packet.reliability
      case Unreliable =>
        datagrams := [[0] + packet.data];
      case UnreliableSequenced =>
        var seqNum := seqNumSend;
        seqNumSend := Wrap32(seqNumSend + 1);
        datagrams := [[1] + LeBytes(seqNum, 4) + packet.data];
      case _ =>
        stream := LeBytes(|packet.data|, 4) + packet.data;
    }

    /** Reads datagrams until there are none left. */
    method ReceiveUdp(datagrams: seq<Bytes>) returns (packets: seq<Packet>)
      requires AreDatagrams(datagrams)
      modifies this`seqNumRecv
      ensures UdpResult(seqNumRecv, packets) == UdpRun(old(seqNumRecv), datagrams)
    {
      packets := [];
      for i := 0 to |datagrams|
        invariant UdpResult(seqNumRecv, packets) == UdpRun(old(seqNumRecv), datagrams[..i])
      {
        var d := datagrams[i];
        assert datagrams[..i + 1][..i] == datagrams[..i];
        hide NotOld, LeValue;
        if d[0] == 0 {
          packets := packets + [Packet(Unreliable, d[1..])];
        } else {
          if NotOld(SeqNumOf(d), seqNumRecv) {
            seqNumRecv := Wrap32(SeqNumOf(d) + 1);
            packets := packets + [Packet(UnreliableSequenced, d[5..])];
          } else {
            assert packets + [] == packets;
          }
        }
      }
      assert datagrams[..|datagrams|] == datagrams;
    }

    /** The reading loops of the source: fill the buffer from `offset` on until it is full or a read is empty. */
    method Fill(buf: array<byte>, from: nat) returns (to: nat)
      requires from <= buf.Length
      modifies tcp, buf
      ensures from <= to <= buf.Length && to - from <= |old(tcp.incoming)|
      ensures to < buf.Length ==> tcp.blocked
      ensures tcp.incoming == old(tcp.incoming)[to - from..]
      ensures buf[..to] == old(buf[..from]) + old(tcp.incoming)[..to - from]
    {
      to := from;
      while to < buf.Length
        invariant from <= to <= buf.Length && to - from <= |old(tcp.incoming)|
        invariant tcp.incoming == old(tcp.incoming)[to - from..]
        invariant buf[..to] == old(buf[..from]) + old(tcp.incoming)[..to - from]
      {
        var n := tcp.Read(buf, to);
        if n == 0 {
          return;
        }
        ghost var k := to - from;
        assert old(tcp.incoming)[..k + n] == old(tcp.incoming)[..k] + old(tcp.incoming)[k..][..n];
        to := to + n;
      }
    }

    /** The first half of a round: the length of the next packet, and a buffer for it. */
    method ReadLength() returns (ok: bool, ghost n: nat)
      requires Valid() && readingLength
      modifies this`readingLength, this`offset, this`buffer, tcp, length
      ensures n <= |old(tcp.incoming)| && tcp.incoming == old(tcp.incoming)[n..]
      ensures !ok ==> Valid() && readingLength && buffer == old(buffer) && tcp.blocked
      ensures !ok ==> Pending() == old(Pending()) + old(tcp.incoming)[..n]
      ensures ok ==> n >= 1 && !readingLength && offset == 0 && fresh(buffer) && buffer.Length == LeValue(length[..])
      ensures ok ==> length[..] == old(Pending()) + old(tcp.incoming)[..n]
    {
      hide LeValue;
      ghost var from := offset;
      offset := Fill(length, offset);
      n := offset - from;
      ok := offset == length.Length;
      if ok {
        assert length[..4] == length[..];
        readingLength, offset := false, 0;
        buffer := new byte[LeValue(length[..])](_ => 0);
      }
    }

    /** The second half of a round: the data of the packet. */
    method ReadBody() returns (ok: bool, ghost n: nat)
      requires length.Length == 4 && length != buffer && !readingLength
      requires offset <= buffer.Length && buffer.Length == LeValue(length[..])
      modifies this`offset, tcp, buffer
      ensures n <= |old(tcp.incoming)| && tcp.incoming == old(tcp.incoming)[n..]
      ensures !ok ==> Valid() && tcp.blocked
      ensures ok ==> offset == buffer.Length && (old(offset) < buffer.Length ==> n >= 1)
      ensures offset <= buffer.Length
      ensures length[..] + buffer[..offset] == old(length[..] + buffer[..offset]) + old(tcp.incoming)[..n]
    {
      hide LeValue;
      ghost var from := offset;
      offset := Fill(buffer, offset);
      n := offset - from;
      ok := offset == buffer.Length;
    }

    /** One round of the receiving loop: a whole packet, or fewer bytes than one. */
    method ReadPacket() returns (ok: bool, data: Bytes, ghost n: nat, ghost prefix: Bytes)
      requires Valid()
      modifies this`readingLength, this`offset, this`buffer, tcp, length, buffer
      ensures Valid() && (buffer == old(buffer) || fresh(buffer))
      ensures n <= |old(tcp.incoming)| && tcp.incoming == old(tcp.incoming)[n..]
      ensures !ok ==> tcp.blocked && Pending() == old(Pending()) + old(tcp.incoming)[..n]
      ensures ok ==> n >= 1 && Pending() == [] && |prefix| == 4 && |data| == LeValue(prefix)
      ensures ok ==> prefix + data == old(Pending()) + old(tcp.incoming)[..n]
    {
      hide LeValue;
      n, prefix, data := 0, [], [];
      ghost var stream := tcp.incoming;
      if readingLength {
        ok, n := ReadLength();
        if !ok {
          return;
        }
        assert length[..] + buffer[..0] == length[..];
      }
      ghost var more;
      ok, more := ReadBody();
      assert stream[..n] + stream[n..][..more] == stream[..n + more];
      n := n + more;
      if ok {
        assert buffer[..offset] == buffer[..];
        prefix, data := length[..], buffer[..];
        readingLength, offset := true, 0;
        buffer := new byte[0];
      }
    }

    /**
     * Reads until a read returns nothing: what was consumed, put after the bytes pending from earlier
     * calls, is exactly the new messages' frames and the bytes pending now, which are no whole frame.
     */
    method ReceiveTcp() returns (packets: seq<Packet>)
      requires Valid()
      modifies this`readingLength, this`offset, this`buffer, tcp, length, buffer
      ensures Valid() && tcp.blocked && |tcp.incoming| <= |old(tcp.incoming)|
      ensures var k := |old(tcp.incoming)| - |tcp.incoming|;
              && tcp.incoming == old(tcp.incoming)[k..]
              && var (messages, rest) := Deframe(old(Pending()) + old(tcp.incoming)[..k]);
              && packets == AsReliableOrdered(messages) && Pending() == rest
              && |packets| == |messages|
              && (forall i :: 0 <= i < |packets| ==> packets[i] == Packet(ReliableOrdered, messages[i]))
              && ParsesTo(old(Pending()) + old(tcp.incoming)[..k], messages, rest)
    {
      NothingReliable();
      hide Progress, LeValue, HasFrame, Deframe, AsReliableOrdered, ParsesTo;
      packets := [];
      ghost var messages: seq<Bytes> := [];
      ghost var start, stream, k := Pending(), tcp.incoming, 0;
      ProgressStarts(start, stream);
      while true
        invariant Valid() && (buffer == old(buffer) || fresh(buffer))
        invariant k <= |stream| && tcp.incoming == stream[k..]
        invariant Progress(start + stream[..k], messages, Pending())
        invariant packets == AsReliableOrdered(messages)
        decreases |tcp.incoming|
      {
        ghost var pending := Pending();
        var ok, data, n, prefix := ReadPacket();
        k := ProgressAdvances(start, stream, k, n, messages, pending);
        if !ok {
          PendingIsPartial();
          ProgressPends(start + stream[..k], messages, Pending());
          DeframeIsExact(start + stream[..k]);
          EachIsOrdered(messages);
          return;
        }
        ProgressCompletes(start + stream[..k], messages, prefix, data);
        AsReliableOrderedAppend(messages, data);
        messages := messages + [data];
        packets := packets + [Packet(ReliableOrdered, data)];
      }
    }

    lemma PendingIsPartial()
      requires Valid()
      ensures |Pending()| < 4 || |Pending()| - 4 < LeValue(Pending()[..4])
    {
      hide LeValue;
      if !readingLength {
        assert Pending()[..4] == length[..];
      }
    }
  }
}
