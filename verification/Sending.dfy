/** The sender (src/raknet/send.rs): wrapping counters, and splitting of messages that do not fit a datagram. */
module Sending {
  import opened Words
  import opened Packets

  const MAX_PACKET_SIZE: nat := 1200

  datatype SendState = SendState(messageNumber: u32, splitPacketIndex: u16, unrelSeqIndex: u32, relOrdIndex: u32)

  const INITIAL: SendState := SendState(0, 0, 0, 0)

  /** The header size in bytes the sender reckons with. */
  function HeaderLen(rel: Reliability, isSplitPacket: bool): nat {
    var ordering := if rel.UnreliableSequenced? || rel.ReliableOrdered? then 5 + 32 else 0;
    var split := if isSplitPacket then 16 + 32 + 32 + 16 else 0;
    (32 + 3 + ordering + 1 + split) / 8 + 1
  }

  predicate NeedsSplit(p: Packet) {
    HeaderLen(p.reliability, false) + |p.data| > MAX_PACKET_SIZE
  }

  function ChunkSize(rel: Reliability): (size: nat)
    ensures size == if rel.UnreliableSequenced? || rel.ReliableOrdered? then 1178 else 1183
  {
    MAX_PACKET_SIZE - HeaderLen(rel, true)
  }

  /** Consecutive pieces of at most `size` bytes. */
  function Chunks(data: Bytes, size: nat): seq<Bytes>
    requires size > 0
  {
    if data == [] then []
    else if |data| <= size then [data]
    else [data[..size]] + Chunks(data[size..], size)
  }

  /** The ordering data of the next message of a reliability. */
  function RelDataOf(s: SendState, rel: Reliability): ReliabilityData {
    match rel
    case Unreliable => UnreliableData
    case UnreliableSequenced => UnreliableSequencedData(s.unrelSeqIndex)
    case Reliable => ReliableData
    case ReliableOrdered => ReliableOrderedData(s.relOrdIndex)
  }

  /** The counters after a message of a reliability went out as `n` packets. */
  function Advanced(s: SendState, p: Packet, n: nat): SendState {
    SendState(
      Wrap32(s.messageNumber + n),
      if NeedsSplit(p) then Wrap16(s.splitPacketIndex + 1) else s.splitPacketIndex,
      if p.reliability.UnreliableSequenced? then Wrap32(s.unrelSeqIndex + 1) else s.unrelSeqIndex,
      if p.reliability.ReliableOrdered? then Wrap32(s.relOrdIndex + 1) else s.relOrdIndex)
  }

  function Pieces(p: Packet): seq<Bytes> {
    if NeedsSplit(p) then Chunks(p.data, ChunkSize(p.reliability)) else [p.data]
  }

  /** Fragment `i` of message `p`; the index and the count are cut to 32 bits. */
  function Fragment(s: SendState, p: Packet, i: nat): RaknetPacket
    requires i < |Pieces(p)|
  {
    RaknetPacket(
      Wrap32(s.messageNumber + i),
      RelDataOf(s, p.reliability),
      if NeedsSplit(p) then Some(SplitPacketInfo(s.splitPacketIndex, Wrap32(i), Wrap32(|Pieces(p)|))) else None,
      Pieces(p)[i])
  }

  /** What one message becomes on the wire. */
  function Fragments(s: SendState, p: Packet): (fs: seq<RaknetPacket>)
    ensures |fs| == |Pieces(p)|
  {
    seq(|Pieces(p)|, i requires 0 <= i < |Pieces(p)| => Fragment(s, p, i))
  }

  /** The counters after a list of messages. */
  function StateAfter(s: SendState, ps: seq<Packet>): SendState {
    if ps == [] then s
    else
      var last := ps[|ps| - 1];
      Advanced(StateAfter(s, ps[..|ps| - 1]), last, |Pieces(last)|)
  }

  /** Everything a list of messages becomes on the wire, message by message. */
  function Wire(s: SendState, ps: seq<Packet>): (w: seq<seq<RaknetPacket>>)
    ensures |w| == |ps|
  {
    if ps == [] then []
    else
      var init := ps[..|ps| - 1];
      Wire(s, init) + [Fragments(StateAfter(s, init), ps[|ps| - 1])]
  }

  // Splitting is exact

  lemma {:induction false} ChunksConcatenate(data: Bytes, size: nat)
    requires size > 0
    ensures Flatten(Chunks(data, size)) == data
    decreases |data|
  {
    if |data| > size {
      ChunksConcatenate(data[size..], size);
      FlattenCons(data[..size], Chunks(data[size..], size));
    } else if data != [] {
      assert Flatten([data]) == Flatten([]) + data;
    }
  }

  lemma {:induction false} ChunkSizes(data: Bytes, size: nat)
    requires size > 0
    ensures forall i :: 0 <= i < |Chunks(data, size)| ==> 0 < |Chunks(data, size)[i]| <= size
    decreases |data|
  {
    if |data| > size {
      ChunkSizes(data[size..], size);
    }
  }

  /** All chunks but the last are full. */
  lemma {:induction false} ChunkLength(data: Bytes, size: nat, i: nat)
    requires size > 0 && i < |Chunks(data, size)|
    ensures 0 <= i * size < |data|
    ensures |Chunks(data, size)[i]| == if (i + 1) * size <= |data| then size else |data| - i * size
    decreases |data|
  {
    if |data| > size && i > 0 {
      ChunkLength(data[size..], size, i - 1);
      assert i * size == (i - 1) * size + size;
    }
  }

  /** The number of chunks is the data length divided by the chunk size, rounded up. */
  lemma {:induction false} ChunkCount(data: Bytes, size: nat, k: nat)
    requires size > 0
    ensures |Chunks(data, size)| <= k <==> |data| <= k * size
    decreases |data|
  {
    if |data| > size {
      if k > 0 {
        ChunkCount(data[size..], size, k - 1);
        assert k * size == (k - 1) * size + size;
      }
    } else if k > 0 {
      assert k * size == (k - 1) * size + size;
    }
  }

  /**
   * Splitting a message is exact: the pieces are its data, a split message has at least two of them,
   * and none exceeds its chunk size.
   */
  lemma PiecesAreExact(p: Packet)
    ensures Flatten(Pieces(p)) == p.data
    ensures if NeedsSplit(p) then |Pieces(p)| >= 2 else |Pieces(p)| == 1
    ensures NeedsSplit(p) ==> |Pieces(p)| <= |p.data|
    ensures NeedsSplit(p) ==> forall i :: 0 <= i < |Pieces(p)| ==> 0 < |Pieces(p)[i]| <= ChunkSize(p.reliability)
  {
    if NeedsSplit(p) {
      var size := ChunkSize(p.reliability);
      ChunksConcatenate(p.data, size);
      ChunkSizes(p.data, size);
      ChunkCount(p.data, size, 1);
      ChunkCount(p.data, size, |p.data|);
    } else {
      assert Flatten([p.data]) == Flatten([]) + p.data;
    }
  }

  /** Messages whose fragment count fits the 32-bit count field; `ChunkCount` gives their length. */
  predicate Addressable(p: Packet) {
    |Pieces(p)| < 0x1_0000_0000
  }

  /**
   * The fragments of a message share one ordering index and one split id, carry indices 0..count-1
   * and a true count, and take consecutive wrapping message numbers.
   */
  lemma FragmentsAreExact(s: SendState, p: Packet, i: nat)
    requires Addressable(p) && i < |Fragments(s, p)|
    ensures Fragments(s, p)[i].messageNumber == Wrap32(s.messageNumber + i)
    ensures Fragments(s, p)[i].relData == RelDataOf(s, p.reliability)
    ensures Fragments(s, p)[i].data == Pieces(p)[i]
    ensures Fragments(s, p)[i].splitPacketInfo.Some? <==> NeedsSplit(p)
    ensures NeedsSplit(p) ==>
              var info := Fragments(s, p)[i].splitPacketInfo.value;
              info.id == s.splitPacketIndex && info.index == i && info.count == |Fragments(s, p)| >= 2
  {
    PiecesAreExact(p);
    hide Pieces, Chunks, NeedsSplit, RelDataOf;
  }

  lemma {:induction false} WireAt(s: SendState, ps: seq<Packet>, j: nat)
    requires j < |ps|
    ensures Wire(s, ps)[j] == Fragments(StateAfter(s, ps[..j]), ps[j])
  {
    if j < |ps| - 1 {
      var init := ps[..|ps| - 1];
      WireAt(s, init, j);
      assert init[..j] == ps[..j];
    }
  }

  /** Messages sent in several calls go out as if sent in one. */
  lemma {:induction false} CallsConcatenate(s: SendState, a: seq<Packet>, b: seq<Packet>)
    ensures StateAfter(s, a + b) == StateAfter(StateAfter(s, a), b)
    ensures Wire(s, a + b) == Wire(s, a) + Wire(StateAfter(s, a), b)
  {
    hide *;
    if b == [] {
      assert a + b == a;
      NothingSent(StateAfter(s, a));
    } else {
      var init, last := b[..|b| - 1], b[|b| - 1];
      CallsConcatenate(s, a, init);
      OneMoreSent(StateAfter(s, a), init, last);
      OneMoreSent(s, a + init, last);
      assert a + b == (a + init) + [last] && b == init + [last];
    }
  }

  lemma NothingSent(s: SendState)
    ensures StateAfter(s, []) == s && Wire(s, []) == []
  {
  }

  lemma OneMoreSent(s: SendState, ps: seq<Packet>, last: Packet)
    ensures StateAfter(s, ps + [last]) == Advanced(StateAfter(s, ps), last, |Pieces(last)|)
    ensures Wire(s, ps + [last]) == Wire(s, ps) + [Fragments(StateAfter(s, ps), last)]
  {
    hide Fragments, Advanced, Pieces;
    assert (ps + [last])[..|ps|] == ps;
  }

  lemma WirePrefix(s: SendState, ps: seq<Packet>, j: nat)
    requires j <= |ps|
    ensures Wire(s, ps)[..j] == Wire(s, ps[..j])
  {
    hide *;
    CallsConcatenate(s, ps[..j], ps[j..]);
    assert ps[..j] + ps[j..] == ps;
  }

  /** Packets with consecutive wrapping message numbers. */
  ghost predicate Consecutive(first: u32, ps: seq<RaknetPacket>) {
    forall k :: 0 <= k < |ps| ==> ps[k].messageNumber == Wrap32(first + k)
  }

  lemma ConsecutiveConcat(first: u32, a: seq<RaknetPacket>, b: seq<RaknetPacket>)
    requires Consecutive(first, a) && Consecutive(Wrap32(first + |a|), b)
    ensures Consecutive(first, a + b)
  {
    forall k | 0 <= k < |a + b| ensures (a + b)[k].messageNumber == Wrap32(first + k) {
      if k >= |a| {
        WrapNext(first + |a|, k - |a|);
      }
    }
  }

  lemma FragmentsConsecutive(s: SendState, p: Packet)
    ensures Consecutive(s.messageNumber, Fragments(s, p))
    ensures Advanced(s, p, |Pieces(p)|).messageNumber == Wrap32(s.messageNumber + |Fragments(s, p)|)
  {
    hide Pieces, NeedsSplit;
  }

  lemma NothingNumbered(s: SendState)
    ensures StateAfter(s, []).messageNumber == Wrap32(s.messageNumber + |Flatten(Wire(s, []))|)
    ensures Consecutive(s.messageNumber, Flatten(Wire(s, [])))
  {
  }

  lemma AdvancedNumber(n: u32, a: nat, b: nat)
    ensures Wrap32(Wrap32(n + a) + b) == Wrap32(n + (a + b))
  {
    WrapNext(n + a, b);
  }

  /** Message numbers count the packets on the wire, those of split and of unsplit messages alike. */
  lemma {:induction false} NumbersCount(s: SendState, ps: seq<Packet>)
    ensures StateAfter(s, ps).messageNumber == Wrap32(s.messageNumber + |Flatten(Wire(s, ps))|)
    ensures Consecutive(s.messageNumber, Flatten(Wire(s, ps)))
  {
    hide *;
    if ps == [] {
      NothingNumbered(s);
    } else {
      var init, last := ps[..|ps| - 1], ps[|ps| - 1];
      NumbersCount(s, init);
      OneMoreSent(s, init, last);
      assert ps == init + [last];
      var before, t := Flatten(Wire(s, init)), StateAfter(s, init);
      FragmentsConsecutive(t, last);
      FlattenAppend(Wire(s, init), Fragments(t, last));
      ConsecutiveConcat(s.messageNumber, before, Fragments(t, last));
      AdvancedNumber(s.messageNumber, |before|, |Fragments(t, last)|);
    }
  }

  /** A message is split if and only if it has more than 1190 bytes with an ordering index, 1195 without. */
  lemma SplitIff(p: Packet)
    ensures NeedsSplit(p) <==>
              |p.data| > if p.reliability.UnreliableSequenced? || p.reliability.ReliableOrdered? then 1190 else 1195
  {
  }

  class SendPart {
    var messageNumber: u32
    var splitPacketIndex: u16
    var unrelSeqIndex: u32
    var relOrdIndex: u32

    constructor ()
      ensures State() == INITIAL
    {
      messageNumber, splitPacketIndex, unrelSeqIndex, relOrdIndex := 0, 0, 0, 0;
    }

    function State(): SendState
      reads this
    {
      SendState(messageNumber, splitPacketIndex, unrelSeqIndex, relOrdIndex)
    }

    method NextMessageNumber() returns (n: u32)
      modifies this`messageNumber
      ensures n == old(messageNumber) && messageNumber == Wrap32(n + 1)
    {
      n := messageNumber;
      messageNumber := Wrap32(messageNumber + 1);
    }

    method NextSplitPacketIndex() returns (id: u16)
      modifies this`splitPacketIndex
      ensures id == old(splitPacketIndex) && splitPacketIndex == Wrap16(id + 1)
    {
      id := splitPacketIndex;
      splitPacketIndex := Wrap16(splitPacketIndex + 1);
    }

    method RelData(rel: Reliability) returns (data: ReliabilityData)
      modifies this`unrelSeqIndex, this`relOrdIndex
      ensures data == RelDataOf(old(State()), rel)
      ensures unrelSeqIndex == if rel.UnreliableSequenced? then Wrap32(old(unrelSeqIndex) + 1) else old(unrelSeqIndex)
      ensures relOrdIndex == if rel.ReliableOrdered? then Wrap32(old(relOrdIndex) + 1) else old(relOrdIndex)
    {
      match rel
      case Unreliable => data := UnreliableData;
      case UnreliableSequenced =>
        data := UnreliableSequencedData(unrelSeqIndex);
        unrelSeqIndex := Wrap32(unrelSeqIndex + 1);
      case Reliable => data := ReliableData;
      case ReliableOrdered =>
        data := ReliableOrderedData(relOrdIndex);
        relOrdIndex := Wrap32(relOrdIndex + 1);
    }

    method ProcessOutgoingPackets(packets: seq<Packet>) returns (rakPackets: seq<RaknetPacket>)
      modifies this
      ensures rakPackets == Flatten(Wire(old(State()), packets))
      ensures State() == StateAfter(old(State()), packets)
    {
      rakPackets := [];
      for j := 0 to |packets|
        invariant rakPackets == Flatten(Wire(old(State()), packets[..j]))
        invariant State() == StateAfter(old(State()), packets[..j])
      {
        assert packets[..j + 1][..j] == packets[..j];
        var sent := ProcessOne(packets[j]);
        rakPackets := rakPackets + sent;
      }
      assert packets[..|packets|] == packets;
    }

    /** The body of the loop over the packets. */
    method ProcessOne(packet: Packet) returns (rakPackets: seq<RaknetPacket>)
      modifies this
      ensures rakPackets == Fragments(old(State()), packet)
      ensures State() == Advanced(old(State()), packet, |Pieces(packet)|)
    {
      hide Chunks, Wrap32, Wrap16;
      var relData := RelData(packet.reliability);
      if HeaderLen(packet.reliability, false) + |packet.data| > MAX_PACKET_SIZE {
        var splitPacketId := NextSplitPacketIndex();
        var chunkSize := MAX_PACKET_SIZE - HeaderLen(packet.reliability, true);
        rakPackets := SendChunks(relData, splitPacketId, Chunks(packet.data, chunkSize));
      } else {
        var n := NextMessageNumber();
        SameNumber(n);
        rakPackets := [RaknetPacket(n, relData, None, packet.data)];
      }
    }

    /** The loop over the chunks of one message. */
    method SendChunks(relData: ReliabilityData, id: u16, chunks: seq<Bytes>) returns (rakPackets: seq<RaknetPacket>)
      modifies this`messageNumber
      ensures messageNumber == Wrap32(old(messageNumber) + |chunks|)
      ensures |rakPackets| == |chunks|
      ensures forall i :: 0 <= i < |chunks| ==>
                rakPackets[i] == RaknetPacket(
                  Wrap32(old(messageNumber) + i), relData,
                  Some(SplitPacketInfo(id, Wrap32(i), Wrap32(|chunks|))), chunks[i])
    {
      SameNumber(messageNumber);
      hide Wrap32;
      var count := Wrap32(|chunks|);
      rakPackets := [];
      for i := 0 to |chunks|
        invariant messageNumber == Wrap32(old(messageNumber) + i)
        invariant |rakPackets| == i
        invariant forall k :: 0 <= k < i ==>
                    rakPackets[k] == RaknetPacket(
                      Wrap32(old(messageNumber) + k), relData,
                      Some(SplitPacketInfo(id, Wrap32(k), count)), chunks[k])
      {
        var n := NextMessageNumber();
        WrapNext(old(messageNumber) + i, 1);
        rakPackets := rakPackets + [RaknetPacket(n, relData, Some(SplitPacketInfo(id, Wrap32(i), count)), chunks[i])];
      }
    }
  }

  lemma SameNumber(n: u32)
    ensures Wrap32(n + 0) == n
  {
  }
}
