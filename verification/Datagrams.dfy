/** The datagrams of the sender (src/raknet/send.rs) and the header the receiver reads (src/raknet/connection.rs). */
module Datagrams {
  import opened Words
  import opened Packets
  import opened Bits
  import opened Compressed
  import opened PacketCodec
  import opened AckCodec
  import opened RangeLists
  import opened Sending

  function AckBits(acks: seq<Range>, time: u32): Bits {
    [acks != []] + if acks != [] then U32Bits(time) + ListBits(acks) else []
  }

  function HeadBits(acks: seq<Range>, time: u32): Bits {
    AckBits(acks, time) + [false]
  }

  /** A datagram with one packet: pending acknowledgements, no remote time, the packet. */
  function PacketDatagram(p: RaknetPacket, acks: seq<Range>, time: u32): Bytes
    requires Encodable(p)
  {
    ToBytes(HeadBits(acks, time) + PacketBits(p, |HeadBits(acks, time)|))
  }

  /** The datagrams of one call: acknowledgements go with the first packet, or alone if there is none. */
  function DatagramsOf(ps: seq<RaknetPacket>, acks: seq<Range>, time: u32): seq<Bytes>
    requires AllEncodable(ps)
  {
    if ps != [] then
      seq(|ps|, i requires 0 <= i < |ps| => PacketDatagram(ps[i], if i == 0 then acks else [], time))
    else if acks != [] then [ToBytes(AckBits(acks, time))]
    else []
  }

  // What the receiver reads

  datatype Header = Header(acks: seq<Range>, time: Option<u32>)

  function ReadAcks(bits: Bits): (r: Read<seq<Range>>)
    ensures !r.Panic?
  {
    var hasAcks :- ReadBit(bits, 0);
    if !hasAcks then Got([], 1)
    else
      var oldTime := ReadU32(bits, 1);
      if oldTime.Got? then ReadList(bits, oldTime.pos) else Eof
  }

  function ReadHeader(bits: Bits): (r: Read<Header>)
    ensures !r.Panic?
  {
    var acks := ReadAcks(bits);
    if !acks.Got? then Eof else
    var hasTime := ReadBit(bits, acks.pos);
    if !hasTime.Got? then Eof
    else if !hasTime.value then Got(Header(acks.value, None), hasTime.pos)
    else
      var time := ReadU32(bits, hasTime.pos);
      if time.Got? then Got(Header(acks.value, Some(time.value)), time.pos) else Eof
  }

  /** The numbers a datagram acknowledges. */
  function AcksIn(data: Bytes): seq<u32> {
    var acks := ReadAcks(BytesBits(data));
    if acks.Got? then Enumerated(acks.value) else []
  }

  lemma ReadAcksAt(bits: Bits, acks: seq<Range>, time: u32)
    requires |acks| < 0x1_0000 && At(bits, 0, AckBits(acks, time))
    ensures ReadAcks(bits) == Got(acks, |AckBits(acks, time)|)
  {
    hide U32Bits, ListBits, ReadU32, ReadList, At;
    var rest := if acks != [] then U32Bits(time) + ListBits(acks) else [];
    ReadFlagAt(bits, 0, acks != [], rest);
    if acks != [] {
      AtConcat(bits, 1, U32Bits(time), ListBits(acks));
      ReadU32At(bits, 1, time);
      ReadListAt(bits, 33, acks);
    }
  }

  lemma ReadHeaderAt(bits: Bits, acks: seq<Range>, time: u32)
    requires |acks| < 0x1_0000 && At(bits, 0, HeadBits(acks, time))
    ensures ReadHeader(bits) == Got(Header(acks, None), |HeadBits(acks, time)|)
  {
    hide AckBits, ReadAcks, At;
    AtConcat(bits, 0, AckBits(acks, time), [false]);
    ReadAcksAt(bits, acks, time);
    ReadBitAt(bits, |AckBits(acks, time)|, false);
  }

  /** A peer's remote time after its acknowledgements is taken over. */
  lemma ReadTimedHeaderAt(bits: Bits, acks: seq<Range>, oldTime: u32, time: u32)
    requires |acks| < 0x1_0000 && At(bits, 0, AckBits(acks, oldTime) + ([true] + U32Bits(time)))
    ensures ReadHeader(bits) == Got(Header(acks, Some(time)), |AckBits(acks, oldTime)| + 33)
  {
    hide AckBits, ReadAcks, U32Bits, ReadU32, At;
    var n := |AckBits(acks, oldTime)|;
    AtConcat(bits, 0, AckBits(acks, oldTime), [true] + U32Bits(time));
    ReadAcksAt(bits, acks, oldTime);
    ReadFlagAt(bits, n, true, U32Bits(time));
    ReadU32At(bits, n + 1, time);
  }

  /** A packet ends on a byte boundary. */
  lemma PacketEndsAligned(p: RaknetPacket, at: nat)
    requires Encodable(p)
    ensures (at + |PacketBits(p, at)|) % 8 == 0
    ensures |PacketBits(p, at)| == |HeaderBits(p)| + PadLen(at + |HeaderBits(p)|) + 8 * |p.data|
  {
    hide HeaderBits;
  }

  lemma NoPadding(n: nat)
    requires n % 8 == 0
    ensures Zeros(PadLen(n)) == []
  {
  }

  lemma AlignedNeedsNoPadding(bits: Bits)
    requires |bits| % 8 == 0
    ensures BytesBits(ToBytes(bits)) == bits
  {
    hide *;
    ToBytesBits(bits);
    NoPadding(|bits|);
    assert bits + [] == bits;
  }

  /**
   * A datagram of the sender, read by the receiver: its acknowledgements and exactly its packet,
   * with only the split header garbled.
   */
  lemma DatagramCarries(p: RaknetPacket, acks: seq<Range>, time: u32)
    requires Encodable(p) && |acks| < 0x1_0000
    ensures var bits := BytesBits(PacketDatagram(p, acks, time));
            && ReadHeader(bits) == Got(Header(acks, None), |HeadBits(acks, time)|)
            && ParsePackets(bits, |HeadBits(acks, time)|) == Parsed([GarbledPacket(p)])
  {
    hide *;
    DatagramStream(p, acks, time);
    OnePacket(p, |HeadBits(acks, time)|);
    var head, bits := HeadBits(acks, time), BytesBits(PacketDatagram(p, acks, time));
    assert bits[0..] == bits;
    SplitAt(bits, 0, head, PacketBits(p, |head|));
    ReadHeaderAt(bits, acks, time);
    ParsePacketsAt(bits, |head|, [p]);
    assert AllGarbled([p]) == [GarbledPacket(p)];
  }

  lemma DatagramStream(p: RaknetPacket, acks: seq<Range>, time: u32)
    requires Encodable(p)
    ensures BytesBits(PacketDatagram(p, acks, time)) == HeadBits(acks, time) + PacketBits(p, |HeadBits(acks, time)|)
  {
    hide PacketBits, ToBytes, HeadBits, BytesBits;
    var at := |HeadBits(acks, time)|;
    PacketEndsAligned(p, at);
    AlignedNeedsNoPadding(HeadBits(acks, time) + PacketBits(p, at));
  }

  lemma OnePacket(p: RaknetPacket, at: nat)
    requires Encodable(p)
    ensures AllEncodable([p]) && PacketListBits([p], at) == PacketBits(p, at)
  {
    hide PacketBits;
    assert [p][1..] == [];
  }

  /** What a datagram acknowledges is what was pending when it was written. */
  lemma DatagramAcks(p: RaknetPacket, acks: seq<Range>, time: u32)
    requires Encodable(p) && |acks| < 0x1_0000
    ensures AcksIn(PacketDatagram(p, acks, time)) == Enumerated(acks)
  {
    hide PacketDatagram, BytesBits, Enumerated, ReadAcks, ParsePackets;
    DatagramCarries(p, acks, time);
  }

  lemma AckDatagramAcks(acks: seq<Range>, time: u32)
    requires |acks| < 0x1_0000
    ensures AcksIn(ToBytes(AckBits(acks, time))) == Enumerated(acks)
  {
    var bits := AckBits(acks, time);
    ToBytesBits(bits);
    hide AckBits, BytesBits, ToBytes, Enumerated, ReadAcks, Zeros, PadLen;
    assert (bits + Zeros(PadLen(|bits|)))[..|bits|] == bits;
    ReadAcksAt(bits + Zeros(PadLen(|bits|)), acks, time);
  }

  lemma {:induction false} RangesLength(rs: seq<Range>) returns (q: nat)
    ensures |RangesBits(rs)| == 8 * q + |rs|
  {
    hide RangeBits;
    if rs == [] {
      q := 0;
    } else {
      q := RangesLength(rs[..|rs| - 1]);
      RangeLength(rs[|rs| - 1]);
      q := q + if rs[|rs| - 1].min == rs[|rs| - 1].max then 4 else 8;
    }
  }

  lemma RangeLength(r: Range)
    ensures |RangeBits(r)| == if r.min == r.max then 33 else 65
  {
    hide U32Bits;
  }

  /** Acknowledgements alone end at a byte boundary for certain numbers of ranges only, among them one. */
  lemma AckBitsLength(acks: seq<Range>, time: u32)
    requires 0 < |acks| < 0x1_0000
    ensures |AckBits(acks, time)| % 8 == (1 + LengthU16(|acks|) + |acks|) % 8
  {
    hide *;
    AckBitsParts(acks, time);
    var q := RangesLength(acks);
    CompressedLengths(|acks|);
    EightDivides(LengthU16(|acks|) + |acks|, q);
  }

  lemma AckBitsParts(acks: seq<Range>, time: u32)
    requires 0 < |acks| < 0x1_0000
    ensures |AckBits(acks, time)| == 33 + |CompressedBits(|acks|, 2, 0)| + |RangesBits(acks)|
  {
    hide RangesBits, CompressedBits;
  }

  lemma EightDivides(n: nat, q: nat)
    ensures (33 + n + 8 * q) % 8 == (1 + n) % 8
  {
    assert 33 + n + 8 * q == 1 + n + 8 * (q + 4);
  }

  /**
   * A datagram with acknowledgements only lacks the flag for the remote time. Either the padding is
   * read for it, and no packet follows, or the header cannot be read.
   */
  lemma AckDatagramRead(acks: seq<Range>, time: u32)
    requires |acks| < 0x1_0000
    ensures var bits, n := BytesBits(ToBytes(AckBits(acks, time))), |AckBits(acks, time)|;
            && (n % 8 == 0 ==> ReadHeader(bits) == Eof)
            && (n % 8 != 0 ==> ReadHeader(bits) == Got(Header(acks, None), n + 1))
            && (n % 8 != 0 ==> ParsePackets(bits, n + 1) == Parsed([]))
  {
    var head := AckBits(acks, time);
    ToBytesBits(head);
    hide AckBits, BytesBits, ToBytes, ReadAcks;
    var pad := Zeros(PadLen(|head|));
    assert (head + pad)[..|head|] == head;
    ReadAcksAt(head + pad, acks, time);
    if |head| % 8 != 0 {
      assert !(head + pad)[|head|];
      NothingFits(head + pad, |head| + 1);
    }
  }

  lemma NothingFits(bits: Bits, pos: nat)
    requires pos <= |bits| < pos + 32
    ensures ParsePackets(bits, pos) == Parsed([])
  {
    hide ReadBytes;
    assert ReadU32(bits, pos) == Eof by { ShortOfBytes(bits, pos, 4); }
  }

  lemma {:induction false} ShortOfBytes(bits: Bits, pos: nat, n: nat)
    requires |bits| < pos + 8 * n
    ensures ReadBytes(bits, pos, n) == Eof
  {
  }

  // Sizes

  /** Everything the sender produces fits the length field. */
  lemma FragmentsEncodable(s: SendState, p: Packet)
    ensures AllEncodable(Fragments(s, p))
  {
    PiecesAreExact(p);
    hide Chunks;
  }

  lemma HeaderLength(p: RaknetPacket)
    requires Encodable(p)
    ensures var ordering := if p.relData.UnreliableSequencedData? || p.relData.ReliableOrderedData? then 37 else 0;
            var split := match p.splitPacketInfo
                         case None => 0
                         case Some(info) => 16 + LengthU32(info.index) + LengthU32(info.count);
            |HeaderBits(p)| == 32 + 3 + ordering + 1 + split + LengthU16(|p.data| * 8)
  {
    if p.splitPacketInfo.Some? {
      CompressedLengths(p.splitPacketInfo.value.index);
      CompressedLengths(p.splitPacketInfo.value.count);
    }
    CompressedLengths(|p.data| * 8);
    hide NatBits, U32Bits, U16Bits, CompressedBits;
  }

  lemma SizeArithmetic(n: nat, d: nat, size: nat)
    requires var m := n + PadLen(n) + 8 * d;
             8 * size == m + PadLen(m)
    ensures size == (n + 7) / 8 + d
  {
    assert PadLen(n + PadLen(n) + 8 * d) == 0;
  }

  /** The size of a datagram without acknowledgements. */
  lemma DatagramSize(p: RaknetPacket, time: u32)
    requires Encodable(p)
    ensures |PacketDatagram(p, [], time)| == (2 + |HeaderBits(p)| + 7) / 8 + |p.data|
  {
    hide *;
    PacketEndsAligned(p, 2);
    DatagramBytes(p, [], time);
    NoAcksHead(time);
    SizeArithmetic(2 + |HeaderBits(p)|, |p.data|, |PacketDatagram(p, [], time)|);
  }

  lemma NoAcksHead(time: u32)
    ensures |HeadBits([], time)| == 2
  {
    hide U32Bits, ListBits;
  }

  lemma DatagramBytes(p: RaknetPacket, acks: seq<Range>, time: u32)
    requires Encodable(p)
    ensures var at := |HeadBits(acks, time)|;
            var n := at + |PacketBits(p, at)|;
            8 * |PacketDatagram(p, acks, time)| == n + PadLen(n)
  {
    hide PacketBits, ToBytes, HeadBits, PadLen;
  }

  /**
   * An unsplit packet's datagram takes at most 1202 bytes, and it fits the maximum of 1200 if and
   * only if there are two bytes to spare: the header length leaves out the length field and two flags.
   */
  lemma UnsplitFitsIff(s: SendState, p: Packet, time: u32)
    requires !NeedsSplit(p)
    ensures |Fragments(s, p)| == 1 && Encodable(Fragments(s, p)[0])
    ensures var size := |PacketDatagram(Fragments(s, p)[0], [], time)|;
            && size <= MAX_PACKET_SIZE + 2
            && (size <= MAX_PACKET_SIZE <==> HeaderLen(p.reliability, false) + |p.data| + 2 <= MAX_PACKET_SIZE)
  {
    hide PacketDatagram, Fragments, Pieces, LengthU16, HeaderLen;
    var f := OnlyFragment(s, p);
    UnsplitSize(f, time);
    UnsplitArithmetic(p.reliability, |p.data|);
  }

  lemma UnsplitArithmetic(rel: Reliability, d: nat)
    requires HeaderLen(rel, false) + d <= MAX_PACKET_SIZE
    ensures var ordering := if rel.UnreliableSequenced? || rel.ReliableOrdered? then 37 else 0;
            var size := (45 + ordering + LengthU16(d * 8)) / 8 + d;
            && size <= MAX_PACKET_SIZE + 2
            && (size <= MAX_PACKET_SIZE <==> HeaderLen(rel, false) + d + 2 <= MAX_PACKET_SIZE)
  {
  }

  lemma OnlyFragment(s: SendState, p: Packet) returns (f: RaknetPacket)
    requires !NeedsSplit(p)
    ensures Fragments(s, p) == [f] && Encodable(f)
    ensures f.data == p.data && f.splitPacketInfo == None && f.relData.Kind() == p.reliability
  {
    FragmentsEncodable(s, p);
    f := Fragments(s, p)[0];
  }

  lemma UnsplitSize(f: RaknetPacket, time: u32)
    requires Encodable(f) && f.splitPacketInfo == None
    ensures var ordering := if f.relData.UnreliableSequencedData? || f.relData.ReliableOrderedData? then 37 else 0;
            |PacketDatagram(f, [], time)| == (45 + ordering + LengthU16(|f.data| * 8)) / 8 + |f.data|
  {
    hide PacketDatagram, HeaderBits, LengthU16;
    DatagramSize(f, time);
    HeaderLength(f);
  }

  /** The bound is reached: 1195 bytes sent Reliable are not split, and their datagram has 1202 bytes. */
  lemma LargestDatagram(s: SendState, data: Bytes, time: u32)
    requires |data| == 1195
    ensures var p := Packet(Reliable, data);
            && !NeedsSplit(p) && |Fragments(s, p)| == 1 && Encodable(Fragments(s, p)[0])
            && |PacketDatagram(Fragments(s, p)[0], [], time)| == MAX_PACKET_SIZE + 2
  {
    hide PacketDatagram, Fragments, Pieces;
    var f := OnlyFragment(s, Packet(Reliable, data));
    UnsplitSize(f, time);
  }

  lemma FragmentArithmetic(rel: Reliability, index: u32, count: u32, d: nat)
    requires d <= ChunkSize(rel)
    ensures var ordering := if rel.UnreliableSequenced? || rel.ReliableOrdered? then 37 else 0;
            var header := 32 + 3 + ordering + 1 + (16 + LengthU32(index) + LengthU32(count)) + LengthU16(d * 8);
            (2 + header + 7) / 8 + d <= MAX_PACKET_SIZE <==>
              || rel.UnreliableSequenced? || rel.ReliableOrdered?
              || index < 0x100_0000 || count < 0x100_0000 || d <= 1182
  {
  }

  /**
   * A fragment fits a datagram of 1200 bytes, except in one case: a full chunk of a message without
   * ordering index, when both compressed fields take 33 bits and not the 32 the header length assumes.
   */
  lemma FragmentFitsIff(s: SendState, p: Packet, i: nat, time: u32)
    requires NeedsSplit(p) && i < |Fragments(s, p)|
    ensures Encodable(Fragments(s, p)[i])
    ensures |PacketDatagram(Fragments(s, p)[i], [], time)| <= MAX_PACKET_SIZE <==>
              || p.reliability.UnreliableSequenced? || p.reliability.ReliableOrdered?
              || Wrap32(i) < 0x100_0000 || Wrap32(|Fragments(s, p)|) < 0x100_0000
              || |Fragments(s, p)[i].data| <= 1182
  {
    FragmentsEncodable(s, p);
    var f := Fragments(s, p)[i];
    PiecesAreExact(p);
    assert f.data == Pieces(p)[i] && |f.data| <= ChunkSize(p.reliability);
    assert f.relData.Kind() == p.reliability;
    hide PacketDatagram, HeaderBits, Chunks, Pieces, NeedsSplit, Fragments, LengthU32, LengthU16, Wrap32;
    DatagramSize(f, time);
    HeaderLength(f);
    var info := f.splitPacketInfo.value;
    FragmentArithmetic(p.reliability, info.index, info.count, |f.data|);
  }

  /** One that does not fit: the last of 0x1000001 full chunks, sent Reliable, makes 1201 bytes. */
  lemma LargestFragment(s: SendState, data: Bytes, time: u32)
    requires |data| == 0x100_0001 * 1183
    ensures var p := Packet(Reliable, data);
            && NeedsSplit(p) && |Fragments(s, p)| == 0x100_0001 && Encodable(Fragments(s, p)[0x100_0000])
            && |PacketDatagram(Fragments(s, p)[0x100_0000], [], time)| == MAX_PACKET_SIZE + 1
  {
    hide *;
    var p := Packet(Reliable, data);
    FullChunks(data);
    FragmentsEncodable(s, p);
    var f := BigFragment(s, p);
    DatagramSize(f, time);
    HeaderLength(f);
    BigLengths();
  }

  lemma FullChunks(data: Bytes)
    requires |data| == 0x100_0001 * 1183
    ensures var p := Packet(Reliable, data);
            NeedsSplit(p) && |Pieces(p)| == 0x100_0001 && |Pieces(p)[0x100_0000]| == 1183
  {
    ChunkCount(data, 1183, 0x100_0000);
    ChunkCount(data, 1183, 0x100_0001);
    ChunkLength(data, 1183, 0x100_0000);
    hide Chunks;
  }

  lemma BigFragment(s: SendState, p: Packet) returns (f: RaknetPacket)
    requires p.reliability.Reliable? && NeedsSplit(p) && |Pieces(p)| == 0x100_0001 && |Pieces(p)[0x100_0000]| == 1183
    ensures |Fragments(s, p)| == 0x100_0001 && f == Fragments(s, p)[0x100_0000]
    ensures f.relData == ReliableData && |f.data| == 1183 && Encodable(f)
    ensures f.splitPacketInfo == Some(SplitPacketInfo(s.splitPacketIndex, 0x100_0000, 0x100_0001))
  {
    hide Pieces, NeedsSplit;
    f := Fragments(s, p)[0x100_0000];
  }

  lemma BigLengths()
    ensures LengthU32(0x100_0000) == 33 && LengthU32(0x100_0001) == 33 && LengthU16(1183 * 8) == 17
    ensures MAX_PACKET_SIZE == 1200
  {
  }

  // The methods of the sender that write datagrams

  method WriteAcks(writer: BitWriter, acks: RangeList, time: u32)
    modifies writer, acks
    ensures writer.bits == old(writer.bits) + AckBits(old(acks.ranges), time)
    ensures acks.ranges == []
  {
    hide BytesBits, LeBytes, ListBits;
    var empty := acks.IsEmpty();
    var hasAcks := !empty;
    writer.WriteBit(hasAcks);
    if hasAcks {
      writer.WriteLe(time, 4);
      WriteList(writer, acks);
    }
    acks.Clear();
  }

  method SendPacket(p: RaknetPacket, acks: RangeList, time: u32) returns (datagram: Bytes)
    requires Encodable(p)
    modifies acks
    ensures datagram == PacketDatagram(p, old(acks.ranges), time)
    ensures acks.ranges == []
  {
    hide AckBits, PacketBits, ToBytes;
    var writer := new BitWriter();
    WriteAcks(writer, acks, time);
    var hasRemoteSystemTime := false;
    writer.WriteBit(hasRemoteSystemTime);
    ghost var head := HeadBits(old(acks.ranges), time);
    assert writer.bits == head;
    WritePacket(writer, p);
    assert writer.bits == head + PacketBits(p, |head|);
    datagram := ToBytes(writer.bits);
  }

  method SendAcks(acks: RangeList, time: u32) returns (datagrams: seq<Bytes>)
    modifies acks
    ensures datagrams == DatagramsOf([], old(acks.ranges), time)
    ensures acks.ranges == []
  {
    hide AckBits, ToBytes;
    var empty := acks.IsEmpty();
    if empty {
      return [];
    }
    var writer := new BitWriter();
    WriteAcks(writer, acks, time);
    assert writer.bits == AckBits(old(acks.ranges), time);
    datagrams := [ToBytes(writer.bits)];
  }

  /** All packets of the call, one datagram each. */
  method SendRakPackets(ps: seq<RaknetPacket>, acks: RangeList, time: u32) returns (datagrams: seq<Bytes>)
    requires AllEncodable(ps)
    modifies acks
    ensures datagrams == DatagramsOf(ps, old(acks.ranges), time)
    ensures acks.ranges == []
  {
    hide AckBits, PacketDatagram, ToBytes;
    datagrams := [];
    if |ps| == 0 {
      datagrams := SendAcks(acks, time);
    }
    for i := 0 to |ps|
      invariant ps != [] ==> datagrams == DatagramsOf(ps, old(acks.ranges), time)[..i]
      invariant ps == [] ==> datagrams == DatagramsOf(ps, old(acks.ranges), time)
      invariant acks.ranges == if i == 0 && ps != [] then old(acks.ranges) else []
    {
      var datagram := SendPacket(ps[i], acks, time);
      datagrams := datagrams + [datagram];
    }
  }
}
