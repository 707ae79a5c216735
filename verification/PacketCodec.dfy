/** The wire form of packets (src/raknet/packet.rs), and reading a list of them. */
module PacketCodec {
  import opened Words
  import opened Packets
  import opened Bits
  import opened Compressed

  function U32Bits(v: u32): (bits: Bits)
    ensures |bits| == 32
  {
    BytesBits(LeBytes(v, 4))
  }

  function U16Bits(v: u16): (bits: Bits)
    ensures |bits| == 16
  {
    BytesBits(LeBytes(v, 2))
  }

  function ReliabilityId(rel: ReliabilityData): byte {
    match rel
    case UnreliableData => 0
    case UnreliableSequencedData(_) => 1
    case ReliableData => 2
    case ReliableOrderedData(_) => 3
  }

  function OrderingBits(rel: ReliabilityData): Bits {
    match rel
    case UnreliableSequencedData(ord) => NatBits(0, 5) + U32Bits(ord)
    case ReliableOrderedData(ord) => NatBits(0, 5) + U32Bits(ord)
    case _ => []
  }

  function RelBits(rel: ReliabilityData): Bits {
    NatBits(ReliabilityId(rel), 3) + OrderingBits(rel)
  }

  function InfoBits(info: SplitPacketInfo): Bits {
    U16Bits(info.id) + (CompressedBits(info.index, 4, 0) + CompressedBits(info.count, 4, 0))
  }

  function SplitBits(info: Option<SplitPacketInfo>): Bits {
    [info.Some?] + if info.Some? then InfoBits(info.value) else []
  }

  /** The length field counts bits in 16 bits, so the data may be at most 8191 bytes. */
  predicate Encodable(p: RaknetPacket) {
    |p.data| <= 8191
  }

  function HeaderBits(p: RaknetPacket): Bits
    requires Encodable(p)
  {
    U32Bits(p.messageNumber) +
    (RelBits(p.relData) + (SplitBits(p.splitPacketInfo) + CompressedBits(|p.data| * 8, 2, 0)))
  }

  /** The bits of a packet that starts `at` bits into the datagram: its data is byte-aligned there. */
  function PacketBits(p: RaknetPacket, at: nat): Bits
    requires Encodable(p)
  {
    HeaderBits(p) + (Zeros(PadLen(at + |HeaderBits(p)|)) + BytesBits(p.data))
  }

  // Reading

  function ReadU32(bits: Bits, pos: nat): (r: Read<u32>)
    ensures r.Got? ==> pos + 32 == r.pos <= |bits|
    ensures !r.Panic?
  {
    ReadLe(bits, pos, 4)
  }

  function ReadOrd(bits: Bits, pos: nat): (r: Read<u32>)
    ensures r.Got? ==> pos + 37 == r.pos <= |bits|
  {
    var channel :- ReadBits(bits, pos, 5);
    if channel != 0 then Panic else ReadU32(bits, pos + 5)
  }

  function ReadRel(bits: Bits, pos: nat): (r: Read<ReliabilityData>)
    ensures r.Got? ==> pos + 3 <= r.pos <= |bits|
  {
    var id :- ReadBits(bits, pos, 3);
    if id == 0 then Got(UnreliableData, pos + 3)
    else if id == 1 then
      var ord :- ReadOrd(bits, pos + 3);
      Got(UnreliableSequencedData(ord), pos + 40)
    else if id == 2 then Got(ReliableData, pos + 3)
    else if id == 3 then
      var ord :- ReadOrd(bits, pos + 3);
      Got(ReliableOrderedData(ord), pos + 40)
    else Panic
  }

  function ReadCompressedU32(bits: Bits, pos: nat): (r: Read<u32>)
    ensures r.Got? ==> pos <= r.pos <= |bits|
    ensures !r.Panic?
  {
    ReadCompressed(bits, pos, 4, 0)
  }

  function ReadInfo(bits: Bits, pos: nat): (r: Read<SplitPacketInfo>)
    ensures r.Got? ==> pos <= r.pos <= |bits|
    ensures !r.Panic?
  {
    var id :- ReadLe(bits, pos, 2);
    var index := ReadCompressedU32(bits, pos + 16);
    if !index.Got? then Eof else
    var count := ReadCompressedU32(bits, index.pos);
    if !count.Got? then Eof else
    Got(SplitPacketInfo(id, index.value, count.value), count.pos)
  }

  function ReadSplit(bits: Bits, pos: nat): (r: Read<Option<SplitPacketInfo>>)
    ensures r.Got? ==> pos + 1 <= r.pos <= |bits|
    ensures !r.Panic?
  {
    var isSplit :- ReadBit(bits, pos);
    if !isSplit then Got(None, pos + 1) else
    var info := ReadInfo(bits, pos + 1);
    if info.Got? then Got(Some(info.value), info.pos) else Eof
  }

  /** The aligned data after a length field in bits. */
  function ReadData(bits: Bits, pos: nat): (r: Read<Bytes>)
    ensures r.Got? ==> pos + 6 <= r.pos <= |bits|
    ensures !r.Panic?
  {
    var length := ReadCompressed(bits, pos, 2, 0);
    if !length.Got? then Eof
    else ReadBytes(bits, length.pos + PadLen(length.pos), length.value / 8)
  }

  function ReadPacket(bits: Bits, pos: nat): (r: Read<RaknetPacket>)
    ensures r.Got? ==> pos + 42 <= r.pos <= |bits|
  {
    var messageNumber :- ReadU32(bits, pos);
    var rel := ReadRel(bits, pos + 32);
    if !rel.Got? then rel.PropagateFailure() else
    var split := ReadSplit(bits, rel.pos);
    if !split.Got? then Eof else
    var data := ReadData(bits, split.pos);
    if !data.Got? then Eof else
    Got(RaknetPacket(messageNumber, rel.value, split.value, data.value), data.pos)
  }

  // What was written is read back

  lemma ReadU32At(bits: Bits, pos: nat, v: u32)
    requires At(bits, pos, U32Bits(v))
    ensures ReadU32(bits, pos) == Got(v, pos + 32)
  {
    hide LeBytes, BytesBits, ReadLe;
    ReadLeAt(bits, pos, v, 4);
  }

  lemma ReadOrdAt(bits: Bits, pos: nat, ord: u32)
    requires At(bits, pos, NatBits(0, 5) + U32Bits(ord))
    ensures ReadOrd(bits, pos) == Got(ord, pos + 37)
  {
    hide NatBits, ReadBits, U32Bits, ReadU32;
    AtConcat(bits, pos, NatBits(0, 5), U32Bits(ord));
    Pow2Byte();
    ReadBitsAt(bits, pos, 0, 5);
    ReadU32At(bits, pos + 5, ord);
  }

  lemma ReadRelAt(bits: Bits, pos: nat, rel: ReliabilityData)
    requires At(bits, pos, RelBits(rel))
    ensures ReadRel(bits, pos) == Got(rel, pos + |RelBits(rel)|)
  {
    hide NatBits, ReadBits, U32Bits, ReadOrd;
    AtConcat(bits, pos, NatBits(ReliabilityId(rel), 3), OrderingBits(rel));
    Pow2Byte();
    ReadBitsAt(bits, pos, ReliabilityId(rel), 3);
    match rel
    case UnreliableSequencedData(ord) => ReadOrdAt(bits, pos + 3, ord);
    case ReliableOrderedData(ord) => ReadOrdAt(bits, pos + 3, ord);
    case _ =>
  }

  /** What a split header comes back as: both compressed fields are garbled. */
  function GarbledInfo(info: SplitPacketInfo): SplitPacketInfo {
    info.(index := Garbled(info.index), count := Garbled(info.count))
  }

  function GarbledPacket(p: RaknetPacket): RaknetPacket {
    match p.splitPacketInfo
    case None => p
    case Some(info) => p.(splitPacketInfo := Some(GarbledInfo(info)))
  }

  lemma ReadInfoAt(bits: Bits, pos: nat, info: SplitPacketInfo)
    requires At(bits, pos, InfoBits(info))
    ensures ReadInfo(bits, pos) == Got(GarbledInfo(info), pos + |InfoBits(info)|)
  {
    hide LeBytes, BytesBits, CompressedBits, ReadCompressed, Garbled, ReadLe;
    var index, count := CompressedBits(info.index, 4, 0), CompressedBits(info.count, 4, 0);
    AtConcat(bits, pos, U16Bits(info.id), index + count);
    AtConcat(bits, pos + 16, index, count);
    ReadLeAt(bits, pos, info.id, 2);
    CompressedU32At(bits, pos + 16, info.index);
    CompressedU32At(bits, pos + 16 + |index|, info.count);
  }

  lemma ReadSplitAt(bits: Bits, pos: nat, info: Option<SplitPacketInfo>)
    requires At(bits, pos, SplitBits(info))
    ensures ReadSplit(bits, pos) ==
            Got(if info.Some? then Some(GarbledInfo(info.value)) else None, pos + |SplitBits(info)|)
  {
    hide InfoBits, ReadInfo, GarbledInfo, ReadBit;
    match info
    case None =>
      ReadBitAt(bits, pos, false);
    case Some(i) =>
      ReadFlagAt(bits, pos, true, InfoBits(i));
      ReadInfoAt(bits, pos + 1, i);
  }

  lemma ReadDataAt(bits: Bits, pos: nat, data: Bytes)
    requires |data| <= 8191
    requires At(bits, pos, CompressedBits(|data| * 8, 2, 0))
    requires var p := pos + |CompressedBits(|data| * 8, 2, 0)|;
             At(bits, p + PadLen(p), BytesBits(data))
    ensures var p := pos + |CompressedBits(|data| * 8, 2, 0)|;
            ReadData(bits, pos) == Got(data, p + PadLen(p) + 8 * |data|)
  {
    hide CompressedBits, ReadCompressed, PadLen, BytesBits, ReadBytes;
    var p := pos + |CompressedBits(|data| * 8, 2, 0)|;
    CompressedU16At(bits, pos, |data| * 8);
    ReadBytesAt(bits, p + PadLen(p), data, |data|);
  }

  lemma HeaderAt(bits: Bits, pos: nat, p: RaknetPacket)
    requires Encodable(p) && At(bits, pos, HeaderBits(p))
    ensures var rel, split := RelBits(p.relData), SplitBits(p.splitPacketInfo);
            && At(bits, pos, U32Bits(p.messageNumber))
            && At(bits, pos + 32, rel)
            && At(bits, pos + 32 + |rel|, split)
            && At(bits, pos + 32 + |rel| + |split|, CompressedBits(|p.data| * 8, 2, 0))
  {
    hide U32Bits, RelBits, SplitBits, CompressedBits, At;
    var rel, split, length := RelBits(p.relData), SplitBits(p.splitPacketInfo), CompressedBits(|p.data| * 8, 2, 0);
    AtConcat(bits, pos, U32Bits(p.messageNumber), rel + (split + length));
    AtConcat(bits, pos + 32, rel, split + length);
    AtConcat(bits, pos + 32 + |rel|, split, length);
  }

  /**
   * A packet written at any bit offset, whatever surrounds it, is read back whole; exactly its bits
   * are consumed, alignment included. Only its split index and count may differ.
   */
  lemma ReadPacketAt(bits: Bits, pos: nat, p: RaknetPacket)
    requires Encodable(p) && At(bits, pos, PacketBits(p, pos))
    ensures ReadPacket(bits, pos) == Got(GarbledPacket(p), pos + |PacketBits(p, pos)|)
  {
    hide U32Bits, RelBits, SplitBits, CompressedBits, BytesBits, PadLen, Zeros, At;
    hide ReadRel, ReadSplit, ReadData, ReadU32;
    var rel, split := RelBits(p.relData), SplitBits(p.splitPacketInfo);
    var header := HeaderBits(p);
    var end := pos + |header|;
    assert end == pos + 32 + |rel| + |split| + |CompressedBits(|p.data| * 8, 2, 0)|;
    var pad := Zeros(PadLen(end));
    AtConcat(bits, pos, header, pad + BytesBits(p.data));
    AtConcat(bits, end, pad, BytesBits(p.data));
    HeaderAt(bits, pos, p);
    ReadU32At(bits, pos, p.messageNumber);
    ReadRelAt(bits, pos + 32, p.relData);
    ReadSplitAt(bits, pos + 32 + |rel|, p.splitPacketInfo);
    ReadDataAt(bits, pos + 32 + |rel| + |split|, p.data);
  }

  /** The packets that survive the wire unchanged: a condition on the split header alone. */
  predicate IsExactPacket(p: RaknetPacket) {
    p.splitPacketInfo.Some? ==> IsExact(p.splitPacketInfo.value.index) && IsExact(p.splitPacketInfo.value.count)
  }

  lemma PacketRoundTripIff(bits: Bits, pos: nat, p: RaknetPacket)
    requires Encodable(p) && At(bits, pos, PacketBits(p, pos))
    ensures ReadPacket(bits, pos) == Got(p, pos + |PacketBits(p, pos)|) <==> IsExactPacket(p)
  {
    hide ReadPacket, PacketBits;
    ReadPacketAt(bits, pos, p);
  }

  // A datagram's packets

  datatype Parsed = ParsePanic | Parsed(packets: seq<RaknetPacket>)

  /** Packets are read until the first one that does not fit; at least 42 bits go with each. */
  function ParsePackets(bits: Bits, pos: nat): Parsed
    decreases if pos <= |bits| then |bits| - pos else 0
  {
    match ReadPacket(bits, pos)
    case Got(p, next) =>
      (match ParsePackets(bits, next)
       case Parsed(ps) => Parsed([p] + ps)
       case ParsePanic => ParsePanic)
    case Eof => Parsed([])
    case Panic => ParsePanic
  }

  ghost predicate AllEncodable(ps: seq<RaknetPacket>) {
    forall i :: 0 <= i < |ps| ==> Encodable(ps[i])
  }

  /** A list of packets written one after the other from bit `at` on. */
  function PacketListBits(ps: seq<RaknetPacket>, at: nat): Bits
    requires AllEncodable(ps)
  {
    if ps == [] then []
    else
      var first := PacketBits(ps[0], at);
      first + PacketListBits(ps[1..], at + |first|)
  }

  function AllGarbled(ps: seq<RaknetPacket>): (gs: seq<RaknetPacket>)
    ensures |gs| == |ps| && forall i :: 0 <= i < |ps| ==> gs[i] == GarbledPacket(ps[i])
  {
    seq(|ps|, i requires 0 <= i < |ps| => GarbledPacket(ps[i]))
  }

  /** Parsing any concatenation of packets that ends its datagram returns the list, split headers garbled. */
  lemma {:induction false} ParsePacketsAt(bits: Bits, pos: nat, ps: seq<RaknetPacket>)
    requires AllEncodable(ps) && pos <= |bits|
    requires bits[pos..] == PacketListBits(ps, pos)
    ensures ParsePackets(bits, pos) == Parsed(AllGarbled(ps))
    decreases |ps|, 1
  {
    if ps == [] {
      ParseEnd(bits, pos);
    } else {
      ParseRest(bits, pos, ps);
    }
  }

  lemma {:induction false} ParseRest(bits: Bits, pos: nat, ps: seq<RaknetPacket>)
    requires AllEncodable(ps) && pos <= |bits| && ps != []
    requires bits[pos..] == PacketListBits(ps, pos)
    ensures ParsePackets(bits, pos) == Parsed(AllGarbled(ps))
    decreases |ps|, 0
  {
    hide *;
    AllEncodableTail(ps);
    PacketListFirst(ps, pos);
    var first := PacketBits(ps[0], pos);
    SplitAt(bits, pos, first, PacketListBits(ps[1..], pos + |first|));
    ParsePacketsAt(bits, pos + |first|, ps[1..]);
    ParseFirst(bits, pos, ps);
  }

  lemma ParseEnd(bits: Bits, pos: nat)
    requires pos <= |bits| && bits[pos..] == PacketListBits([], pos)
    ensures ParsePackets(bits, pos) == Parsed(AllGarbled([]))
  {
    assert |bits| == pos;
  }

  lemma PacketListFirst(ps: seq<RaknetPacket>, at: nat)
    requires ps != [] && AllEncodable(ps)
    ensures var first := PacketBits(ps[0], at);
            PacketListBits(ps, at) == first + PacketListBits(ps[1..], at + |first|)
  {
    hide PacketBits;
  }

  lemma AllEncodableTail(ps: seq<RaknetPacket>)
    requires ps != [] && AllEncodable(ps)
    ensures Encodable(ps[0]) && AllEncodable(ps[1..])
  {
  }

  lemma SplitAt(bits: Bits, pos: nat, first: Bits, rest: Bits)
    requires pos <= |bits| && bits[pos..] == first + rest
    ensures At(bits, pos, first) && pos + |first| <= |bits| && bits[pos + |first|..] == rest
  {
    assert |bits| == pos + |first| + |rest|;
    assert bits[pos..pos + |first|] == bits[pos..][..|first|] == first;
    assert bits[pos + |first|..] == bits[pos..][|first|..] == rest;
  }

  lemma ParseFirst(bits: Bits, pos: nat, ps: seq<RaknetPacket>)
    requires ps != [] && AllEncodable(ps) && At(bits, pos, PacketBits(ps[0], pos))
    requires ParsePackets(bits, pos + |PacketBits(ps[0], pos)|) == Parsed(AllGarbled(ps[1..]))
    ensures ParsePackets(bits, pos) == Parsed(AllGarbled(ps))
  {
    hide PacketBits, ReadPacket, GarbledPacket, At;
    ReadPacketAt(bits, pos, ps[0]);
    assert [GarbledPacket(ps[0])] + AllGarbled(ps[1..]) == AllGarbled(ps);
  }

  /** Parsing returns exactly the list that was written if and only if all its split headers are exact. */
  lemma ParseRoundTripIff(bits: Bits, pos: nat, ps: seq<RaknetPacket>)
    requires AllEncodable(ps) && pos <= |bits|
    requires bits[pos..] == PacketListBits(ps, pos)
    ensures ParsePackets(bits, pos) == Parsed(ps) <==> forall i :: 0 <= i < |ps| ==> IsExactPacket(ps[i])
  {
    hide ParsePackets, PacketListBits;
    ParsePacketsAt(bits, pos, ps);
    forall i | 0 <= i < |ps| ensures AllGarbled(ps)[i] == ps[i] <==> IsExactPacket(ps[i]) {
      GarbledIff(ps[i]);
    }
    hide GarbledPacket, IsExactPacket;
    if i :| 0 <= i < |ps| && !IsExactPacket(ps[i]) {
      assert AllGarbled(ps)[i] != ps[i];
    } else {
      assert AllGarbled(ps) == ps;
    }
  }

  lemma GarbledIff(p: RaknetPacket)
    ensures GarbledPacket(p) == p <==> IsExactPacket(p)
  {
  }

  // The serialisers and deserialisers

  method WriteRel(writer: BitWriter, rel: ReliabilityData)
    modifies writer
    ensures writer.bits == old(writer.bits) + RelBits(rel)
  {
    hide NatBits, BytesBits, LeBytes;
    writer.WriteBits(ReliabilityId(rel), 3);
    match rel
    case UnreliableSequencedData(ord) =>
      writer.WriteBits(0, 5);
      writer.WriteLe(ord, 4);
    case ReliableOrderedData(ord) =>
      writer.WriteBits(0, 5);
      writer.WriteLe(ord, 4);
    case _ =>
  }

  method WriteInfo(writer: BitWriter, info: SplitPacketInfo)
    modifies writer
    ensures writer.bits == old(writer.bits) + InfoBits(info)
  {
    hide CompressedBits, BytesBits, LeBytes;
    writer.WriteLe(info.id, 2);
    WriteCompressed(writer, info.index, 4);
    WriteCompressed(writer, info.count, 4);
  }

  method WritePacket(writer: BitWriter, p: RaknetPacket)
    requires Encodable(p)
    modifies writer
    ensures writer.bits == old(writer.bits) + PacketBits(p, |old(writer.bits)|)
  {
    hide RelBits, InfoBits, CompressedBits, BytesBits, LeBytes, PadLen, Zeros;
    ghost var before := writer.bits;
    writer.WriteLe(p.messageNumber, 4);
    WriteRel(writer, p.relData);
    writer.WriteBit(p.splitPacketInfo.Some?);
    if p.splitPacketInfo.Some? {
      WriteInfo(writer, p.splitPacketInfo.value);
    }
    WriteCompressed(writer, |p.data| * 8, 2);
    assert writer.bits == before + HeaderBits(p);
    writer.Align();
    writer.WriteBytes(p.data);
  }

  method ReadRelFrom(reader: BitReader) returns (r: Read<ReliabilityData>)
    modifies reader
    ensures r == ReadRel(reader.bits, old(reader.pos)) && (r.Got? ==> reader.pos == r.pos)
  {
    hide ReadBits, ReadLe;
    var id :- reader.ReadSome(3);
    match id {
      case 0 => r := Got(UnreliableData, reader.pos);
      case 1 =>
        var channel :- reader.ReadSome(5);
        if channel != 0 {
          return Panic;
        }
        var ord :- reader.ReadInt(4);
        r := Got(UnreliableSequencedData(ord), reader.pos);
      case 2 => r := Got(ReliableData, reader.pos);
      case 3 =>
        var channel :- reader.ReadSome(5);
        if channel != 0 {
          return Panic;
        }
        var ord :- reader.ReadInt(4);
        r := Got(ReliableOrderedData(ord), reader.pos);
      case _ => r := Panic;
    }
  }

  method ReadInfoFrom(reader: BitReader) returns (r: Read<SplitPacketInfo>)
    modifies reader
    ensures r == ReadInfo(reader.bits, old(reader.pos)) && (r.Got? ==> reader.pos == r.pos)
  {
    hide ReadCompressed, ReadLe;
    var id :- reader.ReadInt(2);
    var index :- ReadCompressedFrom(reader, 4);
    var count :- ReadCompressedFrom(reader, 4);
    r := Got(SplitPacketInfo(id, index, count), reader.pos);
  }

  method ReadPacketFrom(reader: BitReader) returns (r: Read<RaknetPacket>)
    modifies reader
    ensures r == ReadPacket(reader.bits, old(reader.pos)) && (r.Got? ==> reader.pos == r.pos)
  {
    hide ReadRel, ReadInfo, ReadCompressed, ReadLe, ReadBytes, PadLen;
    var messageNumber :- reader.ReadInt(4);
    var rel :- ReadRelFrom(reader);
    var isSplit :- reader.ReadOne();
    var split := None;
    if isSplit {
      var info :- ReadInfoFrom(reader);
      split := Some(info);
    }
    var length :- ReadCompressedFrom(reader, 2);
    reader.Align();
    var data :- reader.ReadExact(length / 8);
    r := Got(RaknetPacket(messageNumber, rel, split, data), reader.pos);
  }

  lemma ParseNext(bits: Bits, pos: nat)
    ensures ParsePackets(bits, pos).Parsed? ==>
              var r := ReadPacket(bits, pos);
              if r.Got? then
                && ParsePackets(bits, r.pos).Parsed?
                && ParsePackets(bits, pos).packets == [r.value] + ParsePackets(bits, r.pos).packets
              else ParsePackets(bits, pos).packets == []
  {
    hide ReadPacket;
  }

  /** `parse_packets`: collects packets until a read fails. */
  method ParseAll(reader: BitReader) returns (packets: seq<RaknetPacket>)
    requires ParsePackets(reader.bits, reader.pos).Parsed?
    modifies reader
    ensures packets == ParsePackets(reader.bits, old(reader.pos)).packets
  {
    hide ReadPacket, ParsePackets;
    packets := [];
    while true
      invariant ParsePackets(reader.bits, reader.pos).Parsed?
      invariant packets + ParsePackets(reader.bits, reader.pos).packets ==
                ParsePackets(reader.bits, old(reader.pos)).packets
      decreases if reader.pos <= |reader.bits| then |reader.bits| - reader.pos else 0
    {
      ParseNext(reader.bits, reader.pos);
      var r := ReadPacketFrom(reader);
      if !r.Got? {
        break;
      }
      packets := packets + [r.value];
    }
  }
}
