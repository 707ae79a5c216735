/**
 * Compressed integers (src/raknet/comp.rs). A `u16` has `size` 2 and a `u32` has `size` 4; the two
 * serialisers are the same code at two widths.
 */
module Compressed {
  import opened Words
  import opened Bits

  predicate IsSize(size: nat) {
    size == 2 || size == 4
  }

  /** The lowest byte: half of it when the upper half is zero. */
  function LastBits(b: byte): Bits {
    if b < 16 then [true] + NatBits(b, 4) else [false] + ByteBits(b)
  }

  /** The bits written from byte test `i` on. */
  function CompressedBits(v: nat, size: nat, i: nat): Bits
    requires i < size <= 4
    decreases size - i
  {
    if i == size - 1 then LastBits(v % 256)
    else if ByteOf(v, size - 1 - i) == 0 then [true] + CompressedBits(v, size, i + 1)
    else [false] + BytesBits(LeBytes(v, size - i))
  }

  function ReadLast(bits: Bits, pos: nat): (r: Read<byte>)
    ensures r.Got? ==> pos + 5 <= r.pos <= |bits|
    ensures !r.Panic?
  {
    var zero :- ReadBit(bits, pos);
    Pow2Byte();
    if zero then ReadBits(bits, pos + 1, 4) else ReadByte(bits, pos + 1)
  }

  /** The value read from byte test `i` on: the bytes are put at positions `i..size`, not `0..`. */
  function ReadCompressed(bits: Bits, pos: nat, size: nat, i: nat): (r: Read<nat>)
    requires i < size <= 4
    ensures r.Got? ==> pos + 5 <= r.pos <= |bits| && r.value < Pow256(size)
    ensures i + 1 < size ==> r.Got? ==> pos + 6 <= r.pos
    ensures !r.Panic?
    decreases size - i
  {
    if i == size - 1 then ReadLast(bits, pos)
    else
      var zero :- ReadBit(bits, pos);
      if zero then ReadCompressed(bits, pos + 1, size, i + 1)
      else
        var bytes :- ReadBytes(bits, pos + 1, size - i);
        LeShiftedBound(bytes, i);
        Got(LeShifted(bytes, i), pos + 1 + 8 * (size - i))
  }

  /** What a `u32` comes back as. */
  function Garbled(v: u32): u32 {
    if 0x100 <= v < 0x1_0000 then v * 0x1_0000
    else if 0x1_0000 <= v < 0x100_0000 then v * 0x100
    else v
  }

  /** The test for an all-zero leading byte, among values that fit in the bytes left. */
  lemma {:induction false} LeadingByte(v: nat, k: nat)
    requires k <= 3 && v < Pow256(k + 1)
    ensures ByteOf(v, k) == 0 <==> v < Pow256(k)
  {
    if k > 0 {
      LeadingByte(v / 256, k - 1);
    }
  }

  lemma ReadLastAt(bits: Bits, pos: nat, b: byte)
    requires At(bits, pos, LastBits(b))
    ensures ReadLast(bits, pos) == Got(b, pos + |LastBits(b)|)
  {
    if b < 16 {
      ReadFlagAt(bits, pos, true, NatBits(b, 4));
      Pow2Byte();
      ReadBitsAt(bits, pos + 1, b, 4);
    } else {
      ReadFlagAt(bits, pos, false, ByteBits(b));
      ReadByteAt(bits, pos + 1, b);
    }
  }

  lemma ReadShiftedAt(bits: Bits, pos: nat, v: nat, size: nat, i: nat)
    requires i < size - 1 && size <= 4 && v < Pow256(size - i)
    requires At(bits, pos, [false] + BytesBits(LeBytes(v, size - i)))
    ensures ReadCompressed(bits, pos, size, i) == Got(ShiftLeft(v, i), pos + 1 + 8 * (size - i))
  {
    hide LeBytes, LeShifted, LowBytes, BytesBits, PackBytes, ShiftLeft;
    var bytes := LeBytes(v, size - i);
    ReadFlagAt(bits, pos, false, BytesBits(bytes));
    ReadBytesAt(bits, pos + 1, bytes, size - i);
    LeBytesShifted(v, size - i, i);
    LowBytesAll(v, size - i);
    assert LeShifted(bytes, i) == ShiftLeft(v, i);
  }

  /** Reading back from byte test `i`: the first non-zero byte decides how far the value is shifted. */
  lemma {:induction false} ReadCompressedAt(bits: Bits, pos: nat, v: nat, size: nat, i: nat)
    requires IsSize(size) && i < size && v < Pow256(size - i)
    requires At(bits, pos, CompressedBits(v, size, i))
    ensures ReadCompressed(bits, pos, size, i) ==
            Got(if v < 256 then v else ShiftLeft(v, ShiftOf(v, size, i)), pos + |CompressedBits(v, size, i)|)
    decreases size - i
  {
    hide LeBytes, LastBits, BytesBits, ByteOf, ShiftLeft, ReadLast;
    if i == size - 1 {
      assert v < 256;
      assert ReadCompressed(bits, pos, size, i) == ReadLast(bits, pos);
      ReadLastAt(bits, pos, v);
    } else {
      LeadingByte(v, size - 1 - i);
      if v < Pow256(size - 1 - i) {
        ReadFlagAt(bits, pos, true, CompressedBits(v, size, i + 1));
        ReadCompressedAt(bits, pos + 1, v, size, i + 1);
      } else {
        ReadShiftedAt(bits, pos, v, size, i);
      }
    }
  }

  /** The number of leading zero bytes, counted from byte test `i`. */
  function ShiftOf(v: nat, size: nat, i: nat): nat
    requires i < size <= 4
    decreases size - i
  {
    if i == size - 1 || v >= Pow256(size - 1 - i) then i else ShiftOf(v, size, i + 1)
  }

  /** A `u16` is always read back as written, and exactly its bits are consumed. */
  lemma CompressedU16At(bits: Bits, pos: nat, v: u16)
    requires At(bits, pos, CompressedBits(v, 2, 0))
    ensures ReadCompressed(bits, pos, 2, 0) == Got(v, pos + |CompressedBits(v, 2, 0)|)
  {
    ReadCompressedAt(bits, pos, v, 2, 0);
  }

  /** A `u32` consumes exactly its bits, but comes back shifted by its leading zero bytes. */
  lemma CompressedU32At(bits: Bits, pos: nat, v: u32)
    requires At(bits, pos, CompressedBits(v, 4, 0))
    ensures ReadCompressed(bits, pos, 4, 0) == Got(Garbled(v), pos + |CompressedBits(v, 4, 0)|)
  {
    ReadCompressedAt(bits, pos, v, 4, 0);
    assert v >= 0x100_0000 ==> ShiftOf(v, 4, 0) == 0;
    assert 0x1_0000 <= v < 0x100_0000 ==> ShiftOf(v, 4, 0) == 1;
    assert 0x100 <= v < 0x1_0000 ==> ShiftOf(v, 4, 0) == 2;
  }

  /** The values a `u32` field carries intact. */
  predicate IsExact(v: u32) {
    v < 0x100 || v >= 0x100_0000
  }

  /** The round trip is the identity on exactly the values below 2^8 and from 2^24 on. */
  lemma RoundTripIff(v: u32)
    ensures ReadCompressed(CompressedBits(v, 4, 0), 0, 4, 0) == Got(v, |CompressedBits(v, 4, 0)|) <==> IsExact(v)
  {
    var bits := CompressedBits(v, 4, 0);
    assert bits[0..|bits|] == bits;
    CompressedU32At(bits, 0, v);
  }

  function LengthU16(v: u16): nat {
    if v >= 0x100 then 17 else if v >= 16 then 10 else 6
  }

  function LengthU32(v: u32): nat {
    if v >= 0x100_0000 then 33
    else if v >= 0x1_0000 then 26
    else if v >= 0x100 then 19
    else if v >= 16 then 12
    else 8
  }

  /** How many bits a compressed value takes. */
  lemma CompressedLengths(v: u32)
    ensures v < 0x1_0000 ==> |CompressedBits(v, 2, 0)| == LengthU16(v)
    ensures |CompressedBits(v, 4, 0)| == LengthU32(v)
  {
    LeadingByte(v, 3);
    if v < 0x100_0000 {
      LeadingByte(v, 2);
    }
    if v < 0x1_0000 {
      LeadingByte(v, 1);
    }
  }

  method WriteCompressed(writer: BitWriter, v: nat, size: nat)
    requires IsSize(size) && v < Pow256(size)
    modifies writer
    ensures writer.bits == old(writer.bits) + CompressedBits(v, size, 0)
  {
    hide LastBits, LeBytes, BytesBits, ByteOf;
    var i := 0;
    while i < size - 1
      invariant i <= size - 1
      invariant writer.bits + CompressedBits(v, size, i) == old(writer.bits) + CompressedBits(v, size, 0)
    {
      var zero := ByteOf(v, size - 1 - i) == 0;
      ghost var before, rest := writer.bits, CompressedBits(v, size, i);
      writer.WriteBit(zero);
      if !zero {
        WriteLowBytes(writer, v, size - i);
        assert writer.bits == before + rest;
        return;
      }
      assert rest == [true] + CompressedBits(v, size, i + 1);
      AppendFlag(before, true, CompressedBits(v, size, i + 1));
      i := i + 1;
    }
    WriteLast(writer, v % 256);
  }

  lemma AppendFlag(before: Bits, b: bool, rest: Bits)
    ensures before + [b] + rest == before + ([b] + rest)
  {
  }

  method WriteLast(writer: BitWriter, b: byte)
    modifies writer
    ensures writer.bits == old(writer.bits) + LastBits(b)
  {
    var zero := b < 16;
    writer.WriteBit(zero);
    if zero {
      writer.WriteBits(b, 4);
    } else {
      writer.WriteByte(b);
    }
  }

  method WriteLowBytes(writer: BitWriter, v: nat, n: nat)
    requires n <= 4
    modifies writer
    ensures writer.bits == old(writer.bits) + BytesBits(LeBytes(v, n))
  {
    for j := 0 to n
      invariant writer.bits == old(writer.bits) + BytesBits(LeBytes(v, j))
    {
      BytesBitsAppend(LeBytes(v, j), ByteOf(v, j));
      writer.WriteByte(ByteOf(v, j));
    }
  }

  method ReadCompressedFrom(reader: BitReader, size: nat) returns (r: Read<nat>)
    requires IsSize(size)
    modifies reader
    ensures r == ReadCompressed(reader.bits, old(reader.pos), size, 0) && (r.Got? ==> reader.pos == r.pos)
  {
    for i := 0 to size - 1
      invariant ReadCompressed(reader.bits, old(reader.pos), size, 0) ==
                ReadCompressed(reader.bits, reader.pos, size, i)
    {
      var zero :- reader.ReadOne();
      if zero {
        continue;
      }
      r := ReadShifted(reader, size, i);
      return;
    }
    r := ReadLastFrom(reader);
  }

  method ReadLastFrom(reader: BitReader) returns (r: Read<byte>)
    modifies reader
    ensures r == ReadLast(reader.bits, old(reader.pos)) && (r.Got? ==> reader.pos == r.pos)
  {
    var zero :- reader.ReadOne();
    Pow2Byte();
    if zero {
      r := reader.ReadSome(4);
    } else {
      r := reader.ReadOneByte();
    }
  }

  lemma ReadsNone(bits: Bits, pos: nat, i: nat)
    requires pos <= |bits| && i <= 4
    ensures LeShifted([], i) == 0 && ReadBytes(bits, pos, 0) == Got([], pos)
  {
  }

  /** The accumulating loop `res |= byte << 8*j`; the byte lanes are disjoint, so `|=` adds. */
  method ReadShifted(reader: BitReader, size: nat, i: nat) returns (r: Read<nat>)
    requires IsSize(size) && i < size && reader.pos <= |reader.bits|
    modifies reader
    ensures var bytes := ReadBytes(reader.bits, old(reader.pos), size - i);
            r == if bytes.Got? then Got(LeShifted(bytes.value, i), bytes.pos) else Eof
    ensures r.Got? ==> reader.pos == r.pos
  {
    hide LeShifted, ReadBytes, ReadByte, ShiftLeft;
    var res := 0;
    ReadsNone(reader.bits, reader.pos, i);
    ghost var got: Bytes := [];
    for j := i to size
      invariant ReadBytes(reader.bits, old(reader.pos), j - i) == Got(got, reader.pos)
      invariant res == LeShifted(got, i)
    {
      var b :- reader.ReadOneByte();
      ReadBytesNext(reader.bits, old(reader.pos), j - i);
      LeShiftedAppend(got, b, i);
      res := res + ShiftLeft(b, j);
      got := got + [b];
    }
    return Got(res, reader.pos);
  }
}
