/** The wire form of the acknowledgement list (src/raknet/rangelist.rs). */
module AckCodec {
  import opened Words
  import opened Bits
  import opened Compressed
  import opened PacketCodec
  import opened RangeLists

  function RangeBits(r: Range): Bits {
    [r.min == r.max] + (U32Bits(r.min) + if r.min != r.max then U32Bits(r.max) else [])
  }

  function RangesBits(rs: seq<Range>): Bits {
    if rs == [] then [] else RangesBits(rs[..|rs| - 1]) + RangeBits(rs[|rs| - 1])
  }

  /** The count is cut to 16 bits; all ranges are written. */
  function ListBits(rs: seq<Range>): Bits {
    CompressedBits(|rs| % 0x1_0000, 2, 0) + RangesBits(rs)
  }

  function ReadRange(bits: Bits, pos: nat): (r: Read<Range>)
    ensures r.Got? ==> pos <= r.pos <= |bits|
    ensures !r.Panic?
  {
    var same :- ReadBit(bits, pos);
    var min := ReadU32(bits, pos + 1);
    if !min.Got? then Eof
    else if same then Got(Range(min.value, min.value), min.pos)
    else
      var max := ReadU32(bits, min.pos);
      if max.Got? then Got(Range(min.value, max.value), max.pos) else Eof
  }

  function ReadRanges(bits: Bits, pos: nat, n: nat): (r: Read<seq<Range>>)
    ensures r.Got? ==> pos <= r.pos
    ensures !r.Panic?
  {
    if n == 0 then Got([], pos)
    else
      var before :- ReadRanges(bits, pos, n - 1);
      var last := ReadRange(bits, ReadRanges(bits, pos, n - 1).pos);
      if last.Got? then Got(before + [last.value], last.pos) else Eof
  }

  function ReadList(bits: Bits, pos: nat): (r: Read<seq<Range>>)
    ensures r.Got? ==> pos <= r.pos
    ensures !r.Panic?
  {
    var count := ReadCompressed(bits, pos, 2, 0);
    if count.Got? then ReadRanges(bits, count.pos, count.value) else Eof
  }

  lemma ReadRangeAt(bits: Bits, pos: nat, r: Range)
    requires At(bits, pos, RangeBits(r))
    ensures ReadRange(bits, pos) == Got(r, pos + |RangeBits(r)|)
  {
    hide U32Bits, ReadU32, At;
    var tail := if r.min != r.max then U32Bits(r.max) else [];
    ReadFlagAt(bits, pos, r.min == r.max, U32Bits(r.min) + tail);
    AtConcat(bits, pos + 1, U32Bits(r.min), tail);
    ReadU32At(bits, pos + 1, r.min);
    if r.min != r.max {
      ReadU32At(bits, pos + 33, r.max);
    }
  }

  lemma {:induction false} ReadRangesAt(bits: Bits, pos: nat, rs: seq<Range>, n: nat)
    requires n == |rs| && At(bits, pos, RangesBits(rs))
    ensures ReadRanges(bits, pos, n) == Got(rs, pos + |RangesBits(rs)|)
  {
    hide RangeBits, ReadRange, At;
    if n > 0 {
      var init, last := rs[..n - 1], rs[n - 1];
      AtConcat(bits, pos, RangesBits(init), RangeBits(last));
      ReadRangesAt(bits, pos, init, n - 1);
      ReadRangeAt(bits, pos + |RangesBits(init)|, last);
      assert init + [last] == rs;
    }
  }

  /** At any offset and whatever surrounds it, a list of at most 65535 ranges is read back as written. */
  lemma ReadListAt(bits: Bits, pos: nat, rs: seq<Range>)
    requires |rs| < 0x1_0000 && At(bits, pos, ListBits(rs))
    ensures ReadList(bits, pos) == Got(rs, pos + |ListBits(rs)|)
  {
    hide CompressedBits, ReadCompressed, RangesBits, ReadRanges, At;
    var count := CompressedBits(|rs|, 2, 0);
    AtConcat(bits, pos, count, RangesBits(rs));
    CompressedU16At(bits, pos, |rs|);
    ReadRangesAt(bits, pos + |count|, rs, |rs|);
  }

  method WriteRange(writer: BitWriter, range: Range)
    modifies writer
    ensures writer.bits == old(writer.bits) + RangeBits(range)
  {
    hide BytesBits, LeBytes;
    writer.WriteBit(range.min == range.max);
    writer.WriteLe(range.min, 4);
    if range.min != range.max {
      writer.WriteLe(range.max, 4);
    }
  }

  method WriteList(writer: BitWriter, list: RangeList)
    modifies writer
    ensures writer.bits == old(writer.bits) + ListBits(list.ranges)
  {
    hide CompressedBits, BytesBits, LeBytes;
    WriteCompressed(writer, |list.ranges| % 0x1_0000, 2);
    ghost var start := writer.bits;
    for i := 0 to |list.ranges|
      invariant writer.bits == start + RangesBits(list.ranges[..i])
    {
      assert list.ranges[..i + 1][..i] == list.ranges[..i];
      hide RangeBits;
      WriteRange(writer, list.ranges[i]);
    }
    assert list.ranges[..|list.ranges|] == list.ranges;
  }

  method ReadListFrom(reader: BitReader) returns (r: Read<seq<Range>>)
    modifies reader
    ensures r == ReadList(reader.bits, old(reader.pos)) && (r.Got? ==> reader.pos == r.pos)
  {
    hide ReadCompressed, ReadLe;
    var count :- ReadCompressedFrom(reader, 2);
    ghost var start := reader.pos;
    var ranges: seq<Range> := [];
    for i := 0 to count
      invariant ReadRanges(reader.bits, start, i) == Got(ranges, reader.pos)
    {
      RangesFailTogether(reader.bits, start, i + 1, count);
      var same :- reader.ReadOne();
      var min :- reader.ReadInt(4);
      var max;
      if same {
        max := min;
      } else {
        max :- reader.ReadInt(4);
      }
      ranges := ranges + [Range(min, max)];
    }
    r := Got(ranges, reader.pos);
  }

  lemma {:induction false} RangesFailTogether(bits: Bits, pos: nat, n: nat, m: nat)
    requires n <= m
    ensures ReadRanges(bits, pos, n).Eof? ==> ReadRanges(bits, pos, m).Eof?
  {
    if n < m {
      RangesFailTogether(bits, pos, n, m - 1);
    }
  }
}
