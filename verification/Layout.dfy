/** The bytes on the wire, spelled out: the orders of bits and bytes, the ids, and whole examples. */
module Layout {
  import opened Words
  import opened Packets
  import opened Bits
  import opened Compressed
  import opened PacketCodec
  import opened AckCodec
  import opened RangeLists
  import opened Datagrams
  import opened Framing
  import opened TcpUdp

  /** Bit `i` of an `n`-bit number is the one worth 2^(n-1-i): the most significant comes first. */
  lemma {:induction false} MostSignificantFirst(v: nat, n: nat, i: nat)
    requires i < n
    ensures Pow2(n - 1 - i) > 0
    ensures NatBits(v, n)[i] <==> v / Pow2(n - 1 - i) % 2 == 1
  {
    if i < n - 1 {
      MostSignificantFirst(v / 2, n - 1, i);
      HalfOf(v, Pow2(n - 2 - i));
    }
  }

  lemma HalfOf(v: nat, p: nat)
    requires p > 0
    ensures v / 2 / p == v / (2 * p)
  {
    var q, r := v / 2 / p, v / 2 % p;
    assert v / 2 == q * p + r;
    assert v == q * (2 * p) + (2 * r + v % 2);
    QuotientIs(v, 2 * p, q, 2 * r + v % 2);
  }

  lemma QuotientIs(v: nat, p: nat, q: nat, r: nat)
    requires p > 0 && r < p && v == q * p + r
    ensures v / p == q
  {
    var k := v / p;
    assert k * p <= v < k * p + p;
    if k < q {
      TimesGrows(k + 1, q, p);
      assert false;
    } else if q < k {
      TimesGrows(q + 1, k, p);
      assert false;
    }
  }

  lemma TimesGrows(a: nat, b: nat, p: nat)
    requires a <= b
    ensures a * p <= b * p
  {
  }

  /** The least significant byte comes first. */
  lemma LittleEndian(v: u32)
    ensures LeBytes(v, 4) == [v % 0x100, v / 0x100 % 0x100, v / 0x1_0000 % 0x100, v / 0x100_0000 % 0x100]
    ensures LeBytes(v, 2) == [v % 0x100, v / 0x100 % 0x100]
  {
    assert v / 0x100 / 0x100 == v / 0x1_0000 && v / 0x1_0000 / 0x100 == v / 0x100_0000;
    assert ByteOf(v, 0) == v % 0x100;
    assert ByteOf(v, 1) == ByteOf(v / 0x100, 0);
    assert ByteOf(v, 2) == ByteOf(v / 0x100, 1) == ByteOf(v / 0x100 / 0x100, 0);
    assert ByteOf(v, 3) == ByteOf(v / 0x100, 2) == ByteOf(v / 0x100 / 0x100, 1) == ByteOf(v / 0x1_0000 / 0x100, 0);
    hide ByteOf;
    assert LeBytes(v, 1) == [ByteOf(v, 0)];
    assert LeBytes(v, 2) == [ByteOf(v, 0), ByteOf(v, 1)];
    assert LeBytes(v, 3) == [ByteOf(v, 0), ByteOf(v, 1), ByteOf(v, 2)];
    assert LeBytes(v, 4) == [ByteOf(v, 0), ByteOf(v, 1), ByteOf(v, 2), ByteOf(v, 3)];
  }

  /** Three bits tell the reliability; an ordering index follows five zeros. */
  lemma ReliabilityIds(ord: u32)
    ensures RelBits(UnreliableData) == [false, false, false]
    ensures RelBits(ReliableData) == [false, true, false]
    ensures RelBits(UnreliableSequencedData(ord)) ==
            [false, false, true] + ([false, false, false, false, false] + BytesBits(LeBytes(ord, 4)))
    ensures RelBits(ReliableOrderedData(ord)) ==
            [false, true, true] + ([false, false, false, false, false] + BytesBits(LeBytes(ord, 4)))
  {
    hide LeBytes, BytesBits;
    assert NatBits(0, 3) == [false, false, false] && NatBits(1, 3) == [false, false, true];
    assert NatBits(2, 3) == [false, true, false] && NatBits(3, 3) == [false, true, true];
    assert NatBits(0, 5) == [false, false, false, false, false];
  }

  // A stream as one number, to compare it with bytes

  lemma {:induction false} ValueConcat(a: Bits, b: Bits)
    ensures BitsValue(a + b) == BitsValue(a) * Pow2(|b|) + BitsValue(b)
  {
    if b == [] {
      assert a + b == a;
    } else {
      var n := |b| - 1;
      ValueConcat(a, b[..n]);
      assert (a + b)[..|a + b| - 1] == a + b[..n];
      Doubled(BitsValue(a), Pow2(n), BitsValue(b[..n]), if b[n] then 1 else 0);
    }
  }

  lemma Doubled(v: nat, p: nat, w: nat, bit: nat)
    ensures 2 * (v * p + w) + bit == v * (2 * p) + (2 * w + bit)
  {
  }

  lemma Append(bits: Bits, piece: Bits, v: nat, w: nat, p: nat)
    requires BitsValue(bits) == v && BitsValue(piece) == w && Pow2(|piece|) == p
    ensures BitsValue(bits + piece) == v * p + w
  {
    ValueConcat(bits, piece);
  }

  /** The bytes as digits of one number. */
  function BytesValue(bytes: Bytes, n: nat): nat
    requires n <= |bytes|
  {
    if n == 0 then 0 else BytesValue(bytes, n - 1) * 256 + bytes[n - 1]
  }

  lemma {:induction false} ValueOfBytes(bytes: Bytes, n: nat)
    requires n <= |bytes|
    ensures BitsValue(BytesBits(bytes[..n])) == BytesValue(bytes, n)
  {
    if n > 0 {
      ValueOfBytes(bytes, n - 1);
      Pow2Byte();
      NatBitsValue(bytes[n - 1], 8);
      BytesBitsAppend(bytes[..n - 1], bytes[n - 1]);
      assert bytes[..n] == bytes[..n - 1] + [bytes[n - 1]];
      Append(BytesBits(bytes[..n - 1]), ByteBits(bytes[n - 1]), BytesValue(bytes, n - 1), bytes[n - 1], 256);
    }
  }

  lemma {:induction false} ValueOfZeros(n: nat)
    ensures BitsValue(Zeros(n)) == 0
  {
    if n > 0 {
      ValueOfZeros(n - 1);
      assert Zeros(n)[..n - 1] == Zeros(n - 1);
    }
  }

  /** Streams of the same length and value are the same. */
  lemma SameValue(a: Bits, b: Bits)
    requires |a| == |b| && BitsValue(a) == BitsValue(b)
    ensures a == b
  {
    BitsValueBits(a);
    BitsValueBits(b);
    hide *;
  }

  lemma Packed(bits: Bits, bytes: Bytes, v: nat, pad: nat, p: nat)
    requires BitsValue(bits) == v && PadLen(|bits|) == pad && Pow2(pad) == p
    requires |bits| + pad == 8 * |bytes| && v * p == BytesValue(bytes, |bytes|)
    ensures ToBytes(bits) == bytes
  {
    hide *;
    ValueOfZeros(pad);
    Append(bits, Zeros(pad), v, 0, p);
    assert bytes[..|bytes|] == bytes;
    ValueOfBytes(bytes, |bytes|);
    SameValue(bits + Zeros(pad), BytesBits(bytes));
    BytesBitsPack(bytes);
    ToBytesIs(bits);
  }

  lemma ToBytesIs(bits: Bits)
    ensures ToBytes(bits) == PackBytes(bits + Zeros(PadLen(|bits|)), (|bits| + PadLen(|bits|)) / 8)
  {
  }

  lemma Powers()
    ensures Pow2(0) == 1 && Pow2(1) == 2 && Pow2(2) == 4 && Pow2(3) == 8 && Pow2(4) == 16 && Pow2(5) == 32
    ensures Pow2(6) == 64 && Pow2(7) == 128 && Pow2(8) == 256 && Pow2(16) == 0x1_0000 && Pow2(32) == 0x1_0000_0000
  {
    assert Pow2(6) == 64 && Pow2(12) == 4096 && Pow2(16) == 0x1_0000;
    assert Pow2(20) == 0x10_0000 && Pow2(26) == 0x400_0000 && Pow2(32) == 0x1_0000_0000;
  }

  lemma FlagValue(b: bool)
    ensures BitsValue([b]) == if b then 1 else 0
  {
    assert [b][..0] == [];
  }

  /** A little-endian field, as a number with its bytes reversed. */
  lemma LeField(v: u32)
    ensures BitsValue(BytesBits(LeBytes(v, 4))) ==
            v % 0x100 * 0x100_0000 + v / 0x100 % 0x100 * 0x1_0000 + v / 0x1_0000 % 0x100 * 0x100
            + v / 0x100_0000 % 0x100
    ensures BitsValue(BytesBits(LeBytes(v, 2))) == v % 0x100 * 0x100 + v / 0x100 % 0x100
  {
    hide *;
    LittleEndian(v);
    var b4, b2 := LeBytes(v, 4), LeBytes(v, 2);
    ValueOfBytes(b4, 4);
    ValueOfBytes(b2, 2);
    assert b4[..4] == b4 && b2[..2] == b2;
    Digits(b4);
    Digits(b2);
  }

  lemma Digits(bytes: Bytes)
    ensures |bytes| >= 2 ==> BytesValue(bytes, 2) == bytes[0] as int * 0x100 + bytes[1]
    ensures |bytes| == 4 ==>
              BytesValue(bytes, 4) ==
              bytes[0] as int * 0x100_0000 + bytes[1] as int * 0x1_0000 + bytes[2] as int * 0x100 + bytes[3]
  {
    if |bytes| >= 2 {
      assert BytesValue(bytes, 1) == bytes[0];
    }
    if |bytes| == 4 {
      assert BytesValue(bytes, 3) == BytesValue(bytes, 2) * 256 + bytes[2];
    }
  }

  // Examples

  /** The examples of the program's tests (src/raknet/comp.rs:108-170). */
  lemma CompressedExamples()
    ensures ToBytes(CompressedBits(14, 2, 0)) == [0xf8] && ToBytes(CompressedBits(14, 4, 0)) == [0xfe]
    ensures ToBytes(CompressedBits(47975, 2, 0)) == [0x33, 0xdd, 0x80]
    ensures ToBytes(CompressedBits(3925837394, 4, 0)) == [0x29, 0x43, 0x7f, 0xf4, 0x80]
  {
    hide *;
    Powers();
    FlagValue(true);
    FlagValue(false);
    LeField(47975);
    LeField(3925837394);
    FourteenValue();
    CompressedShapes();
    Append([true], NatBits(14, 4), 1, 14, 16);
    Append([true], [true] + NatBits(14, 4), 1, 30, 32);
    Append([true], CompressedBits(14, 2, 0), 1, 62, 64);
    Append([true], [true] + CompressedBits(14, 2, 0), 1, 126, 128);
    Append([false], BytesBits(LeBytes(47975, 2)), 0, 0x67bb, 0x1_0000);
    Append([false], BytesBits(LeBytes(3925837394, 4)), 0, 0x5286_ffe9, 0x1_0000_0000);
    ExampleBytes();
    Packed(CompressedBits(14, 2, 0), [0xf8], 62, 2, 4);
    Packed(CompressedBits(14, 4, 0), [0xfe], 254, 0, 1);
    Packed(CompressedBits(47975, 2, 0), [0x33, 0xdd, 0x80], 0x67bb, 7, 128);
    Packed(CompressedBits(3925837394, 4, 0), [0x29, 0x43, 0x7f, 0xf4, 0x80], 0x5286_ffe9, 7, 128);
  }

  lemma FourteenValue()
    ensures BitsValue(NatBits(14, 4)) == 14
  {
    Powers();
    NatBitsValue(14, 4);
  }

  lemma ExampleBytes()
    ensures BytesValue([0xf8], 1) == 62 * 4 && BytesValue([0xfe], 1) == 254
    ensures BytesValue([0x33, 0xdd, 0x80], 3) == 0x67bb * 128
    ensures BytesValue([0x29, 0x43, 0x7f, 0xf4, 0x80], 5) == 0x5286_ffe9 * 128
    ensures PadLen(6) == 2 && PadLen(8) == 0 && PadLen(17) == 7 && PadLen(33) == 7
  {
    assert BytesValue([0x29, 0x43, 0x7f, 0xf4, 0x80], 2) == 0x2943;
    assert BytesValue([0x29, 0x43, 0x7f, 0xf4, 0x80], 4) == 0x2943_7ff4;
  }

  lemma CompressedShapes()
    ensures CompressedBits(14, 2, 0) == [true] + ([true] + NatBits(14, 4))
    ensures CompressedBits(14, 4, 0) == [true] + ([true] + CompressedBits(14, 2, 0))
    ensures CompressedBits(47975, 2, 0) == [false] + BytesBits(LeBytes(47975, 2))
    ensures CompressedBits(3925837394, 4, 0) == [false] + BytesBits(LeBytes(3925837394, 4))
  {
    hide NatBits, LeBytes, BytesBits;
    assert CompressedBits(14, 2, 1) == [true] + NatBits(14, 4);
    assert CompressedBits(14, 4, 3) == [true] + NatBits(14, 4);
    assert CompressedBits(14, 4, 2) == [true] + CompressedBits(14, 4, 3);
    assert CompressedBits(14, 4, 1) == [true] + CompressedBits(14, 4, 2);
  }

  lemma Pow2Add(a: nat, b: nat)
    ensures Pow2(a + b) == Pow2(a) * Pow2(b)
  {
    if b > 0 {
      Pow2Add(a, b - 1);
      Doubled(Pow2(a), Pow2(b - 1), 0, 0);
    }
  }

  lemma RangeValue(r: Range)
    ensures r.min == r.max ==>
              && Pow2(|RangeBits(r)|) == 0x2_0000_0000
              && BitsValue(RangeBits(r)) == 0x1_0000_0000 + BitsValue(BytesBits(LeBytes(r.min, 4)))
    ensures r.min != r.max ==>
              && Pow2(|RangeBits(r)|) == 0x2_0000_0000_0000_0000
              && BitsValue(RangeBits(r)) ==
                 BitsValue(BytesBits(LeBytes(r.min, 4))) * 0x1_0000_0000 + BitsValue(BytesBits(LeBytes(r.max, 4)))
  {
    Powers();
    Pow2Add(1, 32);
    Pow2Add(33, 32);
    FlagValue(r.min == r.max);
    hide BitsValue, Pow2, LeBytes, BytesBits;
    var min, max := U32Bits(r.min), U32Bits(r.max);
    if r.min == r.max {
      assert RangeBits(r) == [true] + min;
      Append([true], min, 1, BitsValue(min), 0x1_0000_0000);
    } else {
      Append(min, max, BitsValue(min), BitsValue(max), 0x1_0000_0000);
      Append([false], min + max, 0, BitsValue(min + max), Pow2(64));
    }
  }

  lemma FourRangesBits()
    ensures var a, b, c, d := Range(1, 3), Range(5, 6), Range(8, 8), Range(14, 17);
            ListBits([a, b, c, d]) ==
            CompressedBits(4, 2, 0) + RangeBits(a) + RangeBits(b) + RangeBits(c) + RangeBits(d)
  {
    hide *;
    var a, b, c, d := Range(1, 3), Range(5, 6), Range(8, 8), Range(14, 17);
    NextRange([], a);
    NextRange([a], b);
    NextRange([a, b], c);
    NextRange([a, b, c], d);
    ListIs([a, b, c, d]);
    assert [] + [a] == [a] && [a] + [b] == [a, b] && [a, b] + [c] == [a, b, c] && [a, b, c] + [d] == [a, b, c, d];
    FiveParts(CompressedBits(4, 2, 0), RangeBits(a), RangeBits(b), RangeBits(c), RangeBits(d));
  }

  lemma NextRange(rs: seq<Range>, r: Range)
    ensures RangesBits([]) == [] && RangesBits(rs + [r]) == RangesBits(rs) + RangeBits(r)
  {
    hide RangeBits;
    assert (rs + [r])[..|rs|] == rs;
  }

  lemma ListIs(rs: seq<Range>)
    requires |rs| < 0x1_0000
    ensures ListBits(rs) == CompressedBits(|rs|, 2, 0) + RangesBits(rs)
  {
    hide RangesBits, CompressedBits;
  }

  lemma FiveParts(n: Bits, a: Bits, b: Bits, c: Bits, d: Bits)
    ensures n + ([] + a + b + c + d) == n + a + b + c + d
  {
    assert [] + a == a;
  }

  lemma FourValue()
    ensures BitsValue(CompressedBits(4, 2, 0)) == 52 && |CompressedBits(4, 2, 0)| == 6
  {
    Powers();
    FlagValue(true);
    NatBitsValue(4, 4);
    assert CompressedBits(4, 2, 1) == [true] + NatBits(4, 4);
    assert CompressedBits(4, 2, 0) == [true] + ([true] + NatBits(4, 4));
    Append([true], NatBits(4, 4), 1, 4, 16);
    Append([true], [true] + NatBits(4, 4), 1, 20, 32);
  }

  const FOUR_RANGES: Bytes :=
    [0xd0, 2, 0, 0, 0, 6, 0, 0, 0, 5, 0, 0, 0, 6, 0, 0, 0, 0x84, 0, 0, 0, 3, 0x80, 0, 0, 4, 0x40, 0, 0, 0]

  lemma SixDigits(bytes: Bytes, n: nat, v: nat, w: nat)
    requires n + 6 <= |bytes| && BytesValue(bytes, n) == v
    requires w == bytes[n] as int * 0x100_0000_0000 + bytes[n + 1] as int * 0x1_0000_0000
                  + bytes[n + 2] as int * 0x100_0000 + bytes[n + 3] as int * 0x1_0000
                  + bytes[n + 4] as int * 0x100 + bytes[n + 5]
    ensures BytesValue(bytes, n + 6) == v * 0x1_0000_0000_0000 + w
  {
    assert BytesValue(bytes, n + 2) == v * 0x1_0000 + bytes[n] as int * 0x100 + bytes[n + 1];
    assert BytesValue(bytes, n + 4) ==
           BytesValue(bytes, n + 2) * 0x1_0000 + bytes[n + 2] as int * 0x100 + bytes[n + 3];
  }

  lemma FirstDigits()
    ensures BytesValue(FOUR_RANGES, 12) == 0xd00200000006000000050000
  {
    var bytes := FOUR_RANGES;
    NoDigits(bytes);
    hide BytesValue;
    SixDigits(bytes, 0, 0, 0xd00200000006);
    SixDigits(bytes, 6, 0xd00200000006, 0x50000);
  }

  lemma MoreDigits()
    ensures BytesValue(FOUR_RANGES, 18) == 0xd00200000006000000050000000600000084
  {
    var bytes := FOUR_RANGES;
    FirstDigits();
    hide BytesValue;
    SixDigits(bytes, 12, 0xd00200000006000000050000, 0x600000084);
  }

  lemma FourRangesValue()
    ensures |FOUR_RANGES| == 30
    ensures BytesValue(FOUR_RANGES, 30) == 0x34008000000180000001400000018000002100000000e00000011000000 * 64
  {
    var bytes := FOUR_RANGES;
    MoreDigits();
    hide BytesValue;
    SixDigits(bytes, 18, 0xd00200000006000000050000000600000084, 0x38000);
    SixDigits(bytes, 24, 0xd00200000006000000050000000600000084000000038000, 0x440000000);
  }

  lemma NoDigits(bytes: Bytes)
    ensures BytesValue(bytes, 0) == 0
  {
  }

  lemma PaddedTo30()
    ensures PadLen(234) == 6 && Pow2(6) == 64
  {
    Powers();
  }

  /** The bytes of the program's test (src/raknet/rangelist.rs:157). */
  lemma RangeListExample()
    ensures ToBytes(ListBits(InsertedAll([], [1, 2, 3, 5, 6, 8, 14, 15, 16, 17]))) == FOUR_RANGES
  {
    hide *;
    var a, b, c, d := Range(1, 3), Range(5, 6), Range(8, 8), Range(14, 17);
    FourRanges();
    FourRangesBits();
    FourValue();
    SmallFields();
    RangeValue(a);
    RangeValue(b);
    RangeValue(c);
    RangeValue(d);
    var b0 := CompressedBits(4, 2, 0);
    var b1 := b0 + RangeBits(a);
    var b2 := b1 + RangeBits(b);
    var b3 := b2 + RangeBits(c);
    var b4 := b3 + RangeBits(d);
    Append(b0, RangeBits(a), 52, 0x0100_0000_0300_0000, 0x2_0000_0000_0000_0000);
    Append(b1, RangeBits(b), 0x68_0100_0000_0300_0000, 0x0500_0000_0600_0000, 0x2_0000_0000_0000_0000);
    Append(b2, RangeBits(c), 0xd002000000060000000500000006000000, 0x1_0800_0000, 0x2_0000_0000);
    Append(b3, RangeBits(d), 0x1a0040000000c0000000a0000000c00000108000000, 0x0e00_0000_1100_0000,
           0x2_0000_0000_0000_0000);
    RangeLength(a);
    RangeLength(b);
    RangeLength(c);
    RangeLength(d);
    FourRangesValue();
    PaddedTo30();
    Packed(b4, FOUR_RANGES, 0x34008000000180000001400000018000002100000000e00000011000000, 6, 64);
  }

  lemma SmallFields()
    ensures BitsValue(BytesBits(LeBytes(1, 4))) == 0x100_0000 && BitsValue(BytesBits(LeBytes(3, 4))) == 0x300_0000
    ensures BitsValue(BytesBits(LeBytes(5, 4))) == 0x500_0000 && BitsValue(BytesBits(LeBytes(6, 4))) == 0x600_0000
    ensures BitsValue(BytesBits(LeBytes(8, 4))) == 0x800_0000 && BitsValue(BytesBits(LeBytes(14, 4))) == 0xe00_0000
    ensures BitsValue(BytesBits(LeBytes(17, 4))) == 0x1100_0000
  {
    hide *;
    SmallField(1);
    SmallField(3);
    SmallField(5);
    SmallField(6);
    SmallField(8);
    SmallField(14);
    SmallField(17);
  }

  lemma SmallField(v: byte)
    ensures BitsValue(BytesBits(LeBytes(v, 4))) == v as int * 0x100_0000
  {
    hide *;
    LeField(v);
    OneDigit(v);
  }

  lemma OneDigit(v: byte)
    ensures v % 0x100 == v && v / 0x100 % 0x100 == 0 && v / 0x1_0000 % 0x100 == 0 && v / 0x100_0000 % 0x100 == 0
  {
  }

  lemma EightValue()
    ensures BitsValue(CompressedBits(8, 2, 0)) == 56 && |CompressedBits(8, 2, 0)| == 6
  {
    Powers();
    FlagValue(true);
    NatBitsValue(8, 4);
    assert CompressedBits(8, 2, 1) == [true] + NatBits(8, 4);
    assert CompressedBits(8, 2, 0) == [true] + ([true] + NatBits(8, 4));
    Append([true], NatBits(8, 4), 1, 8, 16);
    Append([true], [true] + NatBits(8, 4), 1, 24, 32);
  }

  /** The packet with number 0 that says goodbye: no ordering index, no split header, one byte of data. */
  const NOTICE: RaknetPacket := RaknetPacket(0, UnreliableData, None, [19])

  lemma NoticeHeader()
    ensures Encodable(NOTICE) && |HeaderBits(NOTICE)| == 42 && BitsValue(HeaderBits(NOTICE)) == 56
  {
    EightValue();
    SmallField(0);
    FlagValue(false);
    ReliabilityIds(0);
    var number, id, length := U32Bits(0), [false, false, false], CompressedBits(8, 2, 0);
    assert HeaderBits(NOTICE) == number + (id + ([false] + length)) by {
      hide BytesBits, LeBytes, CompressedBits;
      assert SplitBits(None) == [false];
    }
    assert BitsValue(id) == 0;
    hide *;
    Append([false], length, 0, 56, Pow2(|length|));
    Append(id, [false] + length, 0, 56, Pow2(|[false] + length|));
    Append(number, id + ([false] + length), 0, 56, Pow2(|id + ([false] + length)|));
  }

  lemma NineteenValue()
    ensures BitsValue(ByteBits(19)) == 19 && BytesBits([19]) == ByteBits(19) && Pow2(12) == 0x1000
  {
    Powers();
    Pow2Add(4, 8);
    NatBitsValue(19, 8);
    BytesBitsAppend([], 19);
    assert [] + [19] == [19];
  }

  lemma NoticeShape()
    ensures Encodable(NOTICE)
    ensures |HeaderBits(NOTICE)| == 42 ==>
              PacketBits(NOTICE, 2) == HeaderBits(NOTICE) + (Zeros(4) + BytesBits([19]))
  {
    hide HeaderBits, BytesBits;
    assert PadLen(44) == 4;
  }

  lemma NoticeBits()
    ensures Encodable(NOTICE)
    ensures |PacketBits(NOTICE, 2)| == 54 && BitsValue(PacketBits(NOTICE, 2)) == 56 * 0x1000 + 19
  {
    hide *;
    NoticeHeader();
    NoticeShape();
    NineteenValue();
    ValueOfZeros(4);
    Append(Zeros(4), ByteBits(19), 0, 19, Pow2(|ByteBits(19)|));
    Append(HeaderBits(NOTICE), Zeros(4) + ByteBits(19), 56, 19, 0x1000);
  }

  lemma NoticeHead(time: u32)
    ensures Encodable(NOTICE) && HeadBits([], time) == Zeros(2)
    ensures PacketDatagram(NOTICE, [], time) == ToBytes(Zeros(2) + PacketBits(NOTICE, 2))
  {
    hide U32Bits, ListBits, PacketBits, ToBytes;
    assert AckBits([], time) == [false];
    assert HeadBits([], time) == Zeros(2);
  }

  lemma NoticeBytes()
    ensures BytesValue([0, 0, 0, 0, 3, 0x80, 0x13], 7) == 56 * 0x1000 + 19
    ensures Pow2(0) == 1 && PadLen(56) == 0
  {
    assert BytesValue([0, 0, 0, 0, 3, 0x80, 0x13], 4) == 0;
  }

  /** A new connection that is dropped sends these seven bytes. */
  lemma NoticeExample(time: u32)
    ensures Encodable(NOTICE) && PacketDatagram(NOTICE, [], time) == [0, 0, 0, 0, 3, 0x80, 0x13]
  {
    hide *;
    NoticeHead(time);
    NoticeBits();
    NoticeBytes();
    ValueOfZeros(2);
    var bits := Zeros(2) + PacketBits(NOTICE, 2);
    Append(Zeros(2), PacketBits(NOTICE, 2), 0, 56 * 0x1000 + 19, Pow2(|PacketBits(NOTICE, 2)|));
    Packed(bits, [0, 0, 0, 0, 3, 0x80, 0x13], 56 * 0x1000 + 19, 0, 1);
  }

  /** A frame is its length, least significant byte first, and the data. */
  lemma FrameBytes(data: Bytes)
    requires |data| < 0x1_0000_0000
    ensures Frame(data) ==
            [|data| % 0x100, |data| / 0x100 % 0x100, |data| / 0x1_0000 % 0x100, |data| / 0x100_0000 % 0x100] + data
  {
    LittleEndian(|data|);
  }

  /** An unreliable datagram starts with 0, a sequenced one with 1 and its number. */
  lemma DatagramIds(n: u32, data: Bytes)
    ensures UdpBytes(n, Packet(Unreliable, data)) == [0] + data
    ensures UdpBytes(n, Packet(UnreliableSequenced, data)) ==
            [1, n % 0x100, n / 0x100 % 0x100, n / 0x1_0000 % 0x100, n / 0x100_0000 % 0x100] + data
  {
    LittleEndian(n);
  }
}
