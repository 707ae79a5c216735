/**
 * Bit streams as the shim's codecs use them: most significant bit first within a byte, integers as
 * little-endian bytes, alignment counted from the start of the datagram.
 */
module Bits {
  import opened Words

  type Bits = seq<bool>

  /** The outcome of reading: a value and the position after it, end of data, or a failed assertion. */
  datatype Read<+T> = Got(value: T, pos: nat) | Eof | Panic {
    predicate IsFailure() {
      !Got?
    }

    function PropagateFailure<U>(): Read<U>
      requires IsFailure()
    {
      if Eof? then Eof else Panic
    }

    function Extract(): T
      requires !IsFailure()
    {
      value
    }
  }

  function Pow2(n: nat): nat {
    if n == 0 then 1 else 2 * Pow2(n - 1)
  }

  /** The lowest `n` bits of `v`, most significant first. */
  function NatBits(v: nat, n: nat): (bits: Bits)
    ensures |bits| == n
  {
    if n == 0 then [] else NatBits(v / 2, n - 1) + [v % 2 == 1]
  }

  function BitsValue(bits: Bits): (v: nat)
    ensures v < Pow2(|bits|)
  {
    if bits == [] then 0
    else 2 * BitsValue(bits[..|bits| - 1]) + if bits[|bits| - 1] then 1 else 0
  }

  lemma {:induction false} NatBitsValue(v: nat, n: nat)
    requires v < Pow2(n)
    ensures BitsValue(NatBits(v, n)) == v
  {
    if n > 0 {
      NatBitsValue(v / 2, n - 1);
      assert NatBits(v, n)[..n - 1] == NatBits(v / 2, n - 1);
    }
  }

  lemma {:induction false} BitsValueBits(bits: Bits)
    ensures NatBits(BitsValue(bits), |bits|) == bits
  {
    if bits != [] {
      var n := |bits| - 1;
      BitsValueBits(bits[..n]);
      assert BitsValue(bits) / 2 == BitsValue(bits[..n]);
      assert bits == bits[..n] + [bits[n]];
    }
  }

  lemma Pow2Byte()
    ensures Pow2(1) == 2 && Pow2(3) == 8 && Pow2(4) == 16 && Pow2(5) == 32 && Pow2(8) == 256
  {
    assert Pow2(4) == 16;
    assert Pow2(6) == 64;
  }

  function ByteBits(b: byte): (bits: Bits)
    ensures |bits| == 8
  {
    NatBits(b, 8)
  }

  function ByteValue(bits: Bits): byte
    requires |bits| == 8
  {
    Pow2Byte();
    BitsValue(bits)
  }

  lemma ByteRoundTrip(b: byte)
    ensures ByteValue(ByteBits(b)) == b
  {
    Pow2Byte();
    NatBitsValue(b, 8);
  }

  function BytesBits(bytes: Bytes): (bits: Bits)
    ensures |bits| == 8 * |bytes|
  {
    if bytes == [] then [] else BytesBits(bytes[..|bytes| - 1]) + ByteBits(bytes[|bytes| - 1])
  }

  function Zeros(n: nat): (bits: Bits)
    ensures |bits| == n && forall i :: 0 <= i < n ==> !bits[i]
  {
    seq(n, _ => false)
  }

  /** The number of bits from `pos` to the next byte boundary. */
  function PadLen(pos: nat): (n: nat)
    ensures n < 8 && (pos + n) % 8 == 0
  {
    (8 - pos % 8) % 8
  }

  /** 256^n, for the widths that occur. */
  function Pow256(n: nat): (p: nat)
    requires n <= 4
  {
    if n == 0 then 1
    else if n == 1 then 0x100
    else if n == 2 then 0x1_0000
    else if n == 3 then 0x100_0000
    else 0x1_0000_0000
  }

  /** `v << 8*k`, without a width. */
  function ShiftLeft(v: nat, k: nat): nat
    requires k <= 4
  {
    if k == 0 then v
    else if k == 1 then v * 0x100
    else if k == 2 then v * 0x1_0000
    else if k == 3 then v * 0x100_0000
    else v * 0x1_0000_0000
  }

  /** The source's `(v >> 8*k) as u8`. */
  function ByteOf(v: nat, k: nat): byte {
    if k == 0 then v % 256 else ByteOf(v / 256, k - 1)
  }

  /** The number the lowest `n` bytes make up. */
  function LowBytes(v: nat, n: nat): nat
    requires n <= 4
  {
    if n == 0 then 0 else LowBytes(v, n - 1) + ShiftLeft(ByteOf(v, n - 1), n - 1)
  }

  /** The lowest `n` bytes of `v`, least significant first. */
  function LeBytes(v: nat, n: nat): (bytes: Bytes)
    requires n <= 4
    ensures |bytes| == n
  {
    if n == 0 then [] else LeBytes(v, n - 1) + [ByteOf(v, n - 1)]
  }

  /** The bytes put at byte positions `i`, `i + 1` and so on. The lanes are disjoint, so `|=` adds. */
  function LeShifted(bytes: Bytes, i: nat): nat
    requires |bytes| + i <= 4
  {
    if bytes == [] then 0
    else
      var n := |bytes| - 1;
      LeShifted(bytes[..n], i) + ShiftLeft(bytes[n], n + i)
  }

  function LeValue(bytes: Bytes): nat
    requires |bytes| <= 4
  {
    LeShifted(bytes, 0)
  }

  lemma LeShiftedAppend(bytes: Bytes, b: byte, i: nat)
    requires |bytes| + i < 4
    ensures LeShifted(bytes + [b], i) == LeShifted(bytes, i) + ShiftLeft(b, |bytes| + i)
  {
    assert (bytes + [b])[..|bytes|] == bytes;
  }

  lemma {:induction false} LeShiftedBound(bytes: Bytes, i: nat)
    requires |bytes| + i <= 4
    ensures LeShifted(bytes, i) < Pow256(|bytes| + i)
  {
    if bytes != [] {
      LeShiftedBound(bytes[..|bytes| - 1], i);
    }
  }

  /** Only the low bytes are written, and reading them at position `i` shifts them by `i` bytes. */
  lemma {:induction false} LeBytesShifted(v: nat, n: nat, i: nat)
    requires n + i <= 4
    ensures LeShifted(LeBytes(v, n), i) == ShiftLeft(LowBytes(v, n), i)
  {
    ShiftLeftAdds(0, 0, 0, i);
    hide ByteOf, ShiftLeft;
    if n > 0 {
      LeBytesShifted(v, n - 1, i);
      LeShiftedAppend(LeBytes(v, n - 1), ByteOf(v, n - 1), i);
      NextByte(v, n - 1, i);
    }
  }

  lemma ShiftLeftAdds(a: nat, b: nat, n: nat, i: nat)
    requires n + i <= 4
    ensures ShiftLeft(a + b, i) == ShiftLeft(a, i) + ShiftLeft(b, i)
    ensures ShiftLeft(ShiftLeft(a, n), i) == ShiftLeft(a, n + i)
    ensures ShiftLeft(0, i) == 0
  {
  }

  lemma NextByte(v: nat, n: nat, i: nat)
    requires n + i < 4
    ensures ShiftLeft(LowBytes(v, n), i) + ShiftLeft(ByteOf(v, n), n + i) == ShiftLeft(LowBytes(v, n + 1), i)
  {
    hide ByteOf, ShiftLeft;
    var low, b := LowBytes(v, n), ByteOf(v, n);
    ShiftLeftAdds(low, ShiftLeft(b, n), 0, i);
    ShiftLeftAdds(b, 0, n, i);
  }

  lemma {:induction false} LowBytesFirst(v: nat, n: nat)
    requires 1 <= n <= 4
    ensures LowBytes(v, n) == v % 256 + ShiftLeft(LowBytes(v / 256, n - 1), 1)
  {
    if n > 1 {
      LowBytesFirst(v, n - 1);
      var b := ByteOf(v, n - 1);
      assert b == ByteOf(v / 256, n - 2);
      hide ByteOf;
      ShiftLeftAdds(b, 0, n - 2, 1);
      ShiftLeftAdds(LowBytes(v / 256, n - 2), ShiftLeft(b, n - 2), 0, 1);
      hide ShiftLeft;
    } else {
      assert ByteOf(v, 0) == v % 256;
    }
  }

  lemma {:induction false} LowBytesAll(v: nat, n: nat)
    requires n <= 4 && v < Pow256(n)
    ensures LowBytes(v, n) == v
  {
    if n > 0 {
      LowBytesFirst(v, n);
      LowBytesAll(v / 256, n - 1);
    }
  }

  lemma LastByte(low: nat, b: byte, low': nat, b': byte, k: nat)
    requires k < 4 && low < Pow256(k) && low' < Pow256(k)
    requires low + ShiftLeft(b, k) == low' + ShiftLeft(b', k)
    ensures b == b' && low == low'
  {
  }

  lemma {:induction false} LeValueInjective(a: Bytes, b: Bytes)
    requires |a| == |b| <= 4 && LeValue(a) == LeValue(b)
    ensures a == b
  {
    if a != [] {
      var n := |a| - 1;
      LeShiftedBound(a[..n], 0);
      LeShiftedBound(b[..n], 0);
      LastByte(LeValue(a[..n]), a[n], LeValue(b[..n]), b[n], n);
      LeValueInjective(a[..n], b[..n]);
      assert a == a[..n] + [a[n]];
    }
  }

  /** Reading bytes as a number and writing it gives back the bytes. */
  lemma LeValueBytes(bytes: Bytes)
    requires |bytes| <= 4
    ensures LeValue(bytes) < Pow256(|bytes|) && LeBytes(LeValue(bytes), |bytes|) == bytes
  {
    var v, n := LeValue(bytes), |bytes|;
    LeShiftedBound(bytes, 0);
    LeBytesShifted(v, n, 0);
    LowBytesAll(v, n);
    ShiftLeftAdds(v, 0, 0, 0);
    LeValueInjective(LeBytes(v, n), bytes);
  }

  function PackBytes(bits: Bits, n: nat): (bytes: Bytes)
    requires |bits| == 8 * n
    ensures |bytes| == n
  {
    if n == 0 then []
    else PackBytes(bits[..8 * (n - 1)], n - 1) + [ByteValue(bits[8 * (n - 1)..])]
  }

  /** The bytes of a finished stream: the last byte is filled up with zeros. */
  function ToBytes(bits: Bits): (bytes: Bytes)
    ensures 8 * |bytes| == |bits| + PadLen(|bits|)
  {
    PackBytes(bits + Zeros(PadLen(|bits|)), (|bits| + PadLen(|bits|)) / 8)
  }

  lemma PackBytesAppend(bits: Bits, last: Bits, n: nat)
    requires |bits| == 8 * n && |last| == 8
    ensures PackBytes(bits + last, n + 1) == PackBytes(bits, n) + [ByteValue(last)]
  {
    assert (bits + last)[..8 * n] == bits && (bits + last)[8 * n..] == last;
  }

  lemma BytesBitsAppend(bytes: Bytes, b: byte)
    ensures BytesBits(bytes + [b]) == BytesBits(bytes) + ByteBits(b)
  {
    assert (bytes + [b])[..|bytes|] == bytes;
  }

  lemma {:induction false} PackBytesBits(bits: Bits, n: nat)
    requires |bits| == 8 * n
    ensures BytesBits(PackBytes(bits, n)) == bits
  {
    if n > 0 {
      var init, last := bits[..8 * (n - 1)], bits[8 * (n - 1)..];
      PackBytesBits(init, n - 1);
      BytesBitsAppend(PackBytes(init, n - 1), ByteValue(last));
      BitsValueBits(last);
      assert ByteBits(ByteValue(last)) == last;
      hide ByteBits, ByteValue, BytesBits;
      assert PackBytes(bits, n) == PackBytes(init, n - 1) + [ByteValue(last)];
      assert init + last == bits;
    }
  }

  lemma {:induction false} BytesBitsPack(bytes: Bytes)
    ensures PackBytes(BytesBits(bytes), |bytes|) == bytes
  {
    if bytes != [] {
      var n := |bytes| - 1;
      BytesBitsPack(bytes[..n]);
      ByteRoundTrip(bytes[n]);
      PackBytesAppend(BytesBits(bytes[..n]), ByteBits(bytes[n]), n);
      assert bytes == bytes[..n] + [bytes[n]];
    }
  }

  /** A datagram read back as bits is the stream that was written, then at most seven zeros. */
  lemma ToBytesBits(bits: Bits)
    ensures BytesBits(ToBytes(bits)) == bits + Zeros(PadLen(|bits|))
  {
    PackBytesBits(bits + Zeros(PadLen(|bits|)), (|bits| + PadLen(|bits|)) / 8);
  }

  // Reading

  function ReadBits(bits: Bits, pos: nat, n: nat): (r: Read<nat>)
    ensures r.Got? <==> pos + n <= |bits|
    ensures r.Got? ==> r.value < Pow2(n) && r.pos == pos + n
    ensures !r.Panic?
  {
    if pos + n <= |bits| then Got(BitsValue(bits[pos..pos + n]), pos + n) else Eof
  }

  function ReadByte(bits: Bits, pos: nat): (r: Read<byte>)
    ensures r.Got? <==> pos + 8 <= |bits|
    ensures r.Got? ==> r.pos == pos + 8
    ensures !r.Panic?
  {
    if pos + 8 <= |bits| then Got(ByteValue(bits[pos..pos + 8]), pos + 8) else Eof
  }

  function ReadBit(bits: Bits, pos: nat): (r: Read<bool>)
    ensures r.Got? <==> pos < |bits|
    ensures r.Got? ==> r.pos == pos + 1
    ensures !r.Panic?
  {
    if pos < |bits| then Got(bits[pos], pos + 1) else Eof
  }

  function ReadBytes(bits: Bits, pos: nat, n: nat): (r: Read<Bytes>)
    ensures r.Got? <==> pos + 8 * n <= |bits|
    ensures r.Got? ==> |r.value| == n && r.pos == pos + 8 * n
    ensures !r.Panic?
  {
    if pos + 8 * n <= |bits| then Got(PackBytes(bits[pos..pos + 8 * n], n), pos + 8 * n) else Eof
  }

  function ReadLe(bits: Bits, pos: nat, n: nat): (r: Read<nat>)
    requires n <= 4
    ensures r.Got? <==> pos + 8 * n <= |bits|
    ensures r.Got? ==> r.value < Pow256(n) && r.pos == pos + 8 * n
    ensures !r.Panic?
  {
    var bytes :- ReadBytes(bits, pos, n);
    LeShiftedBound(bytes, 0);
    Got(LeValue(bytes), pos + 8 * n)
  }

  /** `piece` is what the stream holds at `pos`. */
  ghost predicate At(bits: Bits, pos: nat, piece: Bits) {
    pos + |piece| <= |bits| && bits[pos..pos + |piece|] == piece
  }

  lemma AtConcat(bits: Bits, pos: nat, a: Bits, b: Bits)
    ensures At(bits, pos, a + b) <==> At(bits, pos, a) && At(bits, pos + |a|, b)
  {
    if pos + |a| + |b| <= |bits| {
      var s := bits[pos..pos + |a| + |b|];
      assert s[..|a|] == bits[pos..pos + |a|];
      assert s[|a|..] == bits[pos + |a|..pos + |a| + |b|];
      assert s == s[..|a|] + s[|a|..];
      assert (a + b)[..|a|] == a && (a + b)[|a|..] == b;
    }
  }

  lemma ReadBitAt(bits: Bits, pos: nat, b: bool)
    requires At(bits, pos, [b])
    ensures ReadBit(bits, pos) == Got(b, pos + 1)
  {
    assert bits[pos..pos + 1][0] == bits[pos];
  }

  /** A leading flag bit, and what follows it. */
  lemma ReadFlagAt(bits: Bits, pos: nat, b: bool, rest: Bits)
    requires At(bits, pos, [b] + rest)
    ensures ReadBit(bits, pos) == Got(b, pos + 1) && At(bits, pos + 1, rest)
  {
    AtConcat(bits, pos, [b], rest);
    ReadBitAt(bits, pos, b);
  }

  lemma ReadBitsAt(bits: Bits, pos: nat, v: nat, n: nat)
    requires v < Pow2(n) && At(bits, pos, NatBits(v, n))
    ensures ReadBits(bits, pos, n) == Got(v, pos + n)
  {
    NatBitsValue(v, n);
  }

  lemma ReadByteAt(bits: Bits, pos: nat, b: byte)
    requires At(bits, pos, ByteBits(b))
    ensures ReadByte(bits, pos) == Got(b, pos + 8)
  {
    ByteRoundTrip(b);
  }

  lemma ReadBytesAt(bits: Bits, pos: nat, bytes: Bytes, n: nat)
    requires |bytes| == n && At(bits, pos, BytesBits(bytes))
    ensures ReadBytes(bits, pos, n) == Got(bytes, pos + 8 * n)
  {
    BytesBitsPack(bytes);
    ReadPackedAt(bits, pos, BytesBits(bytes), n);
  }

  lemma ReadPackedAt(bits: Bits, pos: nat, piece: Bits, n: nat)
    requires |piece| == 8 * n && At(bits, pos, piece)
    ensures ReadBytes(bits, pos, n) == Got(PackBytes(piece, n), pos + 8 * n)
  {
  }

  /** Reading one byte more. */
  lemma ReadBytesNext(bits: Bits, pos: nat, n: nat)
    requires pos + 8 * (n + 1) <= |bits|
    ensures ReadBytes(bits, pos, n + 1) ==
            Got(ReadBytes(bits, pos, n).value + [ReadByte(bits, pos + 8 * n).value], pos + 8 * n + 8)
  {
    var s := bits[pos..pos + 8 * n + 8];
    assert s[..8 * n] == bits[pos..pos + 8 * n];
    assert s[8 * n..] == bits[pos + 8 * n..pos + 8 * n + 8];
  }

  lemma ReadLeAt(bits: Bits, pos: nat, v: nat, n: nat)
    requires n <= 4 && v < Pow256(n) && At(bits, pos, BytesBits(LeBytes(v, n)))
    ensures ReadLe(bits, pos, n) == Got(v, pos + 8 * n)
  {
    hide LeBytes, LeShifted, LowBytes, BytesBits, PackBytes;
    var bytes := LeBytes(v, n);
    ShiftLeftAdds(v, 0, 0, 0);
    ReadBytesAt(bits, pos, bytes, n);
    LeBytesShifted(v, n, 0);
    LowBytesAll(v, n);
    assert LeValue(bytes) == v;
  }

  class BitWriter {
    var bits: Bits

    constructor ()
      ensures bits == []
    {
      bits := [];
    }

    method WriteBit(b: bool)
      modifies this
      ensures bits == old(bits) + [b]
    {
      bits := bits + [b];
    }

    method WriteBits(v: byte, n: nat)
      requires n <= 8
      modifies this
      ensures bits == old(bits) + NatBits(v, n)
    {
      bits := bits + NatBits(v, n);
    }

    method WriteByte(b: byte)
      modifies this
      ensures bits == old(bits) + ByteBits(b)
    {
      bits := bits + ByteBits(b);
    }

    method WriteBytes(bytes: Bytes)
      modifies this
      ensures bits == old(bits) + BytesBits(bytes)
    {
      for i := 0 to |bytes|
        invariant bits == old(bits) + BytesBits(bytes[..i])
      {
        assert bytes[..i + 1][..i] == bytes[..i];
        bits := bits + ByteBits(bytes[i]);
      }
      assert bytes[..|bytes|] == bytes;
    }

    method WriteLe(v: nat, n: nat)
      requires n <= 4
      modifies this
      ensures bits == old(bits) + BytesBits(LeBytes(v, n))
    {
      WriteBytes(LeBytes(v, n));
    }

    method Align()
      modifies this
      ensures bits == old(bits) + Zeros(PadLen(|old(bits)|))
    {
      bits := bits + Zeros(PadLen(|bits|));
    }
  }

  class BitReader {
    const bits: Bits
    var pos: nat

    constructor (data: Bytes)
      ensures bits == BytesBits(data) && pos == 0
    {
      bits := BytesBits(data);
      pos := 0;
    }

    method ReadOne() returns (r: Read<bool>)
      modifies this
      ensures r == ReadBit(bits, old(pos)) && (r.Got? ==> pos == r.pos)
    {
      r := ReadBit(bits, pos);
      if r.Got? {
        pos := r.pos;
      }
    }

    method ReadSome(n: nat) returns (r: Read<nat>)
      modifies this
      ensures r == ReadBits(bits, old(pos), n) && (r.Got? ==> pos == r.pos)
    {
      r := ReadBits(bits, pos, n);
      if r.Got? {
        pos := r.pos;
      }
    }

    method ReadOneByte() returns (r: Read<byte>)
      modifies this
      ensures r == ReadByte(bits, old(pos)) && (r.Got? ==> pos == r.pos)
    {
      r := ReadByte(bits, pos);
      if r.Got? {
        pos := r.pos;
      }
    }

    method ReadExact(n: nat) returns (r: Read<Bytes>)
      modifies this
      ensures r == ReadBytes(bits, old(pos), n) && (r.Got? ==> pos == r.pos)
    {
      r := ReadBytes(bits, pos, n);
      if r.Got? {
        pos := r.pos;
      }
    }

    method ReadInt(n: nat) returns (r: Read<nat>)
      requires n <= 4
      modifies this
      ensures r == ReadLe(bits, old(pos), n) && (r.Got? ==> pos == r.pos)
    {
      r := ReadLe(bits, pos, n);
      if r.Got? {
        pos := r.pos;
      }
    }

    method Align()
      modifies this
      ensures pos == old(pos) + PadLen(old(pos))
    {
      pos := pos + PadLen(pos);
    }
  }
}
