/** Bits, numbers and bytes of the QR bit stream, and the byte-mode data encoding
    with the reader that undoes it. */
module BitStream {
  import opened Common
  import Gf256

  type Bit = x: int | 0 <= x <= 1

  // ---------------------------------------------------------------------------
  // Numbers as bits, most significant bit first

  function ShiftRight(value: nat, count: nat): nat {
    if count == 0 then value else ShiftRight(value / 2, count - 1)
  }

  function PowerOfTwo(n: nat): nat {
    if n == 0 then 1 else 2 * PowerOfTwo(n - 1)
  }

  function BitsOf(value: nat, length: nat): (bits: seq<Bit>)
    ensures |bits| == length
  {
    seq(length, i requires 0 <= i < length => ShiftRight(value, length - 1 - i) % 2)
  }

  function NumberOf(bits: seq<Bit>): nat {
    if bits == [] then 0 else 2 * NumberOf(bits[..|bits| - 1]) + bits[|bits| - 1]
  }

  lemma BitsOfHalf(value: nat, length: nat)
    requires length > 0
    ensures BitsOf(value, length) == BitsOf(value / 2, length - 1) + [value % 2]
  {
    var front := BitsOf(value / 2, length - 1);
    forall i | 0 <= i < length - 1
      ensures BitsOf(value, length)[i] == front[i]
    {
      var count := length - 1 - i;
      assert ShiftRight(value, count) == ShiftRight(value / 2, count - 1);
      assert front[i] == ShiftRight(value / 2, count - 1) % 2;
    }
    assert ShiftRight(value, 0) == value;
    assert BitsOf(value, length)[length - 1] == value % 2;
  }

  /** Reading back a number that fits into the bits written for it. */
  lemma {:induction false} NumberOfBits(value: nat, length: nat)
    requires value < PowerOfTwo(length)
    ensures NumberOf(BitsOf(value, length)) == value
  {
    if length > 0 {
      BitsOfHalf(value, length);
      NumberOfBits(value / 2, length - 1);
      assert BitsOf(value, length)[..length - 1] == BitsOf(value / 2, length - 1);
    }
  }

  lemma {:induction false} NumberOfBound(bits: seq<Bit>)
    ensures NumberOf(bits) < PowerOfTwo(|bits|)
  {
    if bits != [] {
      NumberOfBound(bits[..|bits| - 1]);
    }
  }

  lemma {:induction false} BitsOfNumber(bits: seq<Bit>)
    ensures BitsOf(NumberOf(bits), |bits|) == bits
  {
    if bits != [] {
      var front := bits[..|bits| - 1];
      BitsOfNumber(front);
      BitsOfHalf(NumberOf(bits), |bits|);
    }
  }

  method PushBits(bits: seq<Bit>, value: nat, length: nat) returns (pushed: seq<Bit>)
    ensures pushed == bits + BitsOf(value, length)
  {
    pushed := bits;
    var index := length;
    while index > 0
      invariant 0 <= index <= length
      invariant pushed == bits + BitsOf(value, length)[..length - index]
    {
      index := index - 1;
      pushed := pushed + [ShiftRight(value, index) % 2];
    }
  }

  // ---------------------------------------------------------------------------
  // Bytes as bits

  lemma ValueBound(b: bv8)
    ensures 0 <= Gf256.Value(b) < 256
  {}

  function ByteBits(b: bv8): (bits: seq<Bit>)
    ensures |bits| == 8
  {
    ValueBound(b);
    BitsOf(Gf256.Value(b), 8)
  }

  /** The bits of the bytes, one after the other. */
  function BytesToBits(bytes: seq<bv8>): (bits: seq<Bit>)
    ensures |bits| == 8 * |bytes|
  {
    if bytes == [] then [] else BytesToBits(bytes[..|bytes| - 1]) + ByteBits(bytes[|bytes| - 1])
  }

  /** Shifts one more bit into a byte. */
  function PushBit(v: bv8, bit: Bit): bv8 {
    (v << 1) | (if bit == 1 then 1 else 0)
  }

  function ByteAt(bits: seq<Bit>): bv8 {
    if bits == [] then 0 else PushBit(ByteAt(bits[..|bits| - 1]), bits[|bits| - 1])
  }

  lemma ValueOfPushBit(v: bv8, bit: Bit)
    requires Gf256.Value(v) < 128
    ensures Gf256.Value(PushBit(v, bit)) == 2 * Gf256.Value(v) + bit
  {}

  lemma ValueOfZero()
    ensures Gf256.Value(0) == 0
  {}

  lemma {:induction false} ValueOfByteAt(bits: seq<Bit>)
    requires |bits| <= 8
    ensures Gf256.Value(ByteAt(bits)) == NumberOf(bits)
  {
    hide Gf256.Value, PushBit;
    if bits == [] {
      ValueOfZero();
    } else {
      var front := bits[..|bits| - 1];
      ValueOfByteAt(front);
      NumberOfBound(front);
      PowerOfTwoGrows(|front|, 7);
      assert PowerOfTwo(7) == 128;
      ValueOfPushBit(ByteAt(front), bits[|bits| - 1]);
    }
  }

  lemma {:induction false} PowerOfTwoGrows(m: nat, n: nat)
    requires m <= n
    ensures PowerOfTwo(m) <= PowerOfTwo(n)
  {
    if m < n { PowerOfTwoGrows(m, n - 1); }
  }

  lemma ByteBitsRoundTrip(b: bv8, bits: seq<Bit>)
    requires |bits| == 8
    ensures ByteAt(ByteBits(b)) == b
    ensures ByteBits(ByteAt(bits)) == bits
  {
    hide Gf256.Value, ByteAt, NumberOf;
    assert PowerOfTwo(8) == 256;
    ValueBound(b);
    ByteBitsIs(b);
    NumberOfBits(Gf256.Value(b), 8);
    ValueOfByteAt(ByteBits(b));
    Gf256.ValueIsByte(ByteAt(ByteBits(b)), b);
    ValueOfByteAt(bits);
    ByteBitsIs(ByteAt(bits));
    BitsOfNumber(bits);
  }

  lemma ByteBitsIs(b: bv8)
    ensures 0 <= Gf256.Value(b) && ByteBits(b) == BitsOf(Gf256.Value(b), 8)
  {
    ValueBound(b);
  }

  /** The bytes of a bit string; a last incomplete byte is filled with zero bits. */
  function BytesOf(bits: seq<Bit>): (bytes: seq<bv8>)
    ensures |bytes| == (|bits| + 7) / 8
    decreases |bits|
  {
    if bits == [] then []
    else if |bits| < 8 then [ByteAt(bits + seq(8 - |bits|, _ => 0))]
    else [ByteAt(bits[..8])] + BytesOf(bits[8..])
  }

  lemma {:induction false} BytesToBitsCons(b: bv8, rest: seq<bv8>)
    ensures BytesToBits([b] + rest) == ByteBits(b) + BytesToBits(rest)
  {
    hide ByteBits;
    if rest == [] {
      assert [b] + rest == [b];
      assert [b][..0] == [];
      assert BytesToBits([b]) == [] + ByteBits(b);
    } else {
      var k := |rest| - 1;
      BytesToBitsCons(b, rest[..k]);
      assert ([b] + rest)[..k + 1] == [b] + rest[..k];
    }
  }

  /** Whole bytes survive being read from their bits. */
  lemma {:induction false} BytesOfBytesToBits(bytes: seq<bv8>)
    ensures BytesOf(BytesToBits(bytes)) == bytes
  {
    hide ByteBits, ByteAt;
    if bytes != [] {
      var rest := bytes[1..];
      assert bytes == [bytes[0]] + rest;
      BytesToBitsCons(bytes[0], rest);
      BytesOfBytesToBits(rest);
      ByteBitsRoundTrip(bytes[0], ByteBits(bytes[0]));
      var bits := BytesToBits(bytes);
      assert bits[..8] == ByteBits(bytes[0]) && bits[8..] == BytesToBits(rest);
    }
  }

  lemma {:induction false} BytesToBitsOfBytes(bits: seq<Bit>)
    requires |bits| % 8 == 0
    ensures BytesToBits(BytesOf(bits)) == bits
    decreases |bits|
  {
    hide ByteBits, ByteAt;
    if bits != [] {
      BytesToBitsOfBytes(bits[8..]);
      BytesToBitsCons(ByteAt(bits[..8]), BytesOf(bits[8..]));
      ByteBitsRoundTrip(0, bits[..8]);
    }
  }

  lemma {:induction false} BytesToBitsConcat(a: seq<bv8>, b: seq<bv8>)
    ensures BytesToBits(a + b) == BytesToBits(a) + BytesToBits(b)
  {
    hide ByteBits;
    if b == [] {
      assert a + b == a;
    } else {
      var k := |b| - 1;
      assert (a + b)[..|a| + k] == a + b[..k];
      BytesToBitsConcat(a, b[..k]);
    }
  }

  lemma {:induction false} BytesOfConcat(a: seq<Bit>, b: seq<Bit>)
    requires |a| % 8 == 0
    ensures BytesOf(a + b) == BytesOf(a) + BytesOf(b)
    decreases |a|
  {
    hide ByteAt;
    if a == [] {
      assert a + b == b;
    } else {
      assert (a + b)[..8] == a[..8] && (a + b)[8..] == a[8..] + b;
      BytesOfConcat(a[8..], b);
    }
  }

  method BitsToBytes(bits: seq<Bit>) returns (bytes: seq<bv8>)
    ensures bytes == BytesOf(bits)
  {
    hide PushBit, BytesOf;
    bytes := [];
    var index := 0;
    BytesOfEmpty();
    while index < |bits|
      invariant index % 8 == 0
      invariant index <= |bits| ==> bytes == BytesOf(bits[..index])
      invariant index >= |bits| ==> bytes == BytesOf(bits)
    {
      var value: bv8 := 0;
      ghost var chunk: seq<Bit> := [];
      for offset := 0 to 8
        invariant |chunk| == offset && value == ByteAt(chunk)
        invariant forall k :: 0 <= k < offset ==> chunk[k] == if index + k < |bits| then bits[index + k] else 0
      {
        var bit: Bit := if index + offset < |bits| then bits[index + offset] else 0;
        value := PushBit(value, bit);
        assert (chunk + [bit])[..offset] == chunk;
        chunk := chunk + [bit];
      }
      bytes := bytes + [value];
      if index + 8 <= |bits| {
        WholeChunk(bits, index, chunk);
        if index + 8 == |bits| { assert bits[..index + 8] == bits; }
      } else {
        LastChunk(bits, index, chunk);
      }
      index := index + 8;
    }
    assert index <= |bits| ==> bits[..index] == bits;
  }

  lemma BytesOfEmpty()
    ensures BytesOf([]) == []
  {}

  lemma BytesOfOne(chunk: seq<Bit>)
    requires |chunk| == 8
    ensures BytesOf(chunk) == [ByteAt(chunk)]
  {
    hide ByteAt;
    assert chunk[..8] == chunk && chunk[8..] == [];
  }

  lemma BytesOfShort(tail: seq<Bit>, chunk: seq<Bit>)
    requires 0 < |tail| < 8 && chunk == tail + seq(8 - |tail|, _ => 0)
    ensures BytesOf(tail) == [ByteAt(chunk)]
  {
    hide ByteAt;
  }

  ghost predicate IsChunk(chunk: seq<Bit>, bits: seq<Bit>, index: nat) {
    |chunk| == 8 && forall k :: 0 <= k < 8 ==> chunk[k] == if index + k < |bits| then bits[index + k] else 0
  }

  lemma WholeChunk(bits: seq<Bit>, index: nat, chunk: seq<Bit>)
    requires index % 8 == 0 && index + 8 <= |bits| && IsChunk(chunk, bits, index)
    ensures BytesOf(bits[..index]) + [ByteAt(chunk)] == BytesOf(bits[..index + 8])
  {
    hide ByteAt, BytesOf;
    BytesOfOne(chunk);
    BytesOfConcat(bits[..index], chunk);
    assert bits[..index + 8] == bits[..index] + chunk;
  }

  lemma LastChunk(bits: seq<Bit>, index: nat, chunk: seq<Bit>)
    requires index % 8 == 0 && index < |bits| < index + 8 && IsChunk(chunk, bits, index)
    ensures BytesOf(bits[..index]) + [ByteAt(chunk)] == BytesOf(bits)
  {
    hide ByteAt, BytesOf;
    var tail := bits[index..];
    assert chunk == tail + seq(8 - |tail|, _ => 0);
    BytesOfShort(tail, chunk);
    BytesOfConcat(bits[..index], tail);
    assert bits == bits[..index] + tail;
  }

  // ---------------------------------------------------------------------------
  // Byte-mode data

  const MODE_BYTES: nat := 4

  function Pads(count: nat): (pads: seq<bv8>)
    ensures |pads| == count
  {
    seq(count, i requires 0 <= i => if i % 2 == 0 then 0xec else 0x11)
  }

  function ZeroBits(count: nat): (bits: seq<Bit>)
    ensures |bits| == count
  {
    seq(count, _ => 0)
  }

  /** Mode, character count and payload. */
  function Segment(payload: seq<bv8>, countBits: nat): (bits: seq<Bit>)
    ensures |bits| == 4 + countBits + 8 * |payload|
  {
    BitsOf(MODE_BYTES, 4) + BitsOf(|payload|, countBits) + BytesToBits(payload)
  }

  function Min(a: int, b: int): int {
    if a < b then a else b
  }

  /** Zero bits after the segment: a terminator of at most four, then up to the next
      whole byte. */
  function TailBits(used: nat, capacity: nat): nat
    requires used <= 8 * capacity
  {
    var terminated := used + Min(4, 8 * capacity - used);
    Min(4, 8 * capacity - used) + (8 - terminated % 8) % 8
  }

  function Encoded(payload: seq<bv8>, countBits: nat, capacity: nat): (bytes: seq<bv8>)
    requires 4 + countBits + 8 * |payload| <= 8 * capacity
    ensures |bytes| == capacity
  {
    var segment := Segment(payload, countBits);
    TailFits(|segment|, capacity);
    var bytes := BytesOf(segment + ZeroBits(TailBits(|segment|, capacity)));
    bytes + Pads(capacity - |bytes|)
  }

  /** The reader: checks the mode, then takes as many bytes as the count says. */
  function Parse(bytes: seq<bv8>, countBits: nat): Option<seq<bv8>> {
    var bits := BytesToBits(bytes);
    if |bits| < 4 + countBits || NumberOf(bits[..4]) != MODE_BYTES then None
    else
      var count := NumberOf(bits[4..4 + countBits]);
      var start := 4 + countBits;
      if |bits| < start + 8 * count then None else Some(BytesOf(bits[start..start + 8 * count]))
  }

  lemma SegmentStartsBits(payload: seq<bv8>, countBits: nat, capacity: nat)
    requires 4 + countBits + 8 * |payload| <= 8 * capacity
    ensures Segment(payload, countBits) <= BytesToBits(Encoded(payload, countBits, capacity))
  {
    hide BytesToBits, BytesOf, Segment, Pads, ZeroBits, TailBits;
    var segment := Segment(payload, countBits);
    TailFits(|segment|, capacity);
    var padded := segment + ZeroBits(TailBits(|segment|, capacity));
    var bytes := BytesOf(padded);
    assert Encoded(payload, countBits, capacity) == bytes + Pads(capacity - |bytes|);
    hide Encoded;
    BytesToBitsOfBytes(padded);
    BytesToBitsConcat(bytes, Pads(capacity - |bytes|));
  }

  /** Reading the encoded data gives back the payload. */
  lemma ParseEncoded(payload: seq<bv8>, countBits: nat, capacity: nat)
    requires 4 + countBits + 8 * |payload| <= 8 * capacity
    requires |payload| < PowerOfTwo(countBits)
    ensures Parse(Encoded(payload, countBits, capacity), countBits) == Some(payload)
  {
    hide BytesToBits, BytesOf, Encoded;
    SegmentStartsBits(payload, countBits, capacity);
    var bits := BytesToBits(Encoded(payload, countBits, capacity));
    var segment := Segment(payload, countBits);
    assert bits[..|segment|] == segment;
    assert PowerOfTwo(4) == 16;
    NumberOfBits(MODE_BYTES, 4);
    NumberOfBits(|payload|, countBits);
    BytesOfBytesToBits(payload);
    assert bits[..4] == BitsOf(MODE_BYTES, 4);
    assert bits[4..4 + countBits] == BitsOf(|payload|, countBits);
    var start := 4 + countBits;
    assert bits[start..start + 8 * |payload|] == BytesToBits(payload);
  }

  // Header and payload bits.
  method PushSegment(payload: seq<bv8>, countBits: nat) returns (bits: seq<Bit>)
    ensures bits == Segment(payload, countBits)
  {
    hide BytesToBits, ByteBits;
    bits := PushBits([], MODE_BYTES, 4);
    bits := PushBits(bits, |payload|, countBits);
    ghost var header := bits;
    assert header == BitsOf(MODE_BYTES, 4) + BitsOf(|payload|, countBits);
    BytesToBitsEmpty();
    for index := 0 to |payload|
      invariant bits == header + BytesToBits(payload[..index])
    {
      ByteBitsIs(payload[index]);
      bits := PushBits(bits, Gf256.Value(payload[index]), 8);
      BytesToBitsNext(payload, index);
    }
    assert payload[..|payload|] == payload;
  }

  function Gap(used: nat): nat {
    (8 - used % 8) % 8
  }

  lemma GapStep(used: nat)
    ensures used % 8 == 0 <==> Gap(used) == 0
    ensures used % 8 != 0 ==> Gap(used + 1) == Gap(used) - 1
    ensures (used + Gap(used)) % 8 == 0
  {
    var whole, part := used / 8, used % 8;
    assert used == 8 * whole + part;
    assert Gap(used) == if part == 0 then 0 else 8 - part;
    assert (used + 1) % 8 == if part == 7 then 0 else part + 1;
    assert used + Gap(used) == 8 * (if part == 0 then whole else whole + 1);
  }

  // Terminator and zero fill.
  method PushTail(segment: seq<Bit>, capacity: nat) returns (bits: seq<Bit>)
    requires |segment| <= 8 * capacity
    ensures bits == segment + ZeroBits(TailBits(|segment|, capacity))
  {
    var terminator := Min(4, capacity * 8 - |segment|);
    ZeroBitsOf(terminator);
    bits := PushBits(segment, 0, terminator);
    ghost var gap := Gap(|bits|);
    ghost var added := terminator;
    hide Gap;
    GapStep(|bits|);
    while |bits| % 8 != 0
      invariant |bits| == |segment| + added
      invariant added + Gap(|bits|) == terminator + gap
      invariant bits == segment + ZeroBits(added)
      decreases Gap(|bits|)
    {
      GapStep(|bits|);
      bits := bits + [0];
      added := added + 1;
    }
    GapStep(|bits|);
    TailIsGap(|segment|, capacity);
  }

  lemma TailIsGap(used: nat, capacity: nat)
    requires used <= 8 * capacity
    ensures TailBits(used, capacity) == Min(4, 8 * capacity - used) + Gap(used + Min(4, 8 * capacity - used))
  {}

  /** The data loop of the encoder, for a payload that fits. */
  method EncodeData(payload: seq<bv8>, countBits: nat, capacity: nat) returns (data: seq<bv8>)
    requires 4 + countBits + 8 * |payload| <= 8 * capacity
    ensures data == Encoded(payload, countBits, capacity)
  {
    hide BytesOf, TailBits, Segment;
    var bits := PushSegment(payload, countBits);
    bits := PushTail(bits, capacity);
    var bytes := BitsToBytes(bits);
    ghost var filled := bytes;
    EncodedUnfolds(payload, countBits, capacity);
    var pads: seq<bv8> := [0xec, 0x11];
    var pad := 0;
    while |bytes| < capacity
      invariant pad == |bytes| - |filled| && |bytes| <= capacity
      invariant bytes == filled + Pads(pad)
    {
      bytes := bytes + [pads[pad % 2]];
      pad := pad + 1;
    }
    data := bytes[..capacity];
  }

  lemma EncodedUnfolds(payload: seq<bv8>, countBits: nat, capacity: nat)
    requires 4 + countBits + 8 * |payload| <= 8 * capacity
    ensures var bytes := BytesOf(Segment(payload, countBits) + ZeroBits(TailBits(|Segment(payload, countBits)|, capacity)));
      |bytes| <= capacity && Encoded(payload, countBits, capacity) == bytes + Pads(capacity - |bytes|)
  {
    hide BytesOf, Segment;
    TailFits(|Segment(payload, countBits)|, capacity);
  }

  lemma TailFits(used: nat, capacity: nat)
    requires used <= 8 * capacity
    ensures used + TailBits(used, capacity) <= 8 * capacity
    ensures (used + TailBits(used, capacity)) % 8 == 0
  {}

  lemma BytesToBitsEmpty()
    ensures BytesToBits([]) == []
  {}

  lemma BytesToBitsNext(bytes: seq<bv8>, index: nat)
    requires index < |bytes|
    ensures BytesToBits(bytes[..index + 1]) == BytesToBits(bytes[..index]) + ByteBits(bytes[index])
  {
    assert bytes[..index + 1][..index] == bytes[..index];
  }

  lemma {:induction false} ShiftRightZero(count: nat)
    ensures ShiftRight(0, count) == 0
  {
    if count > 0 { ShiftRightZero(count - 1); }
  }

  lemma ZeroBitsOf(count: nat)
    ensures BitsOf(0, count) == ZeroBits(count)
  {
    forall i | 0 <= i < count
      ensures BitsOf(0, count)[i] == 0
    {
      ShiftRightZero(count - 1 - i);
    }
  }

  // ---------------------------------------------------------------------------
  // The encoded data, byte by byte

  function AsByte(n: nat): (b: bv8)
    requires n < 256
    ensures Gf256.Value(b) == n
  {
    assert PowerOfTwo(8) == 0x100;
    NumberOfBits(n, 8);
    ValueOfByteAt(BitsOf(n, 8));
    ByteAt(BitsOf(n, 8))
  }

  /** The bytes moved down by half a byte, with the given four bits in front and four zero
      bits at the end. */
  function HalfByteLater(front: nat, bytes: seq<bv8>): (moved: seq<bv8>)
    requires front < 16
    ensures |moved| == |bytes| + 1
    decreases |bytes|
  {
    if bytes == [] then [AsByte(16 * front)]
    else
      ValueBound(bytes[0]);
      var value := Gf256.Value(bytes[0]);
      [AsByte(16 * front + value / 16)] + HalfByteLater(value % 16, bytes[1..])
  }

  /** The length of the payload, in one byte or two. */
  function LengthBytes(length: nat, wide: bool): seq<bv8>
    requires length < if wide then 0x1_0000 else 0x100
  {
    if wide then [AsByte(length / 0x100), AsByte(length % 0x100)] else [AsByte(length)]
  }

  lemma {:induction false} BitsOfSplit(high: nat, low: nat, m: nat, n: nat)
    requires low < PowerOfTwo(n)
    ensures BitsOf(high * PowerOfTwo(n) + low, m + n) == BitsOf(high, m) + BitsOf(low, n)
  {
    hide BitsOf;
    if n == 0 {
      NoBits(low);
      assert BitsOf(high, m) + [] == BitsOf(high, m);
    } else {
      var whole := high * PowerOfTwo(n) + low;
      assert whole == 2 * (high * PowerOfTwo(n - 1)) + low;
      BitsOfSplit(high, low / 2, m, n - 1);
      BitsOfHalf(whole, m + n);
      BitsOfHalf(low, n);
    }
  }

  lemma NoBits(value: nat)
    ensures BitsOf(value, 0) == []
  {}

  lemma HalfBytes(high: nat, low: nat)
    requires high < 16 && low < 16
    ensures BitsOf(16 * high + low, 8) == BitsOf(high, 4) + BitsOf(low, 4)
  {
    assert PowerOfTwo(4) == 16;
    BitsOfSplit(high, low, 4, 4);
  }

  lemma BytesToBitsOne(b: bv8)
    ensures BytesToBits([b]) == ByteBits(b)
  {
    hide ByteBits;
    BytesToBitsEmpty();
    assert [b][..0] == [];
  }

  lemma {:induction false} HalfByteLaterBits(front: nat, bytes: seq<bv8>)
    requires front < 16
    ensures BytesToBits(HalfByteLater(front, bytes)) == BitsOf(front, 4) + BytesToBits(bytes) + BitsOf(0, 4)
    decreases |bytes|
  {
    hide BitsOf, BytesToBits, Gf256.Value, ByteBits, AsByte;
    if bytes == [] {
      BytesToBitsEmpty();
      HalfBytes(front, 0);
      ByteBitsIs(AsByte(16 * front));
      BytesToBitsOne(AsByte(16 * front));
      assert BitsOf(front, 4) + [] == BitsOf(front, 4);
    } else {
      var b, rest := bytes[0], bytes[1..];
      ValueBound(b);
      var value := Gf256.Value(b);
      var first := AsByte(16 * front + value / 16);
      HalfByteLaterBits(value % 16, rest);
      HalfBytes(front, value / 16);
      HalfBytes(value / 16, value % 16);
      ByteBitsIs(first);
      ByteBitsIs(b);
      BytesToBitsOne(first);
      BytesToBitsOne(b);
      BytesToBitsConcat([first], HalfByteLater(value % 16, rest));
      assert bytes == [b] + rest;
      BytesToBitsConcat([b], rest);
      Regroup(BitsOf(front, 4), BitsOf(value / 16, 4), BitsOf(value % 16, 4), BytesToBits(rest), BitsOf(0, 4));
    }
  }

  lemma Regroup(a: seq<Bit>, b: seq<Bit>, c: seq<Bit>, d: seq<Bit>, e: seq<Bit>)
    ensures (a + b) + ((c + d) + e) == a + ((b + c) + d) + e
  {}

  lemma LengthBits(length: nat, wide: bool)
    requires length < if wide then 0x1_0000 else 0x100
    ensures BytesToBits(LengthBytes(length, wide)) == BitsOf(length, if wide then 16 else 8)
  {
    hide BitsOf, BytesToBits, Gf256.Value;
    if wide {
      var high, low := AsByte(length / 0x100), AsByte(length % 0x100);
      assert PowerOfTwo(8) == 0x100;
      BitsOfSplit(length / 0x100, length % 0x100, 8, 8);
      BytesToBitsConcat([high], [low]);
      assert [high] + [low] == [high, low];
      BytesToBitsOne(high);
      BytesToBitsOne(low);
      ByteBitsIs(high);
      ByteBitsIs(low);
    } else {
      BytesToBitsOne(AsByte(length));
      ByteBitsIs(AsByte(length));
    }
  }

  lemma FourZeros()
    ensures BitsOf(0, 4) == ZeroBits(4) && BitsOf(MODE_BYTES, 4) == BitsOf(4, 4)
  {
    ZeroBitsOf(4);
  }

  /** The data codewords: the four bits 0100, the length and the payload moved down by half a
      byte, a terminator of four zero bits, and 236 and 17 in turn. */
  lemma EncodedIsMoved(payload: seq<bv8>, wide: bool, capacity: nat)
    requires |payload| < if wide then 0x1_0000 else 0x100
    requires 4 + (if wide then 16 else 8) + 8 * |payload| <= 8 * capacity
    ensures var moved := HalfByteLater(4, LengthBytes(|payload|, wide) + payload);
      && |moved| <= capacity
      && Encoded(payload, if wide then 16 else 8, capacity)
         == moved + seq(capacity - |moved|, i requires 0 <= i => if i % 2 == 0 then 236 as bv8 else 17)
  {
    hide BitsOf, BytesToBits, Gf256.Value, BytesOf, LengthBytes, Encoded, HalfByteLater, Pads, ZeroBits;
    var countBits, front := if wide then 16 else 8, LengthBytes(|payload|, wide);
    var moved := HalfByteLater(4, front + payload);
    LengthBits(|payload|, wide);
    FourZeros();
    HalfByteLaterBits(4, front + payload);
    BytesToBitsConcat(front, payload);
    var segment := Segment(payload, countBits);
    HalfByteLeft(|payload|, wide, capacity);
    assert BytesToBits(moved) == segment + ZeroBits(4);
    BytesOfBytesToBits(moved);
    EncodedUnfolds(payload, countBits, capacity);
    PadsAre(capacity - |moved|);
  }

  lemma HalfByteLeft(length: nat, wide: bool, capacity: nat)
    requires 4 + (if wide then 16 else 8) + 8 * length <= 8 * capacity
    ensures TailBits(4 + (if wide then 16 else 8) + 8 * length, capacity) == 4
  {}

  lemma PadsAre(count: nat)
    ensures Pads(count) == seq(count, i requires 0 <= i => if i % 2 == 0 then 236 as bv8 else 17)
  {}
}
