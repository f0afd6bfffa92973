/** Turning bit strings into bytes and back: zero padding to a whole number of
    bytes, MSB-first packing in `compressHuffman`, and the expansion and
    padding removal at the start of `decodeHuffman`. */
module BitPacking {
  import opened CodecTypes

  function Pow2(n: nat): nat {
    if n == 0 then 1 else 2 * Pow2(n - 1)
  }

  lemma Pow2Eight()
    ensures Pow2(8) == 256
  {
    assert Pow2(4) == 16 by {
      assert Pow2(2) == 4 by { assert Pow2(1) == 2; }
    }
    assert Pow2(6) == 64;
  }

  /** The value of a bit string read as a base-2 numeral, most significant
      bit first (what `parseInt` with radix 2 computes). */
  function BitsValue(bits: Bits): nat {
    if bits == [] then 0
    else 2 * BitsValue(bits[..|bits| - 1]) + (if bits[|bits| - 1] then 1 else 0)
  }

  /** A string of `n` bits denotes a number below 2^n. */
  lemma {:induction false} BitsValueBound(bits: Bits)
    ensures BitsValue(bits) < Pow2(|bits|)
  {
    if bits != [] {
      BitsValueBound(bits[..|bits| - 1]);
    }
  }

  /** The `width` low bits of `n`, most significant first. For a byte and
      width 8 this is its base-2 numeral left-filled with '0' to eight
      digits. */
  function NatBits(n: nat, width: nat): (r: Bits)
    ensures |r| == width
  {
    if width == 0 then [] else NatBits(n / 2, width - 1) + [n % 2 == 1]
  }

  /** Writing a number in `width` bits and reading it back gives the number,
      if it fits. */
  lemma {:induction false} ValueOfNatBits(n: nat, width: nat)
    requires n < Pow2(width)
    ensures BitsValue(NatBits(n, width)) == n
  {
    if width > 0 {
      var s := NatBits(n / 2, width - 1);
      ValueOfNatBits(n / 2, width - 1);
      assert (s + [n % 2 == 1])[..|s|] == s;
    }
  }

  /** Reading a bit string and writing the value back in as many bits gives
      the bit string. */
  lemma {:induction false} NatBitsOfValue(bits: Bits)
    ensures NatBits(BitsValue(bits), |bits|) == bits
  {
    if bits != [] {
      var init := bits[..|bits| - 1];
      NatBitsOfValue(init);
      assert bits == init + [bits[|bits| - 1]];
    }
  }

  /** A string of zeros denotes 0. */
  lemma {:induction false} ZerosValue(n: nat)
    ensures BitsValue(Zeros(n)) == 0
  {
    if n > 0 {
      ZerosValue(n - 1);
      assert Zeros(n)[..n - 1] == Zeros(n - 1);
    }
  }

  /** The eight bits of a byte, most significant first. */
  function ByteBits(b: Byte): Bits {
    NatBits(b, 8)
  }

  /** The value of eight bits is a byte. */
  function ByteOf(bits: Bits): (b: Byte)
    requires |bits| == 8
    ensures ByteBits(b) == bits
  {
    BitsValueBound(bits);
    Pow2Eight();
    NatBitsOfValue(bits);
    BitsValue(bits)
  }

  /** Reading the eight bits of a byte gives the byte. */
  lemma ByteOfByteBits(b: Byte)
    ensures ByteOf(ByteBits(b)) == b
  {
    Pow2Eight();
    ValueOfNatBits(b, 8);
  }

  // ---------------------------------------------------------------------------
  // Padding

  /** The padding count of the compressor: the fewest zero bits that make a
      bit string of length `n` a multiple of 8. */
  function PaddingFor(n: nat): (p: nat)
    ensures p < 8 && (n + p) % 8 == 0
  {
    (8 - n % 8) % 8
  }

  /** Padding a bit string gives a whole number of bytes. */
  lemma PaddedToBytes(bits: Bits)
    ensures |bits + Zeros(PaddingFor(|bits|))| % 8 == 0
  {
  }

  /** No smaller padding would do. */
  lemma PaddingIsLeast(n: nat, q: nat)
    requires (n + q) % 8 == 0
    ensures PaddingFor(n) <= q
  {
  }

  /** Where a JavaScript `slice` from 0 to `end` stops: a negative `end`
      counts from the back, and the result is clamped to the string. */
  function SliceEnd(len: nat, end: int): (e: nat)
    ensures e <= len
  {
    if end < 0 then (if len + end < 0 then 0 else len + end)
    else if end > len then len
    else end
  }

  /** Padding removal in the decompressor: a positive `padding` cuts that
      many bits off the end by slicing up to the length minus `padding`; zero
      or a negative value leaves the bits alone. Nothing checks that
      `padding` fits the bit string, so a too-large value slices with a
      negative end. */
  function StripPadding(bits: Bits, padding: int): (r: Bits)
    ensures IsPrefix(r, bits)
    ensures padding <= 0 ==> r == bits
    ensures 0 < padding <= |bits| ==> |r| == |bits| - padding
    ensures |bits| < padding <= 2 * |bits| ==> |r| == 2 * |bits| - padding
    ensures 2 * |bits| < padding ==> r == []
  {
    if padding > 0 then bits[..SliceEnd(|bits|, |bits| - padding)] else bits
  }

  /** Removing the padding that was appended gives back the bits. */
  lemma StripAppendedPadding(bits: Bits, p: nat)
    ensures StripPadding(bits + Zeros(p), p) == bits
  {
    assert (bits + Zeros(p))[..|bits|] == bits;
  }

  // ---------------------------------------------------------------------------
  // Packing and unpacking

  /** The bytes of a bit string whose length is a multiple of 8: each byte is
      the value of the next eight bits. */
  function Packed(bits: Bits): (r: seq<Byte>)
    requires |bits| % 8 == 0
    ensures |r| == |bits| / 8
  {
    if bits == [] then []
    else Packed(bits[..|bits| - 8]) + [ByteOf(bits[|bits| - 8..])]
  }

  /** Eight bits pack into the one byte they denote. */
  lemma PackedOneByte(bits: Bits)
    requires |bits| == 8
    ensures Packed(bits) == [BitsValue(bits)]
  {
    assert bits[..0] == [] && bits[0..] == bits;
  }

  /** Dropping the last packed byte drops the last eight bits. */
  lemma PackedDropLast(bits: Bits)
    requires |bits| % 8 == 0 && |bits| >= 8
    ensures var packed := Packed(bits);
      packed[..|packed| - 1] == Packed(bits[..|bits| - 8])
  {
    var packed := Packed(bits);
    assert packed == Packed(bits[..|bits| - 8]) + [ByteOf(bits[|bits| - 8..])];
  }

  /** Byte `k` of the packed string is the value of bits `8k` to `8k + 7`. */
  lemma {:induction false} PackedByteAt(bits: Bits, k: nat)
    requires |bits| % 8 == 0 && k < |bits| / 8
    ensures Packed(bits)[k] == BitsValue(bits[8 * k..8 * k + 8])
  {
    var n := |bits|;
    assert Packed(bits) == Packed(bits[..n - 8]) + [ByteOf(bits[n - 8..])];
    if 8 * k + 8 < n {
      PackedByteAt(bits[..n - 8], k);
      assert bits[..n - 8][8 * k..8 * k + 8] == bits[8 * k..8 * k + 8];
    } else {
      assert bits[8 * k..8 * k + 8] == bits[n - 8..];
    }
  }

  /** Whole bytes of zero bits pack into zero bytes. */
  lemma PackedZeros(bits: Bits)
    requires |bits| % 8 == 0 && forall i :: 0 <= i < |bits| ==> !bits[i]
    ensures forall k :: 0 <= k < |bits| / 8 ==> Packed(bits)[k] == 0
  {
    forall k | 0 <= k < |bits| / 8 ensures Packed(bits)[k] == 0 {
      PackedByteAt(bits, k);
      assert bits[8 * k..8 * k + 8] == Zeros(8);
      ZerosValue(8);
    }
  }

  /** The bits of a byte string, eight per byte, most significant first. */
  function Unpacked(bytes: seq<Byte>): (r: Bits)
    ensures |r| == 8 * |bytes|
  {
    if bytes == [] then [] else Unpacked(bytes[..|bytes| - 1]) + ByteBits(bytes[|bytes| - 1])
  }

  /** Unpacking undoes packing. */
  lemma {:induction false} UnpackPacked(bits: Bits)
    requires |bits| % 8 == 0
    ensures Unpacked(Packed(bits)) == bits
    decreases |bits|
  {
    if bits != [] {
      var n := |bits|;
      var init := bits[..n - 8];
      UnpackPacked(init);
      var packed := Packed(bits);
      assert packed[..|packed| - 1] == Packed(init);
      assert bits == init + bits[n - 8..];
    }
  }

  /** Appending the eight bits of a byte appends the byte to the packing. */
  lemma PackedAppendByte(bits: Bits, b: Byte)
    requires |bits| % 8 == 0
    ensures Packed(bits + ByteBits(b)) == Packed(bits) + [b]
  {
    var s := bits + ByteBits(b);
    assert s[..|s| - 8] == bits;
    assert s[|s| - 8..] == ByteBits(b);
    ByteOfByteBits(b);
  }

  /** Packing undoes unpacking. */
  lemma {:induction false} PackUnpacked(bytes: seq<Byte>)
    ensures Packed(Unpacked(bytes)) == bytes
  {
    if bytes != [] {
      var init := bytes[..|bytes| - 1];
      var last := bytes[|bytes| - 1];
      PackUnpacked(init);
      assert Unpacked(bytes) == Unpacked(init) + ByteBits(last);
      PackedAppendByte(Unpacked(init), last);
      assert bytes == init + [last];
    }
  }

  /** The packing loop of `compressHuffman`: step through the padded bit
      string eight bits at a time and push the value of each group. */
  method PackBits(bits: Bits) returns (bytes: seq<Byte>)
    requires |bits| % 8 == 0
    ensures bytes == Packed(bits)
  {
    bytes := [];
    var i := 0;
    while i < |bits|
      invariant 0 <= i <= |bits| && i % 8 == 0
      invariant bytes == Packed(bits[..i])
    {
      var prefix := bits[..i + 8];
      assert prefix[..i] == bits[..i];
      assert prefix[i..] == bits[i..i + 8];
      assert Packed(prefix) == Packed(bits[..i]) + [ByteOf(bits[i..i + 8])];
      bytes := bytes + [ByteOf(bits[i..i + 8])];
      i := i + 8;
    }
    assert bits[..i] == bits;
  }

  /** The expansion loop of `decodeHuffman`: append the eight bits of every
      payload byte. */
  method UnpackBytes(bytes: seq<Byte>) returns (bits: Bits)
    ensures bits == Unpacked(bytes)
  {
    bits := [];
    var i := 0;
    while i < |bytes|
      invariant 0 <= i <= |bytes|
      invariant bits == Unpacked(bytes[..i])
    {
      assert bytes[..i + 1][..i] == bytes[..i];
      bits := bits + ByteBits(bytes[i]);
      i := i + 1;
    }
    assert bytes[..i] == bytes;
  }
}
