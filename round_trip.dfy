/** Decompressing what `compressHuffman` produced gives back the input bytes
    and the file name, provided the header serialiser never writes a zero
    byte and the parser reads back what the serialiser wrote. */
module RoundTrip {
  import opened CodecTypes
  import opened CodeAssign
  import opened BitPacking
  import opened Container
  import opened Compressor
  import opened Decompressor

  /** In a prefix-free table no two bytes share a code. */
  lemma PrefixFreeInjective(codes: map<Byte, Bits>)
    requires PrefixFree(codes)
    ensures forall b1, b2 :: b1 in codes && b2 in codes && b1 != b2 ==> codes[b1] != codes[b2]
  {
    forall b1, b2 | b1 in codes && b2 in codes && b1 != b2
      ensures codes[b1] != codes[b2]
    {
      assert codes[b1][..|codes[b1]|] == codes[b1];
    }
  }

  /** With the first `k` bits of the code of `b` already read, the matcher
      reads the rest of that code and emits `b`, with no earlier match:
      no proper prefix of a code in a prefix-free table is a code. */
  lemma {:induction false} GreedyReadsCode(codes: map<Byte, Bits>, b: Byte, k: nat, rest: Bits)
    requires PrefixFree(codes) && b in codes && k < |codes[b]|
    ensures var rev := ReverseOf(codes);
      Greedy(rev, codes[b][..k], codes[b][k..] + rest)
      == ([b] + Greedy(rev, [], rest).0, Greedy(rev, [], rest).1)
    decreases |codes[b]| - k
  {
    var rev := ReverseOf(codes);
    var c := codes[b];
    var bits := c[k..] + rest;
    ReverseCodesFacts(codes);
    PrefixFreeInjective(codes);
    ReverseInverts(codes);
    GreedyStep(rev, c[..k], bits);
    assert c[..k] + [bits[0]] == c[..k + 1];
    if k + 1 == |c| {
      assert c[..k + 1] == c;
      assert bits[1..] == rest;
    } else {
      var code := c[..k + 1];
      if code in rev {
        var other := rev[code];
        assert codes[other] == code;
        assert IsPrefix(codes[other], codes[b]);
      }
      assert bits[1..] == c[k + 1..] + rest;
      GreedyReadsCode(codes, b, k + 1, rest);
    }
  }

  /** Greedy matching of an encoding under a prefix-free table of non-empty
      codes gives back the bytes encoded, with nothing left over. */
  lemma {:induction false} GreedyDecodesEncoding(codes: map<Byte, Bits>, data: seq<Byte>)
    requires PrefixFree(codes) && NonEmptyCodes(codes)
    requires forall i :: 0 <= i < |data| ==> data[i] in codes
    ensures Greedy(ReverseOf(codes), [], Encoded(data, codes)) == (data, [])
  {
    if data != [] {
      var c := codes[data[0]];
      var rest := Encoded(data[1..], codes);
      EncodedFirst(data, codes);
      GreedyDecodesEncoding(codes, data[1..]);
      assert c[..0] == [] && c[0..] == c;
      GreedyReadsCode(codes, data[0], 0, rest);
      assert [data[0]] + data[1..] == data;
    }
  }

  /** Decoding the packed and padded encoding of `data`, with the padding
      recorded for it, gives back `data`. */
  lemma DecodeEncoding(codes: map<Byte, Bits>, data: seq<Byte>)
    requires PrefixFree(codes) && NonEmptyCodes(codes)
    requires forall i :: 0 <= i < |data| ==> data[i] in codes
    ensures var bits := Encoded(data, codes);
      var padding := PaddingFor(|bits|);
      |bits + Zeros(padding)| % 8 == 0 &&
      DecodeSpec(padding, codes, Packed(bits + Zeros(padding))) == Ok(data)
  {
    var bits := Encoded(data, codes);
    var padding := PaddingFor(|bits|);
    PaddedToBytes(bits);
    UnpackPacked(bits + Zeros(padding));
    StripAppendedPadding(bits, padding);
    GreedyDecodesEncoding(codes, data);
  }

  /** Decompressing the container `compressHuffman` makes for `data` and
      `originalFileName` gives back both. */
  lemma CompressRoundTrip(data: seq<Byte>, originalFileName: string,
                          serialize: Header -> seq<Byte>, parse: seq<Byte> -> Option<RawHeader>)
    requires forall h :: 0 !in serialize(h)
    requires forall h :: parse(serialize(h)) == Some(Raw(h))
    ensures DecompressSpec(CompressSpec(data, originalFileName, serialize), parse) == Ok((data, originalFileName))
  {
    var codes := CodeTable(data);
    var bits := BitString(data);
    var padding := PaddingFor(|bits|);
    var header := Header(padding, codes, originalFileName);
    PaddedToBytes(bits);
    var payload := Packed(bits + Zeros(padding));
    assert CompressSpec(data, originalFileName, serialize) == Frame(serialize(header), payload);
    SplitFrame(serialize(header), payload);
    CodeTableFacts(data);
    CodesCoverData(data);
    DecodeEncoding(codes, data);
  }

  /** A run of copies of one byte, shortened by 8 from a length 1 more than
      a multiple of 8, is what `|data| - 1` zero bits decode to under its one-bit
      code and padding 7. */
  lemma DecodeShortenedRun(data: seq<Byte>)
    requires |data| >= 9 && |data| % 8 == 1 && forall i :: 0 <= i < |data| ==> data[i] == data[0]
    ensures |Zeros(|data| - 1)| % 8 == 0 &&
      DecodeSpec(7, map[data[0] := [false]], Packed(Zeros(|data| - 1))) == Ok(data[..|data| - 8])
  {
    var n := |data|;
    var shorter := data[..n - 8];
    var q := n / 8;
    assert n - 8 == 8 * (q - 1) + 1;
    assert PaddingFor(n - 8) == 7;
    SingleCodeEncoding(shorter, data[0]);
    assert Zeros(n - 8) + Zeros(7) == Zeros(n - 1);
    DecodeEncoding(map[data[0] := [false]], shorter);
  }

  /** A run of copies of one byte whose length is 1 more than a multiple of
      8 compresses to padding 7 and its code bits packed into zero bytes. */
  lemma RunContainer(data: seq<Byte>, originalFileName: string, serialize: Header -> seq<Byte>)
    requires |data| % 8 == 1 && forall i :: 0 <= i < |data| ==> data[i] == data[0]
    ensures var bits := Zeros(|data| + 7);
      |bits| % 8 == 0 &&
      CompressSpec(data, originalFileName, serialize)
      == Frame(serialize(Header(7, map[data[0] := [false]], originalFileName)), Packed(bits))
  {
    var q := |data| / 8;
    assert |data| == 8 * q + 1;
    assert PaddingFor(|data|) == 7;
    SingleByteContainer(data, originalFileName, serialize);
  }

  /** The container of such a run, cut short by its last byte, still
      decompresses, to the run shortened by 8. */
  lemma TruncatedRunDecompresses(data: seq<Byte>, originalFileName: string,
                                 serialize: Header -> seq<Byte>, parse: seq<Byte> -> Option<RawHeader>)
    requires forall h :: 0 !in serialize(h)
    requires forall h :: parse(serialize(h)) == Some(Raw(h))
    requires |data| >= 9 && |data| % 8 == 1 && forall i :: 0 <= i < |data| ==> data[i] == data[0]
    ensures var header := serialize(Header(7, map[data[0] := [false]], originalFileName));
      var bits := Zeros(|data| + 7);
      |bits| % 8 == 0 &&
      var payload := Packed(bits);
      |payload| > 1 &&
      DecompressSpec(Frame(header, payload[..|payload| - 1]), parse) == Ok((data[..|data| - 8], originalFileName))
  {
    var n := |data|;
    var h := Header(7, map[data[0] := [false]], originalFileName);
    var header := serialize(h);
    var q := n / 8;
    assert n == 8 * q + 1 && n + 7 == 8 * (q + 1);
    var payload := Packed(Zeros(n + 7));
    assert |payload| == q + 1;
    // The payload without its last byte packs the first n - 1 zero bits.
    var cut := payload[..|payload| - 1];
    assert cut == Packed(Zeros(n - 1)) by {
      PackedDropLast(Zeros(n + 7));
      assert Zeros(n + 7)[..n - 1] == Zeros(n - 1);
    }
    assert DecodeSpec(h.padding, h.codes, cut) == Ok(data[..n - 8]) by {
      DecodeShortenedRun(data);
    }
    DecompressFrame(header, h, cut, parse);
    assert DecompressSpec(Frame(header, cut), parse) == Ok((data[..n - 8], originalFileName));
  }

  /** Losing the last byte of a container can go unnoticed. For a run of
      copies of one byte whose length is 1 more than a multiple of 8 (at
      least 9), the one-bit code leaves 7 bits of padding; the container is
      the header followed by zero bytes, and with its last payload byte cut
      off, 8 code bits are gone, yet what remains still decompresses, without
      error, to the run shortened by 8. */
  lemma TruncationUndetected(data: seq<Byte>, originalFileName: string,
                             serialize: Header -> seq<Byte>, parse: seq<Byte> -> Option<RawHeader>)
    requires forall h :: 0 !in serialize(h)
    requires forall h :: parse(serialize(h)) == Some(Raw(h))
    requires |data| >= 9 && |data| % 8 == 1 && forall i :: 0 <= i < |data| ==> data[i] == data[0]
    ensures var header := serialize(Header(7, map[data[0] := [false]], originalFileName));
      var bits := Zeros(|data| + 7);
      |bits| % 8 == 0 &&
      var payload := Packed(bits);
      CompressSpec(data, originalFileName, serialize) == Frame(header, payload) &&
      |payload| > 1 &&
      DecompressSpec(Frame(header, payload[..|payload| - 1]), parse) == Ok((data[..|data| - 8], originalFileName))
  {
    RunContainer(data, originalFileName, serialize);
    TruncatedRunDecompresses(data, originalFileName, serialize, parse);
  }
}
