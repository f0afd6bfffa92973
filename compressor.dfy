/** `compressHuffman`: count the bytes, pick a code table, encode, pad, pack,
    and frame the result behind the serialised header. */
module Compressor {
  import opened CodecTypes
  import opened Frequency
  import opened HuffmanTree
  import opened CodeAssign
  import opened BitPacking
  import opened Container

  /** The bit-string loop of `compressHuffman`: append the code of every
      byte of `data` in turn. */
  method EncodeBits(data: seq<Byte>, codes: map<Byte, Bits>) returns (bits: Bits)
    requires forall i :: 0 <= i < |data| ==> data[i] in codes
    ensures bits == Encoded(data, codes)
  {
    bits := [];
    var i := 0;
    while i < |data|
      invariant 0 <= i <= |data|
      invariant bits == Encoded(data[..i], codes)
    {
      assert data[..i + 1][..i] == data[..i];
      bits := bits + codes[data[i]];
      i := i + 1;
    }
    assert data[..i] == data;
  }

  /** Under the one-bit code '0' of a single repeated byte, the encoding is
      one zero per byte. */
  lemma {:induction false} SingleCodeEncoding(data: seq<Byte>, b: Byte)
    requires forall i :: 0 <= i < |data| ==> data[i] == b
    ensures Encoded(data, map[b := [false]]) == Zeros(|data|)
  {
    if data != [] {
      SingleCodeEncoding(data[..|data| - 1], b);
    }
  }

  /** The code table `compressHuffman` stores: none for no input, the code
      '0' for the only byte (the first key of the frequency table) when
      there is one distinct byte, and otherwise the codes of the tree
      `buildTree` makes from the frequency table. */
  function CodeTable(data: seq<Byte>): map<Byte, Bits> {
    var freq := Frequencies(data);
    if |freq| == 0 then map[]
    else if |freq| == 1 then KeyExists(freq); map[InitialNodes(freq)[0].byte := [false]]
    else GenerateCodes(HuffmanTreeOf(freq), [])
  }

  /** A frequency table with one key holds that key alone. */
  lemma OnlyKey(freq: map<Byte, nat>, b: Byte, x: Byte)
    requires |freq| == 1 && b in freq && x in freq
    ensures x == b
  {
    var rest := freq.Keys - {b};
    assert |rest| == 0;
  }

  /** The code table has a code for exactly the bytes that occur; the codes
      are non-empty and none is a prefix of another. */
  lemma CodeTableFacts(data: seq<Byte>)
    ensures forall b :: b in CodeTable(data) <==> b in data
    ensures NonEmptyCodes(CodeTable(data))
    ensures PrefixFree(CodeTable(data))
  {
    var freq := Frequencies(data);
    var codes := CodeTable(data);
    assert forall b :: b in freq <==> b in data;
    if |freq| == 1 {
      KeyExists(freq);
      var b0 := InitialNodes(freq)[0].byte;
      forall b | b in freq ensures b == b0 {
        OnlyKey(freq, b0, b);
      }
    } else if |freq| >= 2 {
      var root := HuffmanTreeOf(freq);
      HuffmanTreeShape(freq);
      HuffmanTreeInternal(freq);
      CodeTableOfTree(root);
      forall b ensures b in LeafBytes(root) <==> b in freq {
        assert b in LeafBytes(root) <==> b in multiset(LeafBytes(root));
      }
    }
  }

  /** Every byte of `data` has a code in its table. */
  lemma CodesCoverData(data: seq<Byte>)
    ensures forall i :: 0 <= i < |data| ==> data[i] in CodeTable(data)
  {
    CodeTableFacts(data);
  }

  /** The container `compressHuffman` produces for `data`: the header with the
      padding, the code table and the file name, serialised by `serialize`,
      then a zero byte, then the packed and padded encoding. */
  function CompressSpec(data: seq<Byte>, originalFileName: string, serialize: Header -> seq<Byte>): seq<Byte> {
    Assemble(CodeTable(data), BitString(data), originalFileName, serialize)
  }

  /** The container for a code table and the bit string it produced. */
  function Assemble(codes: map<Byte, Bits>, bits: Bits, originalFileName: string, serialize: Header -> seq<Byte>): seq<Byte> {
    var padding := PaddingFor(|bits|);
    PaddedToBytes(bits);
    Frame(serialize(Header(padding, codes, originalFileName)), Packed(bits + Zeros(padding)))
  }

  /** The unpadded bit string of `data` under its code table. */
  function BitString(data: seq<Byte>): Bits {
    CodesCoverData(data);
    Encoded(data, CodeTable(data))
  }

  /** The empty input gives padding 0, no codes and no payload. */
  lemma EmptyInput(originalFileName: string, serialize: Header -> seq<Byte>)
    ensures CompressSpec([], originalFileName, serialize)
         == Frame(serialize(Header(0, map[], originalFileName)), [])
  {
    assert Frequencies([]) == map[];
  }

  /** An input of copies of one byte `b` gets the code table `{b: '0'}` and
      the bit string of one zero per byte. */
  lemma SingleByteInput(data: seq<Byte>)
    requires |data| > 0 && forall i :: 0 <= i < |data| ==> data[i] == data[0]
    ensures CodeTable(data) == map[data[0] := [false]]
    ensures BitString(data) == Zeros(|data|)
  {
    var freq := Frequencies(data);
    var b := data[0];
    assert b in freq;
    forall x | x in freq ensures x == b {
      assert x in multiset(data);
    }
    assert freq.Keys == {b};
    KeyExists(freq);
    assert InitialNodes(freq)[0].byte in freq;
    assert CodeTable(data) == map[b := [false]];
    SingleCodeEncoding(data, b);
  }

  /** Five copies of byte 5 give the code table `{5: '0'}`, padding 3 and the
      single payload byte 0. */
  lemma FiveFives(originalFileName: string, serialize: Header -> seq<Byte>)
    ensures CompressSpec([5, 5, 5, 5, 5], originalFileName, serialize)
         == Frame(serialize(Header(3, map[5 := [false]], originalFileName)), [0])
  {
    var data: seq<Byte> := [5, 5, 5, 5, 5];
    SingleByteInput(data);
    var padded := Zeros(5) + Zeros(3);
    assert padded == Zeros(8);
    PackedOneByte(padded);
    ZerosValue(8);
  }

  /** Copies of one byte compress to the table mapping it to '0', the padding
      of one bit per copy, and that many zero bits packed. */
  lemma SingleByteContainer(data: seq<Byte>, originalFileName: string, serialize: Header -> seq<Byte>)
    requires |data| > 0 && forall i :: 0 <= i < |data| ==> data[i] == data[0]
    ensures var padding := PaddingFor(|data|);
      var bits := Zeros(|data| + padding);
      |bits| % 8 == 0 &&
      CompressSpec(data, originalFileName, serialize)
      == Frame(serialize(Header(padding, map[data[0] := [false]], originalFileName)), Packed(bits))
  {
    SingleByteInput(data);
    var padding := PaddingFor(|data|);
    assert Zeros(|data|) + Zeros(padding) == Zeros(|data| + padding);
  }

  /** Nine copies of byte 5 give the code table `{5: '0'}`, padding 7 and the
      two payload bytes 0, 0. */
  lemma NineFives(originalFileName: string, serialize: Header -> seq<Byte>)
    ensures CompressSpec([5, 5, 5, 5, 5, 5, 5, 5, 5], originalFileName, serialize)
         == Frame(serialize(Header(7, map[5 := [false]], originalFileName)), [0, 0])
  {
    var data: seq<Byte> := [5, 5, 5, 5, 5, 5, 5, 5, 5];
    SingleByteContainer(data, originalFileName, serialize);
    var bits := Zeros(16);
    PackedZeros(bits);
    var payload := Packed(bits);
    assert payload == [0, 0] by {
      assert payload[0] == 0 && payload[1] == 0;
    }
  }

  /** `compressHuffman`, with its three cases: no bytes, one distinct byte,
      and the general case through `buildTree` and `generateCodes`. */
  method CompressHuffman(data: seq<Byte>, originalFileName: string, serialize: Header -> seq<Byte>)
    returns (container: seq<Byte>)
    ensures container == CompressSpec(data, originalFileName, serialize)
  {
    var freq := CountFrequencies(data);
    if |freq| == 0 {
      EmptyInput(originalFileName, serialize);
      container := Frame(serialize(Header(0, map[], originalFileName)), []);
      assert container == CompressSpec(data, originalFileName, serialize);
      return;
    }
    if |freq| == 1 {
      KeyExists(freq);
      var byte := InitialNodes(freq)[0].byte;
      var codeMap := map[byte := [false]];
      var bitString := Zeros(freq[byte]);
      var padding := PaddingFor(|bitString|);
      var padded := bitString + Zeros(padding);
      PaddedToBytes(bitString);
      var byteArray := PackBits(padded);
      container := Frame(serialize(Header(padding, codeMap, originalFileName)), byteArray);
      forall i | 0 <= i < |data| ensures data[i] == byte {
        OnlyKey(freq, byte, data[i]);
      }
      SingleByteCount(data, byte);
      assert bitString == Zeros(|data|);
      assert data[0] == byte;
      SingleByteInput(data);
      return;
    }
    var root := BuildTree(freq);
    var codeMap := GenerateCodes(root, []);
    assert codeMap == CodeTable(data);
    CodesCoverData(data);
    var bitString := EncodeBits(data, codeMap);
    assert bitString == BitString(data);
    var padding := PaddingFor(|bitString|);
    PaddedToBytes(bitString);
    bitString := bitString + Zeros(padding);
    var byteArray := PackBits(bitString);
    container := Frame(serialize(Header(padding, codeMap, originalFileName)), byteArray);
    assert container == Assemble(CodeTable(data), BitString(data), originalFileName, serialize);
  }
}
