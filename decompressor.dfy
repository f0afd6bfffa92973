/** `decodeHuffman` and the part of `handleDecompression` that takes a
    container apart: invert the code table, expand the payload to bits,
    drop the padding, and match codes greedily bit by bit. */
module Decompressor {
  import opened CodecTypes
  import opened CodeAssign
  import opened BitPacking
  import opened Container

  // ---------------------------------------------------------------------------
  // Inverting the code table

  /** The reverse table after visiting the bytes below `n` in ascending
      order (the order `for...in` visits integer keys), each visit mapping
      the byte's code to the byte. A later byte overwrites an earlier one
      with the same code. */
  function ReverseUpTo(codes: map<Byte, Bits>, n: nat): map<Bits, Byte>
    requires n <= 256
  {
    if n == 0 then map[]
    else
      var rev := ReverseUpTo(codes, n - 1);
      if n - 1 in codes then rev[codes[n - 1] := n - 1] else rev
  }

  /** `reverseCodes`: code string to byte. */
  function ReverseOf(codes: map<Byte, Bits>): map<Bits, Byte> {
    ReverseUpTo(codes, 256)
  }

  lemma {:induction false} ReverseUpToFacts(codes: map<Byte, Bits>, n: nat)
    requires n <= 256
    ensures forall b: Byte :: b in codes && b < n ==> codes[b] in ReverseUpTo(codes, n) && b <= ReverseUpTo(codes, n)[codes[b]]
    ensures forall c :: c in ReverseUpTo(codes, n) ==>
      var b := ReverseUpTo(codes, n)[c]; b in codes && b < n && codes[b] == c
  {
    if n > 0 {
      ReverseUpToFacts(codes, n - 1);
    }
  }

  /** The reverse table has exactly the codes as keys; each code leads back
      to a byte with that code, the largest such byte. */
  lemma ReverseCodesFacts(codes: map<Byte, Bits>)
    ensures forall b :: b in codes ==> codes[b] in ReverseOf(codes) && b <= ReverseOf(codes)[codes[b]]
    ensures forall c :: c in ReverseOf(codes) ==> ReverseOf(codes)[c] in codes && codes[ReverseOf(codes)[c]] == c
  {
    ReverseUpToFacts(codes, 256);
  }

  /** When no two bytes share a code, the reverse table inverts the codes. */
  lemma ReverseInverts(codes: map<Byte, Bits>)
    requires forall b1, b2 :: b1 in codes && b2 in codes && b1 != b2 ==> codes[b1] != codes[b2]
    ensures forall b :: b in codes ==> codes[b] in ReverseOf(codes) && ReverseOf(codes)[codes[b]] == b
  {
    ReverseCodesFacts(codes);
  }

  /** The loop building `reverseCodes`. */
  method ReverseCodes(codes: map<Byte, Bits>) returns (rev: map<Bits, Byte>)
    ensures rev == ReverseOf(codes)
  {
    rev := map[];
    for b := 0 to 256
      invariant rev == ReverseUpTo(codes, b)
    {
      if b in codes {
        rev := rev[codes[b] := b];
      }
    }
  }

  // ---------------------------------------------------------------------------
  // Greedy matching

  /** Reading `bits` one at a time onto the candidate `current`: whenever the
      candidate is a key of `rev`, its byte is emitted and the candidate
      starts again from nothing. The result is the emitted bytes and the
      candidate left at the end. */
  function Greedy(rev: map<Bits, Byte>, current: Bits, bits: Bits): (seq<Byte>, Bits)
    decreases |bits|
  {
    if bits == [] then ([], current)
    else
      var code := current + [bits[0]];
      if code in rev then
        var (decoded, leftover) := Greedy(rev, [], bits[1..]);
        ([rev[code]] + decoded, leftover)
      else Greedy(rev, code, bits[1..])
  }

  /** One step of the matching. */
  lemma GreedyStep(rev: map<Bits, Byte>, current: Bits, bits: Bits)
    requires bits != []
    ensures var code := current + [bits[0]];
      Greedy(rev, current, bits)
      == if code in rev then ([rev[code]] + Greedy(rev, [], bits[1..]).0, Greedy(rev, [], bits[1..]).1)
         else Greedy(rev, code, bits[1..])
  {
  }

  /** Whatever the code table, the bytes matched re-encode to the bits read,
      minus the leftover candidate at the end. */
  lemma {:induction false} GreedySound(codes: map<Byte, Bits>, current: Bits, bits: Bits)
    ensures var (decoded, leftover) := Greedy(ReverseOf(codes), current, bits);
      (forall i :: 0 <= i < |decoded| ==> decoded[i] in codes) &&
      Encoded(decoded, codes) + leftover == current + bits
    decreases |bits|
  {
    var rev := ReverseOf(codes);
    if bits != [] {
      ReverseCodesFacts(codes);
      var code := current + [bits[0]];
      assert code + bits[1..] == current + bits;
      if code in rev {
        GreedySound(codes, [], bits[1..]);
        var (decoded, leftover) := Greedy(rev, [], bits[1..]);
        var out := [rev[code]] + decoded;
        assert Greedy(rev, current, bits) == (out, leftover);
        EncodedFirst(out, codes);
        assert out[1..] == decoded;
        assert Encoded(out, codes) + leftover == code + (Encoded(decoded, codes) + leftover);
      } else {
        GreedySound(codes, code, bits[1..]);
      }
    }
  }

  // ---------------------------------------------------------------------------
  // decodeHuffman

  /** What `decodeHuffman` returns for a header's padding and codes and the
      payload bytes: the greedy decoding of the unpadded bits, or the
      incomplete-decoding error when bits are left over. */
  function DecodeSpec(padding: int, codes: map<Byte, Bits>, payload: seq<Byte>): Result<seq<Byte>> {
    var bits := StripPadding(Unpacked(payload), padding);
    var (decoded, leftover) := Greedy(ReverseOf(codes), [], bits);
    if leftover != [] then Err(IncompleteDecoding) else Ok(decoded)
  }

  /** A successful decoding is consistent with the payload: its
      bytes all have codes, and their codes make up exactly the unpadded bits.
      The only error is the leftover one. */
  lemma DecodeSound(padding: int, codes: map<Byte, Bits>, payload: seq<Byte>)
    ensures var r := DecodeSpec(padding, codes, payload);
      (r.Err? ==> r.error == IncompleteDecoding) &&
      (r.Ok? ==> (forall i :: 0 <= i < |r.value| ==> r.value[i] in codes) &&
                 Encoded(r.value, codes) == StripPadding(Unpacked(payload), padding))
  {
    var bits := StripPadding(Unpacked(payload), padding);
    GreedySound(codes, [], bits);
    var (decoded, leftover) := Greedy(ReverseOf(codes), [], bits);
    if leftover == [] {
      assert Encoded(decoded, codes) + [] == Encoded(decoded, codes);
      assert [] + bits == bits;
    }
  }

  /** `decodeHuffman(header, compressedData)`. */
  method DecodeHuffman(header: Header, compressedData: seq<Byte>) returns (r: Result<seq<Byte>>)
    ensures r == DecodeSpec(header.padding, header.codes, compressedData)
  {
    var reverseCodes := ReverseCodes(header.codes);
    var bitString := UnpackBytes(compressedData);
    if header.padding > 0 {
      bitString := bitString[..SliceEnd(|bitString|, |bitString| - header.padding)];
    }
    ghost var bits := bitString;
    assert bits == StripPadding(Unpacked(compressedData), header.padding);
    var decodedBytes: seq<Byte> := [];
    var currentCode: Bits := [];
    var i := 0;
    assert bits[i..] == bits;
    while i < |bitString|
      invariant 0 <= i <= |bitString|
      invariant Greedy(reverseCodes, [], bits).0 == decodedBytes + Greedy(reverseCodes, currentCode, bits[i..]).0
      invariant Greedy(reverseCodes, [], bits).1 == Greedy(reverseCodes, currentCode, bits[i..]).1
    {
      GreedyStep(reverseCodes, currentCode, bits[i..]);
      assert bits[i..][1..] == bits[i + 1..];
      currentCode := currentCode + [bitString[i]];
      if currentCode in reverseCodes {
        decodedBytes := decodedBytes + [reverseCodes[currentCode]];
        currentCode := [];
      }
      i := i + 1;
    }
    assert bits[i..] == [];
    assert decodedBytes + [] == decodedBytes;
    assert Greedy(reverseCodes, [], bits) == (decodedBytes, currentCode);
    if currentCode != [] {
      return Err(IncompleteDecoding);
    }
    return Ok(decodedBytes);
  }

  // ---------------------------------------------------------------------------
  // handleDecompression

  /** The outcome of decompressing a container whose header bytes `parse`
      turns into a record: split at the first zero byte, check the header
      fields, decode the payload, and hand back the bytes with the stored
      file name. */
  function DecompressSpec(container: seq<Byte>, parse: seq<Byte> -> Option<RawHeader>): Result<(seq<Byte>, string)> {
    match SplitContainer(container)
    case Err(e) => Err(e)
    case Ok((headerBytes, payload)) =>
      match CheckHeader(parse(headerBytes))
      case Err(e) => Err(e)
      case Ok(header) =>
        match DecodeSpec(header.padding, header.codes, payload)
        case Err(e) => Err(e)
        case Ok(decoded) => Ok((decoded, header.originalFileName))
  }

  /** A frame whose header bytes have no zero byte and parse to a complete
      header decompresses to what its payload decodes to under that header,
      paired with the stored file name. */
  lemma DecompressFrame(headerBytes: seq<Byte>, header: Header, payload: seq<Byte>,
                        parse: seq<Byte> -> Option<RawHeader>)
    requires 0 !in headerBytes && parse(headerBytes) == Some(Raw(header))
    ensures var decoded := DecodeSpec(header.padding, header.codes, payload);
      DecompressSpec(Frame(headerBytes, payload), parse)
      == if decoded.Ok? then Ok((decoded.value, header.originalFileName)) else Err(decoded.error)
  {
    SplitFrame(headerBytes, payload);
    assert CheckHeader(parse(headerBytes)) == Ok(header);
  }

  /** A container is refused for a missing delimiter exactly when it has no
      zero byte; a header that parses but lacks a field is refused as
      malformed before any decoding. */
  lemma DecompressErrors(container: seq<Byte>, parse: seq<Byte> -> Option<RawHeader>)
    ensures DecompressSpec(container, parse) == Err(MissingDelimiter) <==> 0 !in container
    ensures 0 in container ==>
      var headerBytes := SplitContainer(container).value.0;
      parse(headerBytes).None? ==> DecompressSpec(container, parse) == Err(HeaderSyntax)
    ensures 0 in container ==>
      var headerBytes := SplitContainer(container).value.0;
      parse(headerBytes).Some? && CheckHeader(parse(headerBytes)).Err? ==>
        DecompressSpec(container, parse) == Err(MalformedHeader)
  {
    if 0 in container {
      var (headerBytes, payload) := SplitContainer(container).value;
      match CheckHeader(parse(headerBytes))
      case Err(e) =>
      case Ok(header) =>
        DecodeSound(header.padding, header.codes, payload);
    }
  }

  /** The decompression steps of `handleDecompression`, from the container
      bytes to the decoded bytes and the stored file name. */
  method Decompress(container: seq<Byte>, parse: seq<Byte> -> Option<RawHeader>)
    returns (r: Result<(seq<Byte>, string)>)
    ensures r == DecompressSpec(container, parse)
  {
    var delimiterIndex := IndexOfZero(container);
    if delimiterIndex == -1 {
      return Err(MissingDelimiter);
    }
    var headerBytes := container[..delimiterIndex];
    var compressedBytes := container[delimiterIndex + 1..];
    var checked := CheckHeader(parse(headerBytes));
    if checked.Err? {
      return Err(checked.error);
    }
    var header := checked.value;
    var decompressed := DecodeHuffman(header, compressedBytes);
    if decompressed.Err? {
      return Err(decompressed.error);
    }
    return Ok((decompressed.value, header.originalFileName));
  }
}
