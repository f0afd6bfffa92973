# Small-File Huffman codec, modelled in Dafny

Small-File compresses a file in the browser with a byte-level Huffman code and
writes a `.huff` container: a header record (padding count, code table,
original file name) serialised as text, one zero byte, then the packed
payload. Decompression splits the container at its first zero byte, checks
the header, expands the payload to bits, drops the padding and matches codes
greedily one bit at a time.

This project models that codec, from bytes in memory to container bytes in
memory and back:

- `types.dfy` (`CodecTypes`): bytes, bit strings (`false` is '0', `true` is
  '1'), the errors of decompression, prefix-freedom.
- `frequency.dfy` (`Frequency`): the byte-counting loop.
- `huffman_tree.dfy` (`HuffmanTree`): `HuffmanNode` and `buildTree`. The
  initial leaves come in ascending byte order, the sort is stable (an
  insertion sort), and each pass takes the two front nodes off and appends
  their merge, so the tree, ties included, is the one the code builds.
  `BuildTree` is the mutable loop, proved equal to the recursive `Huffman`.
- `code_assign.dfy` (`CodeAssign`): `generateCodes` and the encoding of a byte
  sequence under a code table.
- `bit_packing.dfy` (`BitPacking`): padding, MSB-first packing and unpacking,
  and the padding strip with JavaScript `slice` semantics.
- `container.dfy` (`Container`): the header record, the frame
  `header ++ [0] ++ payload`, the split at the first zero byte, and the
  header-field check.
- `compressor.dfy` (`Compressor`): `compressHuffman` with its three cases.
- `decompressor.dfy` (`Decompressor`): `decodeHuffman` and the decoding part of
  `handleDecompression`.
- `round_trip.dfy` (`RoundTrip`): decompressing a compressed container gives
  back the bytes and the file name.

Every loop of the source is a method whose postcondition equals a
specification function; the properties are lemmas about those functions.
The header serialiser and parser (`JSON.stringify` with `TextEncoder`,
`TextDecoder` with `JSON.parse`) are function parameters. The round trip
assumes of them only that the serialiser never writes a zero byte and that
the parser reads back what the serialiser wrote.

Where the documented design and the code differ, the model follows the code:

- The decoder does not check the padding count. A padding above the bit
  count slices with a negative end and keeps a prefix, and a negative
  padding strips nothing (`BitPacking.StripPadding`). It raises no format
  error.
- Truncated payloads are not always detected. For a run of one byte whose
  length is 1 more than a multiple of 8 (nine 5s, say), the container ends
  in zero bytes after padding 7; cutting its last byte off still decodes
  without error, to the run shortened by 8 (`RoundTrip.TruncationUndetected`).
- The decoder does not check that the code table is prefix-free or has no
  empty or duplicate codes. On duplicate codes, the largest byte wins
  (`Decompressor.ReverseCodesFacts`).

## Data types

| type | source | models |
|---|---|---|
| `HuffmanTree.Node` | compressor.js:2-9 | `HuffmanNode`: a leaf carries a byte and its count; an internal node carries the sum of its children's counts and its two children |
| `Container.Header` | compressor.js:104-108 | the header object written before the delimiter: padding, code table, original file name |
| `Container.RawHeader` | decompressor.js:72-75 | what `JSON.parse` returns for the header, each field present or absent |

## Model

| member | source | states |
|---|---|---|
| CodecTypes.Zeros | compressor.js:67 | the padding string has the requested length and only '0' bits |
| Frequency.Frequencies | compressor.js:46-49 | defines the frequency table: each byte of the input maps to its number of occurrences |
| Frequency.CountFrequencies | compressor.js:46-49 | the keys of the table are exactly the bytes in the input, and each maps to its number of occurrences, which is positive |
| Frequency.SingleByteCount | compressor.js:60-65 | when every byte is `b`, the count of `b` is the input length |
| HuffmanTree.InitialNodes | compressor.js:13-15 | defines the initial node list: one leaf per table entry, taken over the bytes 0 to 255 in ascending order |
| HuffmanTree.LeavesFrom | compressor.js:13-15 | every initial node is a leaf for a byte of the table and carries that byte's count |
| HuffmanTree.LeavesAscending | compressor.js:13-15 | the initial leaves come in strictly ascending byte order, the order in which integer keys of an object are enumerated |
| HuffmanTree.LeavesCoverTable | compressor.js:13-15 | each byte of the table has exactly one initial leaf and no other byte has one |
| HuffmanTree.Insert | compressor.js:18 | inserting into a list sorted by frequency adds one node, drawn from the node and the list, and keeps the list sorted |
| HuffmanTree.InsertPermutes | compressor.js:18 | insertion adds exactly the inserted node to the multiset of nodes |
| HuffmanTree.InsertStable | compressor.js:18 | the inserted node goes before every node of equal frequency already in the list, and their order is kept |
| HuffmanTree.InsertFreq | compressor.js:18 | insertion adds the node's frequency to the total |
| HuffmanTree.InsertLeaves | compressor.js:18 | insertion adds the node's leaf bytes to the list's leaf bytes |
| HuffmanTree.SortByFreq | compressor.js:18 | the sorted list is ordered by frequency and has the same length |
| HuffmanTree.SortPermutes | compressor.js:18 | sorting is a permutation of the node list |
| HuffmanTree.SortStable | compressor.js:18 | sorting is stable: the nodes of each frequency keep their relative order |
| HuffmanTree.SortTotals | compressor.js:18 | sorting keeps the total frequency and the leaf bytes |
| HuffmanTree.MergeFront | compressor.js:19-22 | one merge pass shrinks the list by exactly one node |
| HuffmanTree.MergeFreq | compressor.js:19-22 | a merge keeps the total frequency |
| HuffmanTree.MergeLeaves | compressor.js:19-22 | a merge keeps the multiset of leaf bytes |
| HuffmanTree.MergeWellFormed | compressor.js:21 | a merged node's count is the sum of its children's, so all counts stay consistent with the table |
| HuffmanTree.Huffman | compressor.js:17-25 | defines the merge loop recursively: while more than one node remains, sort, take the two front nodes and append their merge; the last node is the tree |
| HuffmanTree.HuffmanTreeOf | compressor.js:12-26 | defines the tree `buildTree` returns for a non-empty frequency table |
| HuffmanTree.HuffmanInvariants | compressor.js:17-25 | the final root's count is the total of the initial list, its leaves are the initial list's leaves, and its counts are consistent |
| HuffmanTree.HuffmanTreeShape | compressor.js:12-26 | the root's count is the sum of all frequencies, each byte of the table is exactly one leaf and no other byte is, and every count is consistent |
| HuffmanTree.HuffmanTreeInternal | compressor.js:17-25 | with two or more distinct bytes the root is an internal node with two children |
| HuffmanTree.BuildTree | compressor.js:12-26 | the mutable sort/shift/shift/push loop, shrinking the list by one per pass, returns the tree of the recursive definition |
| CodeAssign.GenerateCodes | compressor.js:29-37 | defines the code table: a leaf gets the prefix handed down, and an internal node hands down the prefix plus '0' to its left child and plus '1' to its right child |
| CodeAssign.CodesCoverLeaves | compressor.js:29-37 | a code is assigned to exactly the bytes at the leaves |
| CodeAssign.CodesArePaths | compressor.js:29-37 | each code extends the prefix handed down, is longer below an internal node, and is the path to a leaf holding its byte |
| CodeAssign.CodeTableOfTree | compressor.js:29-37 | for a tree with an internal root, codes exist for exactly the leaf bytes, each is the root-to-leaf path, non-empty, and no code is a prefix of another byte's code |
| CodeAssign.Encoded | compressor.js:91-94 | defines the bit string: the codes of the input bytes concatenated in input order |
| CodeAssign.EncodedFirst | compressor.js:91-94 | the encoding of the input is the first byte's code followed by the encoding of the rest |
| BitPacking.BitsValue | compressor.js:101 | defines the value of a bit string read as a base-2 numeral, most significant bit first, as `parseInt` with radix 2 reads it |
| BitPacking.BitsValueBound | compressor.js:101 | the value of `n` bits is below 2^n |
| BitPacking.NatBits | decompressor.js:17 | the `width` low bits of a number, most significant first, always `width` long; for a byte and width 8 this is `toString(2).padStart(8, '0')` |
| BitPacking.ByteBits | decompressor.js:17 | defines the eight bits of a byte, most significant first |
| BitPacking.ValueOfNatBits | decompressor.js:17 | writing a number that fits in `width` bits and reading it back gives the number |
| BitPacking.NatBitsOfValue | decompressor.js:17 | reading a bit string and writing the value in as many bits gives the string |
| BitPacking.ByteOf | compressor.js:101 | the value of eight bits is a byte whose eight bits are those bits |
| BitPacking.ByteOfByteBits | compressor.js:101 | reading back the eight bits of a byte with `parseInt` gives the byte |
| BitPacking.PaddingFor | compressor.js:96 | the padding is below 8 and makes the length a multiple of 8 |
| BitPacking.PaddingIsLeast | compressor.js:96 | no smaller number of zero bits completes the last byte |
| BitPacking.PaddedToBytes | compressor.js:96-97 | the padded bit string has a whole number of bytes |
| BitPacking.SliceEnd | decompressor.js:22 | the end index of a JavaScript slice stays within the string |
| BitPacking.StripPadding | decompressor.js:21-23 | the result is a prefix; a non-positive padding keeps everything; a padding up to the length removes exactly that many bits; a larger one keeps twice the length minus the padding, or nothing |
| BitPacking.StripAppendedPadding | decompressor.js:21-23 | stripping the padding that was appended gives back the bits |
| BitPacking.Packed | compressor.js:99-102 | a bit string of a multiple of 8 bits packs into one byte per 8 bits |
| BitPacking.PackedByteAt | compressor.js:99-102 | byte `k` of the packed payload is the MSB-first value of bits `8k` to `8k+7` |
| BitPacking.PackedZeros | compressor.js:99-102 | whole bytes of zero bits pack into zero bytes |
| BitPacking.PackedDropLast | compressor.js:99-102 | the packed payload without its last byte is the packing of the bits without their last eight |
| BitPacking.Unpacked | decompressor.js:16-18 | unpacking yields exactly 8 bits per byte |
| BitPacking.UnpackPacked | decompressor.js:16-18 | unpacking the packed bits gives back the padded bit string |
| BitPacking.PackedAppendByte | compressor.js:99-102 | appending the eight bits of a byte to a whole number of bytes appends that byte to the packing |
| BitPacking.PackUnpacked | compressor.js:99-102 | packing the unpacked bytes gives back the bytes |
| BitPacking.ZerosValue | compressor.js:67 | a run of zero bits has value 0 |
| BitPacking.PackBits | compressor.js:99-102 | the packing loop computes the packed payload |
| BitPacking.UnpackBytes | decompressor.js:16-18 | the expansion loop computes the unpacked bits |
| Container.Frame | compressor.js:110-115 | defines the container: header bytes, the delimiter byte 0, payload bytes |
| Container.FrameDropLast | compressor.js:110-115 | dropping the last byte of a container with a payload drops the last payload byte |
| Container.IndexOfZero | decompressor.js:63 | the index is -1 exactly when there is no zero byte, and otherwise the first zero byte's position |
| Container.SplitContainer | decompressor.js:63-69 | with no zero byte the result is the missing-delimiter error; otherwise header, zero byte and payload make up the input and the header has no zero byte |
| Container.SplitFrame | compressor.js:110-115 | a frame whose header has no zero byte splits back into that header and payload |
| Container.CheckHeader | decompressor.js:72-77 | an unparsable header is a syntax error; a parsed header is malformed exactly when a field is missing; a passing header carries the parsed fields |
| Compressor.BitString | compressor.js:91-94 | defines the unpadded bit string: the input encoded under its code table |
| Compressor.Assemble | compressor.js:96-115 | defines the container from a code table and bit string: the padding count, the header record, the delimiter and the packed padded bits |
| Compressor.CompressSpec | compressor.js:45-116 | defines what `compressHuffman` returns for an input and a file name |
| Compressor.EncodeBits | compressor.js:91-94 | the bit-string loop computes the concatenation of the codes of the input bytes in order |
| Compressor.SingleCodeEncoding | compressor.js:64-65 | under the code '0' of the only byte, the encoding is one '0' per input byte |
| Compressor.CodeTable | compressor.js:52-89 | defines the stored code table: empty for no bytes, the code '0' for the only byte, otherwise `generateCodes` of `buildTree` |
| Compressor.CodeTableFacts | compressor.js:52-89 | the stored table has codes for exactly the input's bytes, all non-empty and prefix-free, in all three cases |
| Compressor.CodesCoverData | compressor.js:92-94 | every input byte has a code |
| Compressor.EmptyInput | compressor.js:52-59 | the empty input gives padding 0, no codes and no payload |
| Compressor.SingleByteInput | compressor.js:60-67 | copies of one byte get the table with the single code '0' and a bit string of one zero per byte |
| Compressor.SingleByteContainer | compressor.js:60-85 | copies of one byte compress to the header with the code '0' and the padding for one bit per copy, followed by that many zero bits packed |
| Compressor.FiveFives | compressor.js:60-85 | five copies of byte 5 give codes {5: '0'}, padding 3 and the payload [0] |
| Compressor.NineFives | compressor.js:60-85 | nine copies of byte 5 give codes {5: '0'}, padding 7 and the payload [0, 0] |
| Compressor.CompressHuffman | compressor.js:45-116 | the three-case procedure produces the container of the specification function |
| Decompressor.ReverseUpTo | decompressor.js:9-12 | defines the reverse table after the `for…in` has visited the bytes below `n` in ascending order, a later byte overwriting an earlier one with the same code |
| Decompressor.ReverseOf | decompressor.js:9-12 | defines the whole reverse table, over all 256 byte keys |
| Decompressor.ReverseUpToFacts | decompressor.js:9-12 | after visiting the bytes below `n`, each visited code maps to a visited byte with that code, no smaller than any other such byte |
| Decompressor.ReverseCodesFacts | decompressor.js:9-12 | the reverse table's keys are exactly the codes; each maps to a byte with that code, the largest one |
| Decompressor.ReverseInverts | decompressor.js:9-12 | for an injective table the reverse table is its inverse |
| Decompressor.ReverseCodes | decompressor.js:9-12 | the loop computes the reverse table |
| Decompressor.Greedy | decompressor.js:25-34 | defines the matching loop: append each bit to the candidate code; when the candidate is a key of the reverse table, emit its byte and reset the candidate; return the bytes and the final candidate |
| Decompressor.GreedySound | decompressor.js:25-34 | every emitted byte has a code, and the emitted codes followed by the leftover make up the bits read |
| Decompressor.DecodeSpec | decompressor.js:7-43 | defines what `decodeHuffman` returns: unpack, strip the padding, match greedily, and fail when a candidate code is left over |
| Decompressor.DecodeSound | decompressor.js:7-43 | the only decoding error is the leftover one, and a successful decoding re-encodes to exactly the unpadded bits |
| Decompressor.DecodeHuffman | decompressor.js:7-43 | the reverse-table, expansion, strip and greedy loops with the leftover check compute the decoding function |
| Decompressor.DecompressSpec | decompressor.js:63-79 | defines the decompression: split at the first zero byte, check the parsed header, decode the payload, pair the bytes with the stored name |
| Decompressor.DecompressFrame | decompressor.js:63-79 | a frame whose zero-free header parses to a complete header decompresses to what its payload decodes to under that header, with the stored name |
| Decompressor.DecompressErrors | decompressor.js:63-77 | a missing-delimiter error happens exactly when there is no zero byte; an unparsable header gives the syntax error and a header missing a field gives the malformed-header error |
| Decompressor.Decompress | decompressor.js:63-79 | the split, header check and decoding steps compute the decompression function |
| RoundTrip.PrefixFreeInjective | decompressor.js:9-12 | in a prefix-free table no two bytes share a code |
| RoundTrip.GreedyReadsCode | decompressor.js:28-34 | under a prefix-free table, reading the rest of a byte's code emits that byte and nothing earlier |
| RoundTrip.GreedyDecodesEncoding | decompressor.js:25-39 | greedy matching of an encoding under a prefix-free table of non-empty codes returns the input with nothing left over |
| RoundTrip.DecodeEncoding | decompressor.js:7-43 | decoding the packed, padded encoding with its padding returns the input |
| RoundTrip.CompressRoundTrip | compressor.js:45-116 | decompressing the compressed container returns the input bytes and the file name |
| RoundTrip.DecodeShortenedRun | decompressor.js:7-43 | a run of one byte shortened by 8 from a length 1 more than a multiple of 8 is what the remaining zero bits decode to under its one-bit code and padding 7 |
| RoundTrip.RunContainer | compressor.js:60-85 | a run of one byte of length 1 more than a multiple of 8 compresses to padding 7 and its zero bits packed |
| RoundTrip.TruncatedRunDecompresses | decompressor.js:21-39 | such a container with its last payload byte cut off decompresses without error to the run shortened by 8 |
| RoundTrip.TruncationUndetected | decompressor.js:21-39 | for every run of one byte of length 9, 17, 25, …, the compressed container is the header followed by zero bytes, and cutting its last byte off still decompresses without error, to 8 fewer bytes |

## Left out

- The browser glue: `compressFiles` and the rest of `handleDecompression`
  (file reading, status and loader updates, downloads, message boxes). It is
  asynchronous I/O with no codec logic.
- The compression-ratio report, which is floating-point display only.
- `JSON.stringify`, `JSON.parse`, `TextEncoder` and `TextDecoder`. They are
  library calls and appear as the `serialize` and `parse` parameters.
- The header check sees the parsed header through `Container.RawHeader`: a
  missing field, or a falsy `codes`, is absent; a padding of 0 and an empty
  file name are present. A padding that is not an integer and
  code-table keys or values that are not bytes and bit strings are outside
  the model, because JSON typing is not modelled.
- The fallback file name used when the stored name is empty. It is
  presentation glue after decoding.
- Huffman optimality (minimum weighted path length). The code never states
  it, and only structural properties and the round trip are proved.
- The unused single-leaf `root` in the one-distinct-byte case. It has no
  effect on the output.
