/** Values shared by every part of the codec: bytes, bit strings, and the
    error-carrying result of decompression. */
module CodecTypes {

  /** One byte of a `Uint8Array`. */
  type Byte = b: int | 0 <= b < 256

  /** A bit string. The source keeps these as JavaScript strings over '0'
      and '1'; here `false` stands for '0' and `true` for '1'. */
  type Bits = seq<bool>

  datatype Option<T> = None | Some(value: T)

  /** The errors the decompressor throws. */
  datatype Error =
    | MissingDelimiter    // "missing header delimiter"
    | HeaderSyntax        // JSON.parse rejected the header text
    | MalformedHeader     // "malformed header structure"
    | IncompleteDecoding  // bits left in the current code after the payload

  datatype Result<T> = Ok(value: T) | Err(error: Error)

  /** A run of `n` '0' bits. */
  function Zeros(n: nat): (z: Bits)
    ensures |z| == n && forall i :: 0 <= i < n ==> !z[i]
  {
    seq(n, _ => false)
  }

  /** `p` is a prefix of `s` (possibly all of it). */
  predicate IsPrefix(p: Bits, s: Bits) {
    |p| <= |s| && s[..|p|] == p
  }

  /** No code is a prefix of the code of a different byte; in particular two
      different bytes never share a code. */
  predicate PrefixFree(codes: map<Byte, Bits>) {
    forall b1, b2 :: b1 in codes && b2 in codes && b1 != b2 ==> !IsPrefix(codes[b1], codes[b2])
  }

  predicate NonEmptyCodes(codes: map<Byte, Bits>) {
    forall b :: b in codes ==> |codes[b]| > 0
  }
}
