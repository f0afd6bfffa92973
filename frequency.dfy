/** Byte-frequency counting, the first loop of `compressHuffman`. */
module Frequency {
  import opened CodecTypes

  /** The frequency table of `data`: every byte present, with its number of
      occurrences. */
  function Frequencies(data: seq<Byte>): map<Byte, nat> {
    map b | b in multiset(data) :: multiset(data)[b]
  }

  /** The counting loop: each byte bumps its entry, starting from 0 when it
      has none. The keys are exactly the bytes that occur, each mapped to its
      count. */
  method CountFrequencies(data: seq<Byte>) returns (freq: map<Byte, nat>)
    ensures forall b :: b in freq <==> b in data
    ensures forall b :: b in freq ==> freq[b] == multiset(data)[b] > 0
    ensures freq == Frequencies(data)
  {
    freq := map[];
    var i := 0;
    while i < |data|
      invariant 0 <= i <= |data|
      invariant freq == Frequencies(data[..i])
    {
      var byte := data[i];
      var oldCount := if byte in freq then freq[byte] else 0;
      freq := freq[byte := oldCount + 1];
      assert data[..i + 1] == data[..i] + [byte];
      i := i + 1;
    }
    assert data[..i] == data;
  }

  /** A byte sequence with a single distinct value `b` has the frequency table
      `{b: |data|}`. */
  lemma {:induction false} SingleByteCount(data: seq<Byte>, b: Byte)
    requires forall i :: 0 <= i < |data| ==> data[i] == b
    ensures multiset(data)[b] == |data|
  {
    if data != [] {
      SingleByteCount(data[1..], b);
      assert data == [data[0]] + data[1..];
    }
  }
}
