/** `generateCodes`: the code of a byte is the path from the root of the code
    tree to its leaf. */
module CodeAssign {
  import opened CodecTypes
  import opened HuffmanTree

  /** `generateCodes(node, prefix, map)`: a leaf maps its byte to the path
      taken so far; an internal node adds '0' on the way to its left child and
      '1' on the way to its right child. The shared `map` is filled left
      subtree first, so on a repeated byte the right subtree's entry wins, as
      with `+` on Dafny maps. */
  function GenerateCodes(t: Node, prefix: Bits): map<Byte, Bits> {
    match t
    case Leaf(b, _) => map[b := prefix]
    case Internal(_, l, r) => GenerateCodes(l, prefix + [false]) + GenerateCodes(r, prefix + [true])
  }

  /** The node reached from `t` by following `path`: '0' goes to the left
      child, '1' to the right one; a leaf has nowhere to go. */
  function Descend(t: Node, path: Bits): Option<Node>
    decreases path
  {
    if path == [] then Some(t)
    else
      match t
      case Leaf(_, _) => None
      case Internal(_, l, r) => Descend(if path[0] then r else l, path[1..])
  }

  /** Following `p + q` is following `p`, then `q` from where `p` led. */
  lemma {:induction false} DescendAppend(t: Node, p: Bits, q: Bits)
    ensures Descend(t, p + q) == if Descend(t, p).None? then None else Descend(Descend(t, p).value, q)
    decreases p
  {
    if p == [] {
      assert p + q == q;
    } else if t.Internal? {
      assert (p + q)[1..] == p[1..] + q;
      DescendAppend(if p[0] then t.right else t.left, p[1..], q);
    }
  }

  /** Every byte with a code is a leaf of the tree, and every leaf has one. */
  lemma {:induction false} CodesCoverLeaves(t: Node, prefix: Bits)
    ensures forall b :: b in GenerateCodes(t, prefix) <==> b in LeafBytes(t)
  {
    match t
    case Leaf(_, _) =>
    case Internal(_, l, r) =>
      CodesCoverLeaves(l, prefix + [false]);
      CodesCoverLeaves(r, prefix + [true]);
  }

  /** The code of each byte starts with the prefix handed down and continues
      with the path from `t` to a leaf holding that byte. Below an internal
      node every code is longer than the prefix. */
  lemma {:induction false} CodesArePaths(t: Node, prefix: Bits)
    ensures forall b :: b in GenerateCodes(t, prefix) ==>
      var c := GenerateCodes(t, prefix)[b];
      IsPrefix(prefix, c) && (t.Internal? ==> |c| > |prefix|) &&
      LeadsTo(t, c[|prefix|..], b)
  {
    var codes := GenerateCodes(t, prefix);
    match t
    case Leaf(b, f) =>
      assert codes[b][|prefix|..] == [];
    case Internal(_, l, r) =>
      var pl, pr := prefix + [false], prefix + [true];
      CodesArePaths(l, pl);
      CodesArePaths(r, pr);
      forall b | b in codes
        ensures var c := codes[b];
          IsPrefix(prefix, c) && |c| > |prefix| &&
          LeadsTo(t, c[|prefix|..], b)
      {
        var c := codes[b];
        var (child, p) := if b in GenerateCodes(r, pr) then (r, pr) else (l, pl);
        assert c == GenerateCodes(child, p)[b];
        assert c[..|prefix|] == p[..|prefix|];
        assert c[|prefix|..][1..] == c[|p|..];
        assert c[|prefix|] == p[|prefix|];
      }
  }

  /** Following `path` from `t` ends at a leaf holding `b`. */
  predicate LeadsTo(t: Node, path: Bits, b: Byte) {
    match Descend(t, path)
    case Some(Leaf(x, _)) => x == b
    case _ => false
  }

  /** For a tree with at least two leaves (an internal root), `generateCodes`
      yields a code for exactly the leaf bytes; each code is the path to its
      byte's leaf, is non-empty, and is not a prefix of any other byte's
      code. */
  lemma CodeTableOfTree(t: Node)
    requires t.Internal?
    ensures forall b :: b in GenerateCodes(t, []) <==> b in LeafBytes(t)
    ensures forall b :: b in GenerateCodes(t, []) ==> LeadsTo(t, GenerateCodes(t, [])[b], b)
    ensures NonEmptyCodes(GenerateCodes(t, []))
    ensures PrefixFree(GenerateCodes(t, []))
  {
    var codes := GenerateCodes(t, []);
    CodesCoverLeaves(t, []);
    CodesArePaths(t, []);
    forall b | b in codes ensures LeadsTo(t, codes[b], b) {
      assert codes[b][0..] == codes[b];
    }
    forall b1, b2 | b1 in codes && b2 in codes && b1 != b2
      ensures !IsPrefix(codes[b1], codes[b2])
    {
      var c1, c2 := codes[b1], codes[b2];
      assert c1[0..] == c1 && c2[0..] == c2;
      if IsPrefix(c1, c2) {
        var d := c2[|c1|..];
        assert c2 == c1 + d;
        DescendAppend(t, c1, d);
      }
    }
  }

  /** The codes of the bytes of `data`, one after the other. */
  function Encoded(data: seq<Byte>, codes: map<Byte, Bits>): Bits
    requires forall i :: 0 <= i < |data| ==> data[i] in codes
  {
    if data == [] then [] else Encoded(data[..|data| - 1], codes) + codes[data[|data| - 1]]
  }

  /** The encoding starts with the code of the first byte. */
  lemma {:induction false} EncodedFirst(data: seq<Byte>, codes: map<Byte, Bits>)
    requires data != [] && forall i :: 0 <= i < |data| ==> data[i] in codes
    ensures Encoded(data, codes) == codes[data[0]] + Encoded(data[1..], codes)
  {
    var n := |data|;
    var last := codes[data[n - 1]];
    var init := data[..n - 1];
    assert Encoded(data, codes) == Encoded(init, codes) + last;
    if n == 1 {
      assert data[1..] == [];
    } else {
      EncodedFirst(init, codes);
      var tail := data[1..];
      assert init[1..] == tail[..n - 2];
      assert Encoded(tail, codes) == Encoded(init[1..], codes) + last;
    }
  }
}
