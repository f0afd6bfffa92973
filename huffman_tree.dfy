/** `HuffmanNode` and `buildTree`: the code tree built by repeatedly merging
    the two nodes of smallest frequency. */
module HuffmanTree {
  import opened CodecTypes

  /** `HuffmanNode`. A leaf holds a byte and its count; an internal node holds
      the sum of its children's counts and always has both children (the
      source's `byte` is `null` there). */
  datatype Node =
    | Leaf(byte: Byte, freq: nat)
    | Internal(freq: nat, left: Node, right: Node)

  /** The bytes at the leaves of `t`, left to right. */
  function LeafBytes(t: Node): seq<Byte> {
    match t
    case Leaf(b, _) => [b]
    case Internal(_, l, r) => LeafBytes(l) + LeafBytes(r)
  }

  /** The leaf bytes of a list of trees, tree after tree. */
  function ForestBytes(nodes: seq<Node>): seq<Byte> {
    if nodes == [] then [] else LeafBytes(nodes[0]) + ForestBytes(nodes[1..])
  }

  /** The sum of the frequencies of a list of trees. */
  function TotalFreq(nodes: seq<Node>): nat {
    if nodes == [] then 0 else nodes[0].freq + TotalFreq(nodes[1..])
  }

  /** Every leaf carries its byte's count in `freq`, every internal node the
      sum of its children's counts. */
  predicate WellFormed(t: Node, freq: map<Byte, nat>) {
    match t
    case Leaf(b, f) => b in freq && f == freq[b]
    case Internal(f, l, r) => f == l.freq + r.freq && WellFormed(l, freq) && WellFormed(r, freq)
  }

  predicate AllWellFormed(nodes: seq<Node>, freq: map<Byte, nat>) {
    forall i :: 0 <= i < |nodes| ==> WellFormed(nodes[i], freq)
  }

  /** The leaf bytes of two lists together are those of the first, then
      those of the second. */
  lemma {:induction false} ForestBytesAppend(a: seq<Node>, b: seq<Node>)
    ensures ForestBytes(a + b) == ForestBytes(a) + ForestBytes(b)
  {
    if a == [] {
      assert a + b == b;
    } else {
      assert (a + b)[1..] == a[1..] + b;
      ForestBytesAppend(a[1..], b);
    }
  }

  /** The total frequency of two lists together is the sum of their totals. */
  lemma {:induction false} TotalFreqAppend(a: seq<Node>, b: seq<Node>)
    ensures TotalFreq(a + b) == TotalFreq(a) + TotalFreq(b)
  {
    if a == [] {
      assert a + b == b;
    } else {
      assert (a + b)[1..] == a[1..] + b;
      TotalFreqAppend(a[1..], b);
    }
  }

  // ---------------------------------------------------------------------------
  // The initial node list: `Object.entries(freqMap)` enumerates integer keys
  // in ascending order, so the leaves start out sorted by byte value.

  /** The leaves for the bytes `b..255` of `freq`, in ascending byte order:
      each is a leaf for a byte of the table carrying that byte's count. */
  function LeavesFrom(freq: map<Byte, nat>, b: nat): (r: seq<Node>)
    requires b <= 256
    ensures forall i :: 0 <= i < |r| ==>
      r[i].Leaf? && b <= r[i].byte && r[i].byte in freq && r[i].freq == freq[r[i].byte]
    decreases 256 - b
  {
    if b == 256 then []
    else
      var rest := LeavesFrom(freq, b + 1);
      if b in freq then
        var r := [Leaf(b, freq[b])] + rest;
        assert r[1..] == rest;
        r
      else rest
  }

  /** A list of leaves in strictly ascending byte order. */
  predicate AscendingLeaves(s: seq<Node>) {
    forall i, j :: 0 <= i < j < |s| ==> s[i].Leaf? && s[j].Leaf? && s[i].byte < s[j].byte
  }

  /** The leaves come in strictly ascending byte order. */
  lemma {:induction false} LeavesAscending(freq: map<Byte, nat>, b: nat)
    requires b <= 256
    ensures AscendingLeaves(LeavesFrom(freq, b))
    decreases 256 - b
  {
    if b < 256 {
      LeavesAscending(freq, b + 1);
      var rest := LeavesFrom(freq, b + 1);
      if b in freq {
        var r := [Leaf(b, freq[b])] + rest;
        assert LeavesFrom(freq, b) == r;
        forall i, j | 0 <= i < j < |r| ensures r[i].Leaf? && r[j].Leaf? && r[i].byte < r[j].byte {
          assert r[j] == rest[j - 1];
          assert b + 1 <= rest[j - 1].byte;
          if i > 0 {
            assert r[i] == rest[i - 1];
          }
        }
      }
    }
  }

  /** Every byte of the table from `b` on has exactly one leaf, and no other
      byte has one. */
  lemma {:induction false} LeavesCoverTable(freq: map<Byte, nat>, b: nat)
    requires b <= 256
    ensures forall x: Byte :: multiset(ForestBytes(LeavesFrom(freq, b)))[x] == if x in freq && b <= x then 1 else 0
    decreases 256 - b
  {
    if b < 256 {
      LeavesCoverTable(freq, b + 1);
      var rest := LeavesFrom(freq, b + 1);
      if b in freq {
        var r := [Leaf(b, freq[b])] + rest;
        assert r[1..] == rest;
        assert ForestBytes(r) == [b] + ForestBytes(rest);
      }
    }
  }

  /** The leaf list `buildTree` starts from, one leaf per entry of the
      frequency table. */
  function InitialNodes(freq: map<Byte, nat>): seq<Node> {
    LeavesFrom(freq, 0)
  }

  // ---------------------------------------------------------------------------
  // Sorting the node list by ascending frequency. JavaScript's array sort is
  // stable, which fixes how ties between equal frequencies are broken.

  predicate SortedByFreq(s: seq<Node>) {
    forall i, j :: 0 <= i < j < |s| ==> s[i].freq <= s[j].freq
  }

  /** The nodes of `s` whose frequency is `f`, in their order in `s`. */
  function WithFreq(s: seq<Node>, f: nat): seq<Node> {
    if s == [] then [] else (if s[0].freq == f then [s[0]] else []) + WithFreq(s[1..], f)
  }

  /** Inserts `x` in front of the first node that is not lighter than it. */
  function Insert(x: Node, s: seq<Node>): (r: seq<Node>)
    requires SortedByFreq(s)
    ensures |r| == |s| + 1
    ensures forall n :: n in r ==> n == x || n in s
    ensures SortedByFreq(r)
  {
    if s == [] || x.freq <= s[0].freq then
      [x] + s
    else
      var t := Insert(x, s[1..]);
      var r := [s[0]] + t;
      assert SortedByFreq(r) by {
        forall j | 0 < j < |r| ensures s[0].freq <= r[j].freq {
          assert r[j] == t[j - 1];
          assert t[j - 1] in t;
          if t[j - 1] != x {
            var k :| 0 <= k < |s[1..]| && s[1..][k] == t[j - 1];
            assert s[k + 1] == t[j - 1];
          }
        }
        forall i, j | 0 < i < j < |r| ensures r[i].freq <= r[j].freq {
          assert r[i] == t[i - 1] && r[j] == t[j - 1];
        }
      }
      assert forall n :: n in r ==> n == x || n in s by {
        forall n | n in r ensures n == x || n in s {
          if n != s[0] {
            assert n in t;
            if n != x {
              var k :| 0 <= k < |s[1..]| && s[1..][k] == n;
              assert s[k + 1] == n;
            }
          }
        }
      }
      r
  }

  /** Insertion adds exactly `x` to the nodes. */
  lemma {:induction false} InsertPermutes(x: Node, s: seq<Node>)
    requires SortedByFreq(s)
    ensures multiset(Insert(x, s)) == multiset(s) + multiset{x}
  {
    if s != [] && x.freq > s[0].freq {
      InsertPermutes(x, s[1..]);
      assert s == [s[0]] + s[1..];
    }
  }

  /** Insertion puts `x` after the lighter nodes and before every node of the
      same frequency. */
  lemma {:induction false} InsertStable(x: Node, s: seq<Node>, f: nat)
    requires SortedByFreq(s)
    ensures WithFreq(Insert(x, s), f) == (if x.freq == f then [x] else []) + WithFreq(s, f)
  {
    var r := Insert(x, s);
    var mid := if x.freq == f then [x] else [];
    if s == [] || x.freq <= s[0].freq {
      assert r[1..] == s;
    } else {
      var t := Insert(x, s[1..]);
      InsertStable(x, s[1..], f);
      assert r[1..] == t;
      var head := if s[0].freq == f then [s[0]] else [];
      assert WithFreq(r, f) == head + WithFreq(t, f);
      assert head == [] || mid == [];
      assert WithFreq(s, f) == head + WithFreq(s[1..], f);
    }
  }

  /** Insertion adds the frequency of `x` to the total. */
  lemma {:induction false} InsertFreq(x: Node, s: seq<Node>)
    requires SortedByFreq(s)
    ensures TotalFreq(Insert(x, s)) == x.freq + TotalFreq(s)
  {
    if s != [] && x.freq > s[0].freq {
      InsertFreq(x, s[1..]);
      assert Insert(x, s)[1..] == Insert(x, s[1..]);
    }
  }

  /** Insertion adds the leaves of `x` to the leaves of the list. */
  lemma {:induction false} InsertLeaves(x: Node, s: seq<Node>)
    requires SortedByFreq(s)
    ensures multiset(ForestBytes(Insert(x, s))) == multiset(LeafBytes(x)) + multiset(ForestBytes(s))
  {
    var r := Insert(x, s);
    if s == [] || x.freq <= s[0].freq {
      assert r[1..] == s;
      assert ForestBytes(r) == LeafBytes(x) + ForestBytes(s);
    } else {
      var t := Insert(x, s[1..]);
      InsertLeaves(x, s[1..]);
      assert r[1..] == t;
      assert ForestBytes(r) == LeafBytes(s[0]) + ForestBytes(t);
      assert ForestBytes(s) == LeafBytes(s[0]) + ForestBytes(s[1..]);
    }
  }

  /** The sort by ascending frequency. */
  function SortByFreq(s: seq<Node>): (r: seq<Node>)
    ensures SortedByFreq(r) && |r| == |s|
  {
    if s == [] then []
    else
      assert s == [s[0]] + s[1..];
      Insert(s[0], SortByFreq(s[1..]))
  }

  /** The sort returns a permutation of its input. */
  lemma {:induction false} SortPermutes(s: seq<Node>)
    ensures multiset(SortByFreq(s)) == multiset(s)
  {
    if s != [] {
      var sortedTail := SortByFreq(s[1..]);
      SortPermutes(s[1..]);
      InsertPermutes(s[0], sortedTail);
      assert SortByFreq(s) == Insert(s[0], sortedTail);
      assert s == [s[0]] + s[1..];
    }
  }

  /** The sort is stable: among the nodes of any one frequency the input order
      is kept. */
  lemma {:induction false} SortStable(s: seq<Node>, f: nat)
    ensures WithFreq(SortByFreq(s), f) == WithFreq(s, f)
  {
    if s != [] {
      SortStable(s[1..], f);
      InsertStable(s[0], SortByFreq(s[1..]), f);
    }
  }

  /** Sorting keeps the total frequency and the leaves of the node list. */
  lemma {:induction false} SortTotals(s: seq<Node>)
    ensures TotalFreq(SortByFreq(s)) == TotalFreq(s)
    ensures multiset(ForestBytes(SortByFreq(s))) == multiset(ForestBytes(s))
  {
    if s != [] {
      SortTotals(s[1..]);
      InsertFreq(s[0], SortByFreq(s[1..]));
      InsertLeaves(s[0], SortByFreq(s[1..]));
    }
  }

  // ---------------------------------------------------------------------------
  // The merge loop.

  /** One pass of the loop body after the sort: the two front nodes are
      shifted off, merged, and the merged node is pushed at the back. */
  function MergeFront(sorted: seq<Node>): (r: seq<Node>)
    requires |sorted| >= 2
    ensures |r| == |sorted| - 1
  {
    sorted[2..] + [Internal(sorted[0].freq + sorted[1].freq, sorted[0], sorted[1])]
  }

  /** A merge keeps the total frequency of the list. */
  lemma MergeFreq(sorted: seq<Node>)
    requires |sorted| >= 2
    ensures TotalFreq(MergeFront(sorted)) == TotalFreq(sorted)
  {
    var rest := sorted[2..];
    var merged := Internal(sorted[0].freq + sorted[1].freq, sorted[0], sorted[1]);
    TotalFreqAppend(rest, [merged]);
    assert sorted[1..][1..] == rest;
    assert TotalFreq(sorted[1..]) == sorted[1].freq + TotalFreq(rest);
    assert TotalFreq([merged]) == merged.freq;
  }

  /** A merge keeps the leaves of the list. */
  lemma MergeLeaves(sorted: seq<Node>)
    requires |sorted| >= 2
    ensures multiset(ForestBytes(MergeFront(sorted))) == multiset(ForestBytes(sorted))
  {
    var rest := sorted[2..];
    var merged := Internal(sorted[0].freq + sorted[1].freq, sorted[0], sorted[1]);
    ForestBytesAppend(rest, [merged]);
    assert sorted[1..][1..] == rest;
    assert [merged][1..] == [];
    assert ForestBytes([merged]) == LeafBytes(sorted[0]) + LeafBytes(sorted[1]);
    assert ForestBytes(sorted) == LeafBytes(sorted[0]) + (LeafBytes(sorted[1]) + ForestBytes(rest));
  }

  /** A merge keeps every count consistent with the table. */
  lemma MergeWellFormed(sorted: seq<Node>, freq: map<Byte, nat>)
    requires |sorted| >= 2 && AllWellFormed(sorted, freq)
    ensures AllWellFormed(MergeFront(sorted), freq)
  {
  }

  /** Two `shift`s and a `push` on the sorted list are one `MergeFront`. */
  lemma ShiftTwicePush(sorted: seq<Node>)
    requires |sorted| >= 2
    ensures sorted[1..][1..] + [Internal(sorted[0].freq + sorted[1..][0].freq, sorted[0], sorted[1..][0])]
         == MergeFront(sorted)
  {
    assert sorted[1..][1..] == sorted[2..];
  }

  /** The tree `buildTree` returns for a node list: sort, merge the front two,
      and repeat until one node is left. */
  function Huffman(nodes: seq<Node>): Node
    requires |nodes| >= 1
    decreases |nodes|
  {
    if |nodes| == 1 then nodes[0] else Huffman(MergeFront(SortByFreq(nodes)))
  }

  /** The tree `buildTree` returns for a frequency table. */
  function HuffmanTreeOf(freq: map<Byte, nat>): Node
    requires |freq| >= 1
  {
    KeyExists(freq);
    Huffman(InitialNodes(freq))
  }

  /** A non-empty table has a leaf to start from. */
  lemma KeyExists(freq: map<Byte, nat>)
    requires |freq| >= 1
    ensures |InitialNodes(freq)| >= 1
  {
    var x :| x in freq;
    LeavesCoverTable(freq, 0);
    assert multiset(ForestBytes(InitialNodes(freq)))[x] == 1;
  }

  /** The merges keep the total frequency, the multiset of leaf bytes and the
      consistency of every frequency with the table. */
  lemma {:induction false} HuffmanInvariants(nodes: seq<Node>, freq: map<Byte, nat>)
    requires |nodes| >= 1
    ensures Huffman(nodes).freq == TotalFreq(nodes)
    ensures multiset(LeafBytes(Huffman(nodes))) == multiset(ForestBytes(nodes))
    ensures AllWellFormed(nodes, freq) ==> WellFormed(Huffman(nodes), freq)
    decreases |nodes|
  {
    if |nodes| == 1 {
      assert nodes[1..] == [];
    } else {
      var next := MergeFront(SortByFreq(nodes));
      HuffmanInvariants(next, freq);
      SortTotals(nodes);
      MergeFreq(SortByFreq(nodes));
      MergeLeaves(SortByFreq(nodes));
      if AllWellFormed(nodes, freq) {
        var sorted := SortByFreq(nodes);
        SortPermutes(nodes);
        forall i | 0 <= i < |sorted| ensures WellFormed(sorted[i], freq) {
          assert sorted[i] in multiset(nodes);
        }
        MergeWellFormed(sorted, freq);
      }
    }
  }

  /** The tree built from a frequency table: its root carries the sum of all
      frequencies, every byte of the table is exactly one leaf, no other byte
      is a leaf, and every count in it agrees with the table. */
  lemma HuffmanTreeShape(freq: map<Byte, nat>)
    requires |freq| >= 1
    ensures HuffmanTreeOf(freq).freq == TotalFreq(InitialNodes(freq))
    ensures forall x: Byte :: multiset(LeafBytes(HuffmanTreeOf(freq)))[x] == if x in freq then 1 else 0
    ensures WellFormed(HuffmanTreeOf(freq), freq)
  {
    KeyExists(freq);
    LeavesCoverTable(freq, 0);
    HuffmanInvariants(InitialNodes(freq), freq);
  }

  /** With at least two distinct bytes the root is an internal node, so every
      code is at least one bit long. */
  lemma HuffmanTreeInternal(freq: map<Byte, nat>)
    requires |freq| >= 2
    ensures HuffmanTreeOf(freq).Internal?
  {
    HuffmanTreeShape(freq);
    var root := HuffmanTreeOf(freq);
    var x :| x in freq;
    assert |freq.Keys - {x}| >= 1;
    var y :| y in freq.Keys - {x};
    assert multiset(LeafBytes(root))[x] == 1 && multiset(LeafBytes(root))[y] == 1;
  }

  /** `buildTree`: the while loop over the mutable node list, which shrinks by
      exactly one node per pass. */
  method BuildTree(freq: map<Byte, nat>) returns (root: Node)
    requires |freq| >= 1
    ensures root == HuffmanTreeOf(freq)
  {
    KeyExists(freq);
    var nodes := InitialNodes(freq);
    ghost var merges := 0;
    while |nodes| > 1
      invariant |nodes| >= 1
      invariant |nodes| + merges == |InitialNodes(freq)|
      invariant Huffman(nodes) == HuffmanTreeOf(freq)
      decreases |nodes|
    {
      ghost var before := nodes;
      nodes := SortByFreq(nodes);
      ghost var sorted := nodes;
      var left := nodes[0];
      nodes := nodes[1..];
      var right := nodes[0];
      nodes := nodes[1..];
      nodes := nodes + [Internal(left.freq + right.freq, left, right)];
      merges := merges + 1;
      ShiftTwicePush(sorted);
    }
    root := nodes[0];
  }
}
