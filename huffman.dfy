/** `huffman_coding`: build the tree by repeatedly merging the two lightest
    nodes of a list kept sorted by weight. */
module Huffman {
  import opened Wrappers
  import opened Bits
  import opened Frequency
  import opened Tree
  import opened TreeCodec
  import opened Codes

  predicate SortedBy<T>(s: seq<T>, key: T -> nat)
  {
    forall i, j :: 0 <= i < j < |s| ==> key(s[i]) <= key(s[j])
  }

  /** The index the reinsertion loop stops at: it advances while the new
      weight is strictly greater, so the new element lands before every
      element of equal weight. */
  function InsertPos<T>(s: seq<T>, key: T -> nat, w: nat): (p: nat)
    ensures p <= |s|
    ensures forall j :: 0 <= j < p ==> key(s[j]) < w
    ensures p == |s| || w <= key(s[p])
  {
    if s == [] || !(w > key(s[0])) then 0 else 1 + InsertPos(s[1..], key, w)
  }

  /** The first position not preceded by a lighter key is the only one `InsertPos` can return. */
  lemma {:induction false} InsertPosUnique<T>(s: seq<T>, key: T -> nat, w: nat, p: nat)
    requires p <= |s|
    requires forall j :: 0 <= j < p ==> key(s[j]) < w
    requires p == |s| || w <= key(s[p])
    ensures p == InsertPos(s, key, w)
  {
    if s != [] && w > key(s[0]) {
      assert p > 0;
      assert forall j :: 0 <= j < p - 1 ==> key(s[1..][j]) < w by {
        forall j | 0 <= j < p - 1 ensures key(s[1..][j]) < w {
          assert s[1..][j] == s[j + 1];
        }
      }
      if p - 1 < |s[1..]| {
        assert s[1..][p - 1] == s[p];
      }
      InsertPosUnique(s[1..], key, w, p - 1);
    }
  }

  /** `s[p:p] = [x]` */
  function InsertAt<T>(s: seq<T>, p: nat, x: T): (r: seq<T>)
    requires p <= |s|
  {
    s[..p] + [x] + s[p..]
  }

  /** Inserting at `InsertPos` keeps a sorted list sorted. */
  lemma InsertKeepsSorted<T>(s: seq<T>, key: T -> nat, x: T)
    requires SortedBy(s, key)
    ensures SortedBy(InsertAt(s, InsertPos(s, key, key(x)), x), key)
  {
    var p := InsertPos(s, key, key(x));
    var r := InsertAt(s, p, x);
    forall i, j | 0 <= i < j < |r| ensures key(r[i]) <= key(r[j]) {
      if j < p || i > p {
      } else if i == p {
        assert r[j] == s[j - 1];
      } else if j == p {
        assert r[i] == s[i];
      } else {
        assert r[i] == s[i] && r[j] == s[j - 1];
      }
    }
  }

  function Count(e: Entry): nat { e.1 }

  lemma KeysInsertAt(s: FrequencyTable, p: nat, x: Entry)
    requires p <= |s|
    ensures Keys(InsertAt(s, p, x)) == Keys(s)[..p] + [x.0] + Keys(s)[p..]
  {
  }

  lemma {:induction false} SumCountsAppend(a: FrequencyTable, b: FrequencyTable)
    ensures SumCounts(a + b) == SumCounts(a) + SumCounts(b)
    decreases |b|
  {
    if b == [] {
      assert a + b == a;
    } else {
      assert (a + b)[..|a + b| - 1] == a + b[..|b| - 1];
      SumCountsAppend(a, b[..|b| - 1]);
    }
  }

  lemma SumCountsSingle(x: Entry)
    ensures SumCounts([x]) == x.1
  {
    var one: FrequencyTable := [x];
    assert one[..0] == [];
  }

  /** Inserting an item anywhere adds it to the items, its key to the keys and its count to the total. */
  lemma {:induction false} InsertEntry(s: FrequencyTable, p: nat, x: Entry)
    requires p <= |s|
    ensures multiset(InsertAt(s, p, x)) == multiset(s) + multiset{x}
    ensures multiset(Keys(InsertAt(s, p, x))) == multiset(Keys(s)) + multiset{x.0}
    ensures SumCounts(InsertAt(s, p, x)) == SumCounts(s) + x.1
  {
    assert InsertAt(s, p, x) == (s[..p] + [x]) + s[p..];
    assert s == s[..p] + s[p..];
    KeysInsertAt(s, p, x);
    assert Keys(s) == Keys(s)[..p] + Keys(s)[p..];
    SumCountsAppend(s[..p] + [x], s[p..]);
    SumCountsAppend(s[..p], [x]);
    SumCountsAppend(s[..p], s[p..]);
    SumCountsSingle(x);
  }

  /** The insertion step of `SortByCount`: placing the head item into the sorted rest. */
  lemma {:induction false} SortStep(f: FrequencyTable, s: FrequencyTable)
    requires f != [] && SortedBy(s, Count)
    requires multiset(s) == multiset(f[1..]) && multiset(Keys(s)) == multiset(Keys(f[1..]))
    requires SumCounts(s) == SumCounts(f[1..])
    ensures var r := InsertAt(s, InsertPos(s, Count, f[0].1), f[0]);
      SortedBy(r, Count) && multiset(r) == multiset(f) &&
      multiset(Keys(r)) == multiset(Keys(f)) && SumCounts(r) == SumCounts(f)
  {
    HeadSplit(f);
    InsertKeepsSorted(s, Count, f[0]);
    InsertEntry(s, InsertPos(s, Count, f[0].1), f[0]);
  }

  /** A non-empty table is its first item followed by the rest. */
  lemma HeadSplit(f: FrequencyTable)
    requires f != []
    ensures multiset(f) == multiset(f[1..]) + multiset{f[0]}
    ensures multiset(Keys(f)) == multiset(Keys(f[1..])) + multiset{f[0].0}
    ensures SumCounts(f) == SumCounts(f[1..]) + f[0].1
  {
    assert f == [f[0]] + f[1..];
    assert Keys(f) == [f[0].0] + Keys(f[1..]);
    SumCountsSingle(f[0]);
    SumCountsAppend([f[0]], f[1..]);
  }

  /** `sorted(freq_map.items(), key=lambda x: x[1])`. Python's sort is stable;
      this one inserts each item before every later item of equal count, so an
      item still precedes the later items of equal count. */
  function SortByCount(f: FrequencyTable): (r: FrequencyTable)
    ensures SortedBy(r, Count)
    ensures |r| == |f|
    ensures multiset(r) == multiset(f)
    ensures multiset(Keys(r)) == multiset(Keys(f))
    ensures SumCounts(r) == SumCounts(f)
  {
    if f == [] then []
    else
      var s := SortByCount(f[1..]);
      SortStep(f, s);
      InsertAt(s, InsertPos(s, Count, f[0].1), f[0])
  }

  /** The leaf-creating loop: one leaf per item, weighted by its count. */
  function MakeLeaves(items: FrequencyTable): seq<Node>
  {
    seq(|items|, i requires 0 <= i < |items| => Leaf(Some(items[i].1), items[i].0))
  }

  predicate AllWellWeighted(s: seq<Node>)
  {
    forall i :: 0 <= i < |s| ==> WellWeighted(s[i])
  }

  /** All the leaf symbols of a list of trees. */
  function ForestLeaves(s: seq<Node>): multiset<Byte>
  {
    if s == [] then multiset{} else ForestLeaves(s[..|s| - 1]) + multiset(LeafSyms(s[|s| - 1]))
  }

  /** The total weight of a list of trees. */
  function ForestWeight(s: seq<Node>): nat
  {
    if s == [] then 0 else ForestWeight(s[..|s| - 1]) + Weight(s[|s| - 1])
  }

  lemma {:induction false} ForestAppend(a: seq<Node>, b: seq<Node>)
    ensures ForestLeaves(a + b) == ForestLeaves(a) + ForestLeaves(b)
    ensures ForestWeight(a + b) == ForestWeight(a) + ForestWeight(b)
    decreases |b|
  {
    if b == [] {
      assert a + b == a;
    } else {
      assert (a + b)[..|a + b| - 1] == a + b[..|b| - 1];
      ForestAppend(a, b[..|b| - 1]);
    }
  }

  lemma {:induction false} MakeLeavesForest(items: FrequencyTable)
    ensures ForestLeaves(MakeLeaves(items)) == multiset(Keys(items))
    ensures ForestWeight(MakeLeaves(items)) == SumCounts(items)
    decreases |items|
  {
    if items != [] {
      var init := items[..|items| - 1];
      assert MakeLeaves(items)[..|items| - 1] == MakeLeaves(init);
      assert Keys(items) == Keys(init) + [items[|items| - 1].0];
      MakeLeavesForest(init);
    }
  }

  /** One pass of the `while len(nodes) > 1` loop: take the first two nodes,
      join them under a node weighing their sum, and reinsert it. */
  function Merge(nodes: seq<Node>): (r: seq<Node>)
    requires |nodes| >= 2
    ensures |r| == |nodes| - 1
  {
    var node := Internal(Some(Weight(nodes[0]) + Weight(nodes[1])), nodes[0], nodes[1]);
    var rest := nodes[2..];
    InsertAt(rest, InsertPos(rest, Weight, Weight(node)), node)
  }

  /** `r` is `nodes` with its first two nodes joined under a node weighing
      their sum, placed at `p`: after every lighter node and before every node
      of equal or greater weight. */
  predicate JoinedAt(nodes: seq<Node>, r: seq<Node>, p: nat)
    requires |nodes| >= 2
  {
    |r| == |nodes| - 1 && p < |r| &&
    r[p] == Internal(Some(Weight(nodes[0]) + Weight(nodes[1])), nodes[0], nodes[1]) &&
    r[..p] == nodes[2..p + 2] && r[p + 1..] == nodes[p + 2..] &&
    (forall j :: 0 <= j < p ==> Weight(r[j]) < Weight(r[p])) &&
    (p + 1 < |r| ==> Weight(r[p]) <= Weight(r[p + 1]))
  }

  /** A merge shortens the list by one, places the joined node before every
      node of equal weight, keeps the list sorted, and keeps the total weight
      and the leaf symbols. */
  lemma {:induction false} MergeStep(nodes: seq<Node>)
    requires |nodes| >= 2 && SortedBy(nodes, Weight) && AllWellWeighted(nodes)
    ensures exists p :: JoinedAt(nodes, Merge(nodes), p)
    ensures SortedBy(Merge(nodes), Weight)
    ensures AllWellWeighted(Merge(nodes))
    ensures ForestWeight(Merge(nodes)) == ForestWeight(nodes)
    ensures ForestLeaves(Merge(nodes)) == ForestLeaves(nodes)
  {
    var node := Internal(Some(Weight(nodes[0]) + Weight(nodes[1])), nodes[0], nodes[1]);
    var rest := nodes[2..];
    var p := InsertPos(rest, Weight, Weight(node));
    assert Merge(nodes) == InsertAt(rest, p, node);
    MergeJoined(nodes, p);
    MergeSorted(nodes);
    MergeWellWeighted(nodes, p);
    InsertNode(rest, p, node);
    FirstTwo(nodes);
  }

  /** The loop body's reinsertion is one `Merge`. */
  lemma MergeAt(nodes: seq<Node>, node: Node, i: nat)
    requires |nodes| >= 2
    requires node == Internal(Some(Weight(nodes[0]) + Weight(nodes[1])), nodes[0], nodes[1])
    requires i == InsertPos(nodes[2..], Weight, Weight(node))
    ensures nodes[2..][..i] + [node] + nodes[2..][i..] == Merge(nodes)
  {
  }

  lemma MergeJoined(nodes: seq<Node>, p: nat)
    requires |nodes| >= 2
    requires p == InsertPos(nodes[2..], Weight, Weight(nodes[0]) + Weight(nodes[1]))
    ensures JoinedAt(nodes, Merge(nodes), p)
  {
    var node := Internal(Some(Weight(nodes[0]) + Weight(nodes[1])), nodes[0], nodes[1]);
    var r := Merge(nodes);
    assert r == InsertAt(nodes[2..], p, node);
    assert r[p] == node && r[..p] == nodes[2..p + 2] && r[p + 1..] == nodes[p + 2..];
  }

  lemma MergeSorted(nodes: seq<Node>)
    requires |nodes| >= 2 && SortedBy(nodes, Weight)
    ensures SortedBy(Merge(nodes), Weight)
  {
    var node := Internal(Some(Weight(nodes[0]) + Weight(nodes[1])), nodes[0], nodes[1]);
    assert SortedBy(nodes[2..], Weight);
    InsertKeepsSorted(nodes[2..], Weight, node);
  }

  lemma MergeWellWeighted(nodes: seq<Node>, p: nat)
    requires |nodes| >= 2 && AllWellWeighted(nodes)
    requires p == InsertPos(nodes[2..], Weight, Weight(nodes[0]) + Weight(nodes[1]))
    ensures AllWellWeighted(Merge(nodes))
  {
    var node := Internal(Some(Weight(nodes[0]) + Weight(nodes[1])), nodes[0], nodes[1]);
    var r := Merge(nodes);
    assert r == InsertAt(nodes[2..], p, node);
    forall i | 0 <= i < |r| ensures WellWeighted(r[i]) {
      if i < p {
        assert r[i] == nodes[i + 2];
      } else if i > p {
        assert r[i] == nodes[i + 1];
      } else {
        assert r[i] == node;
      }
    }
  }

  /** Inserting a tree adds its leaves and its weight to those of the list. */
  lemma {:induction false} InsertNode(s: seq<Node>, p: nat, x: Node)
    requires p <= |s|
    ensures ForestLeaves(InsertAt(s, p, x)) == ForestLeaves(s) + multiset(LeafSyms(x))
    ensures ForestWeight(InsertAt(s, p, x)) == ForestWeight(s) + Weight(x)
  {
    assert InsertAt(s, p, x) == (s[..p] + [x]) + s[p..];
    assert s[..p] + s[p..] == s;
    ForestSingle(x);
    ForestAppend(s[..p] + [x], s[p..]);
    ForestAppend(s[..p], [x]);
    ForestAppend(s[..p], s[p..]);
  }

  lemma ForestSingle(x: Node)
    ensures ForestLeaves([x]) == multiset(LeafSyms(x))
    ensures ForestWeight([x]) == Weight(x)
  {
    assert [x][..0] == [];
  }

  /** The first two trees of a list, joined, carry the same leaves and weight. */
  lemma {:induction false} FirstTwo(nodes: seq<Node>)
    requires |nodes| >= 2
    ensures ForestLeaves(nodes) == multiset(LeafSyms(nodes[0])) + multiset(LeafSyms(nodes[1])) + ForestLeaves(nodes[2..])
    ensures ForestWeight(nodes) == Weight(nodes[0]) + Weight(nodes[1]) + ForestWeight(nodes[2..])
  {
    var two := [nodes[0], nodes[1]];
    var rest := nodes[2..];
    assert nodes == two + rest;
    assert two[..|two| - 1] == [nodes[0]];
    ForestSingle(nodes[0]);
    ForestAppend(two, rest);
  }

  /** Merge until at most one node is left. */
  function Reduce(nodes: seq<Node>): (r: seq<Node>)
    ensures |nodes| >= 1 ==> |r| == 1
    ensures |nodes| == 0 ==> r == []
    decreases |nodes|
  {
    if |nodes| <= 1 then nodes else Reduce(Merge(nodes))
  }

  /** The single node left is a well-weighted tree carrying the whole weight and every leaf. */
  lemma {:induction false} ReduceTree(nodes: seq<Node>)
    requires |nodes| >= 1 && SortedBy(nodes, Weight) && AllWellWeighted(nodes)
    ensures WellWeighted(Reduce(nodes)[0])
    ensures Weight(Reduce(nodes)[0]) == ForestWeight(nodes)
    ensures multiset(LeafSyms(Reduce(nodes)[0])) == ForestLeaves(nodes)
    decreases |nodes|
  {
    if |nodes| == 1 {
      assert nodes[..0] == [];
    } else {
      MergeStep(nodes);
      ReduceTree(Merge(nodes));
    }
  }

  /** The root `huffman_coding` builds; `nodes[0]` fails on an empty table. */
  function HuffmanTree(freq: FrequencyTable): (r: Result<Node>)
    ensures r.Err? <==> freq == []
    ensures r.Err? ==> r.error == EmptyInput
  {
    if freq == [] then Err(EmptyInput) else Ok(Reduce(MakeLeaves(SortByCount(freq)))[0])
  }

  /** The root of a non-empty table weighs the sum of all counts, its leaves
      are exactly the table's keys, and each node weighs what its children do. */
  lemma HuffmanTreeCorrect(freq: FrequencyTable)
    requires freq != []
    ensures HuffmanTree(freq).Ok?
    ensures WellWeighted(HuffmanTree(freq).value)
    ensures HuffmanTree(freq).value.value == Some(SumCounts(freq))
    ensures multiset(LeafSyms(HuffmanTree(freq).value)) == multiset(Keys(freq))
  {
    var sorted := SortByCount(freq);
    var leaves := MakeLeaves(sorted);
    LeavesSorted(sorted);
    MakeLeavesForest(sorted);
    ReduceTree(leaves);
    var root := Reduce(leaves)[0];
    assert root.value == Some(Weight(root));
  }

  /** Leaves made from items sorted by count are sorted by weight and well weighted. */
  lemma LeavesSorted(items: FrequencyTable)
    requires SortedBy(items, Count)
    ensures SortedBy(MakeLeaves(items), Weight) && AllWellWeighted(MakeLeaves(items))
  {
    var leaves := MakeLeaves(items);
    forall i, j | 0 <= i < j < |leaves| ensures Weight(leaves[i]) <= Weight(leaves[j]) {
      assert Count(items[i]) <= Count(items[j]);
    }
  }

  /** The re-insertion scan of `huffman_coding`: the index of the first
      node of `nodes` that is not lighter than `node`. */
  method InsertionIndex(nodes: seq<Node>, node: Node) returns (i: nat)
    ensures i == InsertPos(nodes, Weight, Weight(node))
  {
    i := 0;
    while i < |nodes| && Weight(node) > Weight(nodes[i])
      invariant i <= |nodes|
      invariant forall j :: 0 <= j < i ==> Weight(nodes[j]) < Weight(node)
    {
      i := i + 1;
    }
    InsertPosUnique(nodes, Weight, Weight(node), i);
  }

  /** One pass of the merge loop: join the first two nodes under a node
      weighing their sum and reinsert it where the scan stops. */
  method MergeFirstTwo(nodes: seq<Node>) returns (r: seq<Node>)
    requires |nodes| >= 2
    ensures r == Merge(nodes)
  {
    var node1 := nodes[0];
    var node2 := nodes[1];
    var rest := nodes[2..];
    var sumNode := Weight(node1) + Weight(node2);
    var node := Internal(Some(sumNode), node1, node2);
    var i := InsertionIndex(rest, node);
    MergeAt(nodes, node, i);
    r := rest[..i] + [node] + rest[i..];
  }

  /** `huffman_coding` without the printing of the code table: the code
      table, the serialised tree and the root. */
  method HuffmanCoding(freqMap: FrequencyTable) returns (r: Result<(map<Byte, seq<Bit>>, seq<Bit>, Node)>)
    ensures freqMap == [] ==> r == Err(EmptyInput)
    ensures freqMap != [] ==>
              r.Ok? && r.value.2 == HuffmanTree(freqMap).value &&
              r.value.0 == AssignCode(r.value.2, []) && r.value.1 == EncodeTree(r.value.2, [])
  {
    var items := SortByCount(freqMap);
    var nodes: seq<Node> := [];
    var k := 0;
    while k < |items|
      invariant k <= |items| && |nodes| == k
      invariant forall j :: 0 <= j < k ==> nodes[j] == Leaf(Some(items[j].1), items[j].0)
    {
      nodes := nodes + [Leaf(Some(items[k].1), items[k].0)];
      k := k + 1;
    }
    assert nodes == MakeLeaves(items);
    ghost var leaves := nodes;
    while |nodes| > 1
      invariant Reduce(nodes) == Reduce(leaves)
      invariant |nodes| == 0 <==> |leaves| == 0
      decreases |nodes|
    {
      nodes := MergeFirstTwo(nodes);
    }
    if |nodes| == 0 {
      return Err(EmptyInput);
    }
    assert Reduce(nodes) == nodes;
    var root := nodes[0];
    assert root == HuffmanTree(freqMap).value;
    var compressedTree := EncodeTree(root, []);
    var huffCode := AssignCode(root, []);
    return Ok((huffCode, compressedTree, root));
  }
}
