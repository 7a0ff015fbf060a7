/** The `Node` class: a Huffman tree node. */
module Tree {
  import opened Wrappers
  import opened Bits

  /** `symbol` (the source's `char`) is set on leaves and `left`/`right` on internal nodes, which always
      have both children. `value` is the weight; nodes rebuilt by `decode_tree`
      carry none. */
  datatype Node =
    | Leaf(value: Option<nat>, symbol: Byte)
    | Internal(value: Option<nat>, left: Node, right: Node)
  {
    /** `Node.is_leaf`: neither child is set. */
    predicate IsLeaf() { Leaf? }
  }

  /** `get_value()` as the builder compares it; every node the builder makes has one. */
  function Weight(n: Node): nat
  {
    if n.value.Some? then n.value.value else 0
  }

  /** The symbols at the leaves, left to right. */
  function LeafSyms(n: Node): (r: seq<Byte>)
    ensures |r| >= 1 && (n.Internal? ==> |r| >= 2)
  {
    match n
    case Leaf(_, c) => [c]
    case Internal(_, l, r) => LeafSyms(l) + LeafSyms(r)
  }

  /** Every node has a weight and an internal node weighs what its children weigh together. */
  predicate WellWeighted(n: Node)
  {
    n.value.Some? &&
    match n
    case Leaf(_, _) => true
    case Internal(_, l, r) => WellWeighted(l) && WellWeighted(r) && Weight(n) == Weight(l) + Weight(r)
  }

  /** The same tree with every weight dropped, as `decode_tree` rebuilds it. */
  function Unweighted(n: Node): Node
  {
    match n
    case Leaf(_, c) => Leaf(None, c)
    case Internal(_, l, r) => Internal(None, Unweighted(l), Unweighted(r))
  }

  /** The node reached from `n` by going left on 0 and right on 1, if the path stays in the tree. */
  function Follow(n: Node, path: seq<Bit>): Option<Node>
    decreases |path|
  {
    if path == [] then Some(n)
    else
      match n
      case Leaf(_, _) => None
      case Internal(_, l, r) => Follow(if path[0] == 0 then l else r, path[1..])
  }
}
