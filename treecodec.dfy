/** `encode_tree` and `decode_tree`: the pre-order header. A leaf is written
    as `1` and its symbol in 8 bits, an internal node as `0` followed by its
    left and then its right subtree. */
module TreeCodec {
  import opened Wrappers
  import opened Bits
  import opened Tree

  function LeafCount(n: Node): nat
  {
    match n
    case Leaf(_, _) => 1
    case Internal(_, l, r) => LeafCount(l) + LeafCount(r)
  }

  function InternalCount(n: Node): nat
  {
    match n
    case Leaf(_, _) => 0
    case Internal(_, l, r) => 1 + InternalCount(l) + InternalCount(r)
  }

  /** The serialisation of a tree on its own: 9 bits per leaf, 1 bit per
      internal node. */
  function Serialised(n: Node): (r: seq<Bit>)
    ensures |r| == 9 * LeafCount(n) + InternalCount(n)
  {
    match n
    case Leaf(_, s) => [1] + Bits8(s)
    case Internal(_, l, r) => [0] + Serialised(l) + Serialised(r)
  }

  /** `encode_tree(node, code)`: the string `code` grown by each node in
      pre-order. */
  function EncodeTree(node: Node, code: seq<Bit>): (r: seq<Bit>)
    ensures |r| == |code| + 9 * LeafCount(node) + InternalCount(node)
    ensures r[..|code|] == code
  {
    if node.IsLeaf() then code + [1] + Bits8(node.symbol)
    else
      var inner := EncodeTree(node.left, code + [0]);
      var outer := EncodeTree(node.right, inner);
      assert outer[..|code|] == outer[..|inner|][..|code|] == inner[..|code + [0]|][..|code|];
      outer
  }

  /** Threading `code` through only prefixes it to the serialisation. */
  lemma {:induction false} EncodeTreeAppends(node: Node, code: seq<Bit>)
    ensures EncodeTree(node, code) == code + Serialised(node)
  {
    match node
    case Leaf(_, _) =>
    case Internal(_, l, r) =>
      var sl, sr := Serialised(l), Serialised(r);
      calc {
        EncodeTree(node, code);
        EncodeTree(r, EncodeTree(l, code + [0]));
        { EncodeTreeAppends(l, code + [0]); }
        EncodeTree(r, code + [0] + sl);
        { EncodeTreeAppends(r, code + [0] + sl); }
        code + [0] + sl + sr;
        code + ([0] + sl + sr);
      }
  }

  /** The header `huffman_coding` stores is the serialisation of the root. */
  lemma EncodeTreeSerialises(node: Node)
    ensures EncodeTree(node, []) == Serialised(node)
    ensures |EncodeTree(node, [])| == 9 * LeafCount(node) + InternalCount(node)
  {
    EncodeTreeAppends(node, []);
    assert [] + Serialised(node) == Serialised(node);
  }

  /** `decode_tree(data)` where the shared list `data` has already lost its
      first `pos` bits: the tree read from there and the position after it.
      Running out of bits is the `IndexError` of `data[0]`. */
  function DecodeTree(data: seq<Bit>, pos: nat): (r: Result<(Node, nat)>)
    requires pos <= |data|
    ensures r.Ok? ==> pos < r.value.1 <= |data|
    decreases |data| - pos
  {
    if pos == |data| then Err(TruncatedHeader)
    else if data[pos] == 1 then
      if |data| - (pos + 1) < 8 then Err(TruncatedHeader)
      else Ok((Leaf(None, ByteOf(data[pos + 1..pos + 9])), pos + 9))
    else
      match DecodeTree(data, pos + 1)
      case Err(e) => Err(e)
      case Ok((left, p1)) =>
        match DecodeTree(data, p1)
        case Err(e) => Err(e)
        case Ok((right, p2)) => Ok((Internal(None, left, right), p2))
  }

  lemma DecodeLeaf(t: Node, data: seq<Bit>, pos: nat)
    requires t.Leaf? && pos + 9 <= |data|
    requires data[pos..pos + 9] == Serialised(t)
    ensures DecodeTree(data, pos) == Ok((Leaf(None, t.symbol), pos + 9))
  {
    assert data[pos] == Serialised(t)[0];
    assert data[pos + 1..pos + 9] == Bits8(t.symbol);
    FromBitsToBits(t.symbol, 8);
  }

  /** The three parts of an internal node's serialisation found at `pos`. */
  lemma InternalSlices(data: seq<Bit>, pos: nat, e: seq<Bit>, el: seq<Bit>, er: seq<Bit>)
    requires e == [0] + el + er
    requires pos + |e| <= |data| && data[pos..pos + |e|] == e
    ensures data[pos] == 0
    ensures data[pos + 1..pos + 1 + |el|] == el
    ensures data[pos + 1 + |el|..pos + 1 + |el| + |er|] == er
  {
    forall k | 0 <= k < |e| ensures data[pos + k] == e[k] {
      assert data[pos..pos + |e|][k] == e[k];
    }
    assert data[pos] == e[0];
    assert data[pos + 1..pos + 1 + |el|] == el by {
      forall k | 0 <= k < |el| ensures data[pos + 1..pos + 1 + |el|][k] == el[k] {
        assert e[1 + k] == el[k];
      }
    }
    assert data[pos + 1 + |el|..pos + 1 + |el| + |er|] == er by {
      forall k | 0 <= k < |er| ensures data[pos + 1 + |el|..pos + 1 + |el| + |er|][k] == er[k] {
        assert e[1 + |el| + k] == er[k];
      }
    }
  }

  /** Reading back a serialisation found at any position gives the same shape
      and symbols, without weights, and stops right after its last bit. */
  lemma {:induction false} DecodeSerialised(t: Node, data: seq<Bit>, pos: nat)
    requires pos + |Serialised(t)| <= |data|
    requires data[pos..pos + |Serialised(t)|] == Serialised(t)
    ensures DecodeTree(data, pos) == Ok((Unweighted(t), pos + |Serialised(t)|))
    decreases t, 1
  {
    if t.Leaf? {
      DecodeLeaf(t, data, pos);
    } else {
      DecodeSerialisedInternal(t, data, pos);
    }
  }

  /** The internal-node case of `DecodeSerialised`. */
  lemma {:induction false} DecodeSerialisedInternal(t: Node, data: seq<Bit>, pos: nat)
    requires t.Internal?
    requires pos + |Serialised(t)| <= |data|
    requires data[pos..pos + |Serialised(t)|] == Serialised(t)
    ensures DecodeTree(data, pos) == Ok((Unweighted(t), pos + |Serialised(t)|))
    decreases t, 0
  {
    var el := Serialised(t.left);
    var er := Serialised(t.right);
    var p1 := pos + 1 + |el|;
    var p2 := p1 + |er|;
    assert Serialised(t) == [0] + el + er;
    assert p2 == pos + |Serialised(t)|;
    InternalSlices(data, pos, Serialised(t), el, er);
    DecodeSerialised(t.left, data, pos + 1);
    DecodeSerialised(t.right, data, p1);
    var ul, ur := Unweighted(t.left), Unweighted(t.right);
    assert DecodeTree(data, pos + 1) == Ok((ul, p1));
    assert DecodeTree(data, p1) == Ok((ur, p2));
    DecodeInternal(data, pos, ul, p1, ur, p2);
    assert Unweighted(t) == Internal(None, ul, ur);
  }

  /** An internal node is read as `0`, then the left subtree, then the right one. */
  lemma DecodeInternal(data: seq<Bit>, pos: nat, l: Node, p1: nat, r: Node, p2: nat)
    requires pos < |data| && data[pos] == 0
    requires DecodeTree(data, pos + 1) == Ok((l, p1))
    requires p1 <= |data| && DecodeTree(data, p1) == Ok((r, p2))
    ensures DecodeTree(data, pos) == Ok((Internal(None, l, r), p2))
  {
  }

  /** The header round trip: `decode_tree` on `encode_tree(t) + rest` rebuilds
      `t` without weights and leaves exactly `rest`. */
  lemma TreeRoundTrip(t: Node, rest: seq<Bit>)
    ensures var e := EncodeTree(t, []);
      DecodeTree(e + rest, 0) == Ok((Unweighted(t), |e|)) && (e + rest)[|e|..] == rest
  {
    var e := EncodeTree(t, []);
    EncodeTreeSerialises(t);
    assert (e + rest)[0..|e|] == e;
    DecodeSerialised(t, e + rest, 0);
  }

  /** The parts of an internal node's serialisation cut short at the end of `data`. */
  lemma CutSlices(data: seq<Bit>, pos: nat, e: seq<Bit>, el: seq<Bit>, er: seq<Bit>)
    requires e == [0] + el + er
    requires pos < |data| && |data| - pos < |e| && data[pos..] == e[..|data| - pos]
    ensures data[pos] == 0
    ensures |data| - pos - 1 < |el| ==> data[pos + 1..] == el[..|data| - pos - 1]
    ensures |data| - pos - 1 >= |el| ==>
              data[pos + 1..pos + 1 + |el|] == el &&
              data[pos + 1 + |el|..] == er[..|data| - pos - 1 - |el|]
  {
    assert data[pos] == e[0];
    assert data[pos + 1..] == e[1..|data| - pos];
    if |data| - pos - 1 >= |el| {
      assert data[pos + 1..pos + 1 + |el|] == e[1..1 + |el|];
      assert data[pos + 1 + |el|..] == e[1 + |el|..|data| - pos];
    }
  }

  /** A serialisation cut short anywhere does not decode: `decode_tree` runs
      out of bits, which is an `IndexError` in the source. */
  lemma {:induction false} DecodeTruncated(t: Node, data: seq<Bit>, pos: nat)
    requires pos <= |data| && |data| - pos < |Serialised(t)|
    requires data[pos..] == Serialised(t)[..|data| - pos]
    ensures DecodeTree(data, pos) == Err(TruncatedHeader)
    decreases t, 2
  {
    if pos == |data| {
    } else if t.Leaf? {
      assert data[pos] == Serialised(t)[0] == 1;
    } else {
      TruncatedInternal(t, data, pos);
    }
  }

  /** An internal node cut short: either inside its left subtree, or after
      the left subtree and inside its right one. */
  lemma {:induction false} TruncatedInternal(t: Node, data: seq<Bit>, pos: nat)
    requires t.Internal? && pos < |data| && |data| - pos < |Serialised(t)|
    requires data[pos..] == Serialised(t)[..|data| - pos]
    ensures DecodeTree(data, pos) == Err(TruncatedHeader)
    decreases t, 1
  {
    var el := Serialised(t.left);
    if |data| - pos - 1 < |el| {
      CutSlices(data, pos, Serialised(t), el, Serialised(t.right));
      DecodeTruncated(t.left, data, pos + 1);
      DecodeLeftFails(data, pos);
    } else {
      TruncatedInRight(t, data, pos);
    }
  }

  /** The cut falls inside the right subtree: the left one is read whole and
      the right one runs out of bits. */
  lemma {:induction false} TruncatedInRight(t: Node, data: seq<Bit>, pos: nat)
    requires t.Internal? && pos < |data| && |data| - pos < |Serialised(t)|
    requires data[pos..] == Serialised(t)[..|data| - pos]
    requires |data| - pos - 1 >= |Serialised(t.left)|
    ensures DecodeTree(data, pos) == Err(TruncatedHeader)
    decreases t, 0
  {
    var el := Serialised(t.left);
    CutSlices(data, pos, Serialised(t), el, Serialised(t.right));
    var p1 := pos + 1 + |el|;
    DecodeSerialised(t.left, data, pos + 1);
    DecodeTruncated(t.right, data, p1);
    DecodeRightFails(data, pos, Unweighted(t.left), p1);
  }

  lemma DecodeLeftFails(data: seq<Bit>, pos: nat)
    requires pos < |data| && data[pos] == 0
    requires DecodeTree(data, pos + 1) == Err(TruncatedHeader)
    ensures DecodeTree(data, pos) == Err(TruncatedHeader)
  {
  }

  lemma DecodeRightFails(data: seq<Bit>, pos: nat, l: Node, p1: nat)
    requires pos < |data| && data[pos] == 0
    requires DecodeTree(data, pos + 1) == Ok((l, p1))
    requires p1 <= |data| && DecodeTree(data, p1) == Err(TruncatedHeader)
    ensures DecodeTree(data, pos) == Err(TruncatedHeader)
  {
  }

  /** Every proper prefix of a header is rejected. */
  lemma CutHeaderRejected(t: Node, k: nat)
    requires k < |EncodeTree(t, [])|
    ensures DecodeTree(EncodeTree(t, [])[..k], 0) == Err(TruncatedHeader)
  {
    EncodeTreeSerialises(t);
    var cut := Serialised(t)[..k];
    assert cut[0..] == cut;
    DecodeTruncated(t, cut, 0);
  }

  /** Conversely, whatever `decode_tree` accepts is exactly the serialisation
      of the tree it returns. */
  lemma {:induction false} EncodeDecodeTree(data: seq<Bit>, pos: nat)
    requires pos <= |data| && DecodeTree(data, pos).Ok?
    ensures Serialised(DecodeTree(data, pos).value.0) == data[pos..DecodeTree(data, pos).value.1]
    decreases |data| - pos
  {
    if data[pos] == 1 {
      ToBitsFromBits(data[pos + 1..pos + 9]);
      assert data[pos..pos + 9] == [1] + data[pos + 1..pos + 9];
    } else {
      var (l, p1) := DecodeTree(data, pos + 1).value;
      var (r, p2) := DecodeTree(data, p1).value;
      assert data[pos..p2] == [0] + data[pos + 1..p1] + data[p1..p2];
      EncodeDecodeTree(data, pos + 1);
      EncodeDecodeTree(data, p1);
    }
  }

  /** `decode_tree` over the shared list: `pos` is the list's common cursor,
      advanced by the 8-bit loop and by both recursive calls. */
  method DecodeTreeAt(data: seq<Bit>, pos: nat) returns (r: Result<(Node, nat)>)
    requires pos <= |data|
    ensures r == DecodeTree(data, pos)
    decreases |data| - pos
  {
    if pos == |data| {
      return Err(TruncatedHeader);
    }
    var c := data[pos];
    var cursor := pos + 1;
    if c == 1 {
      var byte: seq<Bit> := [];
      var k := 0;
      while k < 8
        invariant 0 <= k <= 8 && cursor == pos + 1 + k && cursor <= |data|
        invariant byte == data[pos + 1..cursor]
      {
        if cursor == |data| {
          return Err(TruncatedHeader);
        }
        byte := byte + [data[cursor]];
        cursor := cursor + 1;
        k := k + 1;
      }
      return Ok((Leaf(None, ByteOf(byte)), cursor));
    }
    var left := DecodeTreeAt(data, cursor);
    if left.Err? {
      return Err(left.error);
    }
    var right := DecodeTreeAt(data, left.value.1);
    if right.Err? {
      return Err(right.error);
    }
    return Ok((Internal(None, left.value.0, right.value.0), right.value.1));
  }
}
