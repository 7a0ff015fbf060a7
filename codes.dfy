/** `assign_code` and `decode`: the code table read off the tree, and the
    greedy decoding of a bit string against the reversed table. */
module Codes {
  import opened Wrappers
  import opened Bits
  import opened Tree

  predicate IsPrefix(p: seq<Bit>, q: seq<Bit>)
  {
    |p| <= |q| && q[..|p|] == p
  }

  /** `assign_code(node, code)`: each leaf symbol mapped to `code` followed by
      its path from `node` (left `0`, right `1`). A lone leaf gets `code`
      itself, so a one-leaf root gets the empty code. When a symbol labels
      several leaves, `dict.update` keeps the rightmost one. */
  function AssignCode(node: Node, code: seq<Bit>): (d: map<Byte, seq<Bit>>)
    ensures forall s :: s in d <==> s in LeafSyms(node)
    ensures forall s :: s in d ==> IsPrefix(code, d[s])
    ensures node.Internal? ==> forall s :: s in d ==> |d[s]| > |code|
  {
    if node.IsLeaf() then map[node.symbol := code]
    else
      var left := AssignCode(node.left, code + [0]);
      var right := AssignCode(node.right, code + [1]);
      PrefixesShorten(left, code, 0);
      PrefixesShorten(right, code, 1);
      left + right
  }

  /** Codes that begin with `code + [b]` begin with `code`. */
  lemma PrefixesShorten(d: map<Byte, seq<Bit>>, code: seq<Bit>, b: Bit)
    requires forall s :: s in d ==> IsPrefix(code + [b], d[s])
    ensures forall s :: s in d ==> IsPrefix(code, d[s]) && |d[s]| > |code|
  {
    forall s | s in d ensures IsPrefix(code, d[s]) {
      assert d[s][..|code|] == (code + [b])[..|code|];
    }
  }

  /** Following `path` from `node` ends at a leaf carrying `s`. */
  predicate LeadsTo(node: Node, path: seq<Bit>, s: Byte)
  {
    Follow(node, path).Some? && Follow(node, path).value.Leaf? && Follow(node, path).value.symbol == s
  }

  lemma PrefixStep(x: seq<Bit>, code: seq<Bit>, b: Bit)
    requires IsPrefix(code + [b], x)
    ensures |x| > |code| && x[|code|..][0] == b && x[|code|..][1..] == x[|code + [b]|..]
  {
    assert x[|code|] == x[..|code| + 1][|code|];
  }

  /** Every code is `code` followed by a path from the node to a leaf carrying its symbol. */
  lemma {:induction false} AssignCodePaths(node: Node, code: seq<Bit>, s: Byte)
    requires s in AssignCode(node, code)
    ensures LeadsTo(node, AssignCode(node, code)[s][|code|..], s)
  {
    match node
    case Leaf(_, _) =>
      assert AssignCode(node, code)[s][|code|..] == [];
    case Internal(_, l, r) =>
      var d := AssignCode(node, code);
      var path := d[s][|code|..];
      if s in AssignCode(r, code + [1]) {
        var sub := AssignCode(r, code + [1]);
        assert d[s] == sub[s];
        AssignCodePaths(r, code + [1], s);
        PrefixStep(sub[s], code, 1);
      } else {
        var sub := AssignCode(l, code + [0]);
        assert d[s] == sub[s];
        AssignCodePaths(l, code + [0], s);
        PrefixStep(sub[s], code, 0);
      }
  }

  /** No code in the table is a prefix of another symbol's code. */
  predicate CodesPrefixFree(d: map<Byte, seq<Bit>>)
  {
    forall a, b :: a in d && b in d && a != b ==> !IsPrefix(d[a], d[b])
  }

  /** `assign_code` yields prefix-free codes: two different symbols never get
      codes one of which begins the other. */
  lemma {:induction false} AssignCodePrefixFree(node: Node, code: seq<Bit>)
    ensures CodesPrefixFree(AssignCode(node, code))
  {
    match node
    case Leaf(_, _) =>
    case Internal(_, l, r) =>
      var left := AssignCode(l, code + [0]);
      var right := AssignCode(r, code + [1]);
      AssignCodePrefixFree(l, code + [0]);
      AssignCodePrefixFree(r, code + [1]);
      var d := left + right;
      forall a, b | a in d && b in d && a != b ensures !IsPrefix(d[a], d[b]) {
        if a in right && b in right {
          assert d[a] == right[a] && d[b] == right[b];
        } else if a !in right && b !in right {
          assert d[a] == left[a] && d[b] == left[b];
        } else if a in right {
          assert IsPrefix(code + [1], d[a]) && IsPrefix(code + [0], d[b]);
          assert d[a][|code|] == (code + [1])[|code|] && d[b][|code|] == (code + [0])[|code|];
        } else {
          assert IsPrefix(code + [0], d[a]) && IsPrefix(code + [1], d[b]);
          assert d[a][|code|] == (code + [0])[|code|] && d[b][|code|] == (code + [1])[|code|];
        }
      }
  }

  /** Weights play no part in code assignment. */
  lemma {:induction false} AssignCodeUnweighted(node: Node, code: seq<Bit>)
    ensures AssignCode(Unweighted(node), code) == AssignCode(node, code)
  {
    match node
    case Leaf(_, _) =>
    case Internal(_, l, r) =>
      AssignCodeUnweighted(l, code + [0]);
      AssignCodeUnweighted(r, code + [1]);
  }

  /** `{v: k for k, v in d.items()}` for a table whose codes are distinct. */
  function ReverseTable(d: map<Byte, seq<Bit>>): (t: map<seq<Bit>, Byte>)
    requires forall a, b :: a in d && b in d && d[a] == d[b] ==> a == b
    ensures forall s :: s in d ==> d[s] in t && t[d[s]] == s
    ensures forall c :: c in t ==> t[c] in d && d[t[c]] == c
  {
    map s | s in d :: d[s] := s
  }

  /** `decode(data, language_map)` with `code` already accumulated: extend the
      accumulated code by one bit and, when it is a key of the table, emit its
      symbol and start afresh. Bits left over at the end are dropped. */
  function DecodeFrom(data: seq<Bit>, code: seq<Bit>, table: map<seq<Bit>, Byte>): (r: seq<Byte>)
  {
    if data == [] then []
    else
      var c := code + [data[0]];
      if c in table then [table[c]] + DecodeFrom(data[1..], [], table)
      else DecodeFrom(data[1..], c, table)
  }

  /** Each decoded symbol uses up at least one bit, and every one is a value of the table. */
  lemma {:induction false} DecodeFromBounded(data: seq<Bit>, code: seq<Bit>, table: map<seq<Bit>, Byte>)
    ensures |DecodeFrom(data, code, table)| <= |data|
    ensures forall i :: 0 <= i < |DecodeFrom(data, code, table)| ==> DecodeFrom(data, code, table)[i] in table.Values
    decreases |data|
  {
    if data != [] {
      var c := code + [data[0]];
      if c in table {
        DecodeFromBounded(data[1..], [], table);
      } else {
        DecodeFromBounded(data[1..], c, table);
      }
    }
  }

  /** The decoding loop of `decode`. */
  method Decode(data: seq<Bit>, languageMap: map<seq<Bit>, Byte>) returns (output: seq<Byte>)
    ensures output == DecodeFrom(data, [], languageMap)
  {
    var code: seq<Bit> := [];
    output := [];
    var i := 0;
    while i < |data|
      invariant i <= |data|
      invariant output + DecodeFrom(data[i..], code, languageMap) == DecodeFrom(data, [], languageMap)
    {
      assert data[i..][1..] == data[i + 1..];
      code := code + [data[i]];
      if code in languageMap {
        output := output + [languageMap[code]];
        code := [];
      }
      i := i + 1;
    }
  }

  /** `''.join(language_map[c] for c in data)`: the codes of the symbols, in order. */
  function EncodeSymbols(data: seq<Byte>, languageMap: map<Byte, seq<Bit>>): (r: seq<Bit>)
    requires forall c :: c in data ==> c in languageMap
  {
    if data == [] then [] else languageMap[data[0]] + EncodeSymbols(data[1..], languageMap)
  }

  /** With no empty code among the symbols, the encoding has at least one bit per symbol. */
  lemma {:induction false} EncodeSymbolsLength(data: seq<Byte>, languageMap: map<Byte, seq<Bit>>)
    requires forall c :: c in data ==> c in languageMap && |languageMap[c]| >= 1
    ensures |EncodeSymbols(data, languageMap)| >= |data|
    decreases |data|
  {
    if data != [] {
      assert forall c :: c in data[1..] ==> c in data;
      EncodeSymbolsLength(data[1..], languageMap);
    }
  }

  lemma {:induction false} EncodeSymbolsAppend(a: seq<Byte>, b: seq<Byte>, languageMap: map<Byte, seq<Bit>>)
    requires forall c :: c in a + b ==> c in languageMap
    ensures EncodeSymbols(a + b, languageMap) == EncodeSymbols(a, languageMap) + EncodeSymbols(b, languageMap)
    decreases |a|
  {
    if a == [] {
      assert a + b == b;
    } else {
      assert (a + b)[1..] == a[1..] + b;
      EncodeSymbolsAppend(a[1..], b, languageMap);
    }
  }

  /** No key of the table is a prefix of another key. */
  predicate PrefixFree(table: map<seq<Bit>, Byte>)
  {
    forall p, q :: p in table && q in table && p != q ==> !IsPrefix(p, q)
  }

  /** Reading one whole code: the accumulated bits match no key before the
      last bit of the code, and then match it. */
  lemma {:induction false} DecodeOneCode(c: seq<Bit>, acc: seq<Bit>, tail: seq<Bit>, table: map<seq<Bit>, Byte>)
    requires |c| >= 1 && acc + c in table
    requires forall j :: 1 <= j < |c| ==> acc + c[..j] !in table
    ensures DecodeFrom(c + tail, acc, table) == [table[acc + c]] + DecodeFrom(tail, [], table)
    decreases |c|
  {
    var data := c + tail;
    assert data[0] == c[0] && data[1..] == c[1..] + tail;
    if |c| == 1 {
      assert acc + [c[0]] == acc + c;
    } else {
      assert acc + [c[0]] == acc + c[..1];
      var acc' := acc + [c[0]];
      forall j | 1 <= j < |c| - 1 ensures acc' + c[1..][..j] !in table {
        assert acc' + c[1..][..j] == acc + c[..j + 1];
      }
      assert acc' + c[1..] == acc + c;
      DecodeOneCode(c[1..], acc', tail, table);
    }
  }

  /** `decode` inverts the concatenation of codes from a prefix-free table
      whose codes are non-empty, and passes on whatever follows. */
  lemma {:induction false} DecodeEncodeSymbols(data: seq<Byte>, languageMap: map<Byte, seq<Bit>>,
                                              table: map<seq<Bit>, Byte>, tail: seq<Bit>)
    requires forall c :: c in data ==> c in languageMap && |languageMap[c]| >= 1
    requires forall c :: c in data ==> languageMap[c] in table && table[languageMap[c]] == c
    requires PrefixFree(table)
    ensures DecodeFrom(EncodeSymbols(data, languageMap) + tail, [], table) == data + DecodeFrom(tail, [], table)
    decreases |data|
  {
    if data == [] {
      assert EncodeSymbols(data, languageMap) + tail == tail;
    } else {
      var code := languageMap[data[0]];
      var rest := EncodeSymbols(data[1..], languageMap);
      assert EncodeSymbols(data, languageMap) + tail == code + (rest + tail);
      DecodeFirstCode(code, rest + tail, table);
      DecodeEncodeSymbols(data[1..], languageMap, table, tail);
      assert data == [data[0]] + data[1..];
    }
  }

  /** A whole code of a prefix-free table at the front is read as its symbol. */
  lemma DecodeFirstCode(code: seq<Bit>, tail: seq<Bit>, table: map<seq<Bit>, Byte>)
    requires |code| >= 1 && code in table && PrefixFree(table)
    ensures DecodeFrom(code + tail, [], table) == [table[code]] + DecodeFrom(tail, [], table)
  {
    forall j | 1 <= j < |code| ensures [] + code[..j] !in table {
      assert [] + code[..j] == code[..j];
      assert IsPrefix(code[..j], code);
    }
    assert [] + code == code;
    DecodeOneCode(code, [], tail, table);
  }

  /** Bits that never complete a code are silently dropped. */
  lemma {:induction false} DecodeDropsPartial(tail: seq<Bit>, acc: seq<Bit>, table: map<seq<Bit>, Byte>)
    requires forall j :: 1 <= j <= |tail| ==> acc + tail[..j] !in table
    ensures DecodeFrom(tail, acc, table) == []
    decreases |tail|
  {
    if tail != [] {
      assert acc + [tail[0]] == acc + tail[..1];
      forall j | 1 <= j <= |tail| - 1 ensures (acc + [tail[0]]) + tail[1..][..j] !in table {
        assert (acc + [tail[0]]) + tail[1..][..j] == acc + tail[..j + 1];
      }
      DecodeDropsPartial(tail[1..], acc + [tail[0]], table);
    }
  }

  /** A trailing proper prefix of a code, after whole codes, decodes to nothing. */
  lemma TrailingPartialCode(data: seq<Byte>, languageMap: map<Byte, seq<Bit>>,
                            table: map<seq<Bit>, Byte>, code: seq<Bit>, k: nat)
    requires forall c :: c in data ==> c in languageMap && |languageMap[c]| >= 1
    requires forall c :: c in data ==> languageMap[c] in table && table[languageMap[c]] == c
    requires PrefixFree(table)
    requires code in table && k < |code|
    ensures DecodeFrom(EncodeSymbols(data, languageMap) + code[..k], [], table) == data
  {
    DecodeEncodeSymbols(data, languageMap, table, code[..k]);
    forall j | 1 <= j <= k ensures [] + code[..k][..j] !in table {
      assert [] + code[..k][..j] == code[..j];
      assert IsPrefix(code[..j], code);
    }
    DecodeDropsPartial(code[..k], [], table);
    assert data + [] == data;
  }
}
