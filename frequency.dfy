/** `frequency_map`: how often each symbol occurs. The Python dictionary is
    kept as its list of `(symbol, count)` items in insertion order, because
    that order later decides how `huffman_coding` breaks ties between equal
    counts. */
module Frequency {
  import opened Bits

  /** One dictionary item: a symbol and its count. */
  type Entry = (Byte, nat)

  /** The dictionary's items, in the order their keys were first inserted. */
  type FrequencyTable = seq<Entry>

  function Keys(f: FrequencyTable): seq<Byte>
  {
    seq(|f|, i requires 0 <= i < |f| => f[i].0)
  }

  /** Dictionary keys are unique. */
  predicate DistinctKeys(f: FrequencyTable)
  {
    forall i, j :: 0 <= i < j < |f| ==> f[i].0 != f[j].0
  }

  /** Position of the item whose key is `c`. */
  function IndexOf(f: FrequencyTable, c: Byte): (i: nat)
    requires c in Keys(f)
    ensures i < |f| && f[i].0 == c
  {
    if f[0].0 == c then 0 else assert Keys(f)[1..] == Keys(f[1..]); 1 + IndexOf(f[1..], c)
  }

  /** `frequency.get(c, 0)` */
  function Lookup(f: FrequencyTable, c: Byte): nat
  {
    if c in Keys(f) then f[IndexOf(f, c)].1 else 0
  }

  function SumCounts(f: FrequencyTable): nat
  {
    if f == [] then 0 else SumCounts(f[..|f| - 1]) + f[|f| - 1].1
  }

  lemma {:induction false} SumCountsUpdate(f: FrequencyTable, j: nat, e: Entry)
    requires j < |f|
    ensures SumCounts(f[j := e]) == SumCounts(f) - f[j].1 + e.1
    decreases |f|
  {
    var g := f[j := e];
    if j < |f| - 1 {
      assert g[..|g| - 1] == f[..|f| - 1][j := e];
      SumCountsUpdate(f[..|f| - 1], j, e);
    } else {
      assert g[..|g| - 1] == f[..|f| - 1];
    }
  }

  /** An item of a table with unique keys is the one `Lookup` finds. */
  lemma LookupEntry(f: FrequencyTable, i: nat)
    requires DistinctKeys(f) && i < |f|
    ensures Lookup(f, f[i].0) == f[i].1
  {
    assert Keys(f)[i] == f[i].0;
  }

  /** One pass of the loop body of `frequency_map`: insert `c` with count 1
      when it is not a key yet, otherwise add one to its count. */
  function Bump(f: FrequencyTable, c: Byte): (r: FrequencyTable)
    requires DistinctKeys(f)
    ensures DistinctKeys(r)
    ensures forall k :: k in Keys(r) <==> k in Keys(f) || k == c
    ensures forall k :: Lookup(r, k) == Lookup(f, k) + (if k == c then 1 else 0)
    ensures SumCounts(r) == SumCounts(f) + 1
  {
    if c !in Keys(f) then
      BumpNew(f, c);
      f + [(c, 1)]
    else
      var j := IndexOf(f, c);
      BumpExisting(f, c, j);
      f[j := (c, f[j].1 + 1)]
  }

  /** A new key is appended with count 1. */
  lemma BumpNew(f: FrequencyTable, c: Byte)
    requires DistinctKeys(f) && c !in Keys(f)
    ensures var r := f + [(c, 1)];
      && DistinctKeys(r)
      && (forall k :: k in Keys(r) <==> k in Keys(f) || k == c)
      && (forall k :: Lookup(r, k) == Lookup(f, k) + (if k == c then 1 else 0))
      && SumCounts(r) == SumCounts(f) + 1
  {
    var r := f + [(c, 1)];
    assert Keys(r) == Keys(f) + [c];
    assert forall k | k in Keys(f) :: IndexOf(r, k) == IndexOf(f, k);
    assert r[|r| - 1].0 == c && Keys(r)[|r| - 1] == c;
    assert forall i | 0 <= i < |f| :: Keys(f)[i] == f[i].0;
    assert IndexOf(r, c) == |f|;
    assert r[..|r| - 1] == f;
  }

  /** An existing key keeps its place and its count grows by one. */
  lemma BumpExisting(f: FrequencyTable, c: Byte, j: nat)
    requires DistinctKeys(f) && c in Keys(f) && j == IndexOf(f, c)
    ensures var r := f[j := (c, f[j].1 + 1)];
      && DistinctKeys(r)
      && (forall k :: k in Keys(r) <==> k in Keys(f) || k == c)
      && (forall k :: Lookup(r, k) == Lookup(f, k) + (if k == c then 1 else 0))
      && SumCounts(r) == SumCounts(f) + 1
  {
    var r := f[j := (c, f[j].1 + 1)];
    assert Keys(r) == Keys(f);
    assert forall k | k in Keys(f) :: IndexOf(r, k) == IndexOf(f, k);
    SumCountsUpdate(f, j, (c, f[j].1 + 1));
  }

  /** The dictionary `frequency_map(data)` returns: one item per distinct
      symbol, counting its occurrences; the counts add up to `len(data)`. */
  function Frequencies(data: seq<Byte>): (f: FrequencyTable)
    ensures DistinctKeys(f)
    ensures forall k :: k in Keys(f) <==> k in data
    ensures forall k :: Lookup(f, k) == multiset(data)[k]
    ensures SumCounts(f) == |data|
  {
    if data == [] then []
    else
      var init := data[..|data| - 1];
      assert data == init + [data[|data| - 1]];
      Bump(Frequencies(init), data[|data| - 1])
  }

  /** Every symbol of the input has an item (only one, as keys are distinct)
      holding its number of occurrences, which is at least one. */
  lemma FrequenciesEntries(data: seq<Byte>, c: Byte)
    requires c in data
    ensures exists i :: 0 <= i < |Frequencies(data)| && Frequencies(data)[i] == (c, multiset(data)[c])
    ensures multiset(data)[c] >= 1
  {
    var f := Frequencies(data);
    assert c in Keys(f);
    var i := IndexOf(f, c);
    LookupEntry(f, i);
  }

  /** The counting loop of `frequency_map`. */
  method FrequencyMap(data: seq<Byte>) returns (frequency: FrequencyTable)
    ensures frequency == Frequencies(data)
  {
    frequency := [];
    var i := 0;
    while i < |data|
      invariant i <= |data|
      invariant frequency == Frequencies(data[..i])
    {
      assert data[..i + 1][..i] == data[..i];
      frequency := Bump(frequency, data[i]);
      i := i + 1;
    }
    assert data[..i] == data;
  }
}
