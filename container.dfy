/** The compressed container: `encode` lays out the mode bit, the serialised
    tree, an 8-bit padding count, the padding and the payload; `compress`
    packs that into bytes; `decompress` reads it back. */
module Container {
  import opened Wrappers
  import opened Bits
  import opened Frequency
  import opened Tree
  import opened Huffman
  import opened TreeCodec
  import opened Codes
  import opened Framing

  /** The loop of `encode` that appends the code of each symbol in turn. */
  method ConcatCodes(data: seq<Byte>, languageMap: map<Byte, seq<Bit>>) returns (bits: seq<Bit>)
    requires forall c :: c in data ==> c in languageMap
    ensures bits == EncodeSymbols(data, languageMap)
  {
    bits := [];
    var i := 0;
    while i < |data|
      invariant i <= |data|
      invariant bits + EncodeSymbols(data[i..], languageMap) == EncodeSymbols(data, languageMap)
    {
      assert data[i..][1..] == data[i + 1..];
      bits := bits + languageMap[data[i]];
      i := i + 1;
    }
    assert data[i..] == [];
    assert bits + [] == bits;
  }

  /** `encode`: the loop concatenating the codes, then the framing. */
  method Encode(data: seq<Byte>, languageMap: map<Byte, seq<Bit>>, compressedHeader: seq<Bit>)
    returns (output: seq<Bit>)
    requires forall c :: c in data ==> c in languageMap
    ensures output == Frame(data, languageMap, compressedHeader)
  {
    var header := [0] + compressedHeader;
    output := [];
    var bits := ConcatCodes(data, languageMap);
    var num := 8 - (|bits| + |header|) % 8;
    assert num == PaddingCount(|header|, |bits|);
    if num != 0 {
      output := Zeros(num) + bits;
    }
    FrameLayout(data, languageMap, compressedHeader);
    output := header + (Bits8(num) + output);
  }

  /** Every symbol of a non-empty input is a leaf of its Huffman tree, so it
      has a code. */
  lemma CodesCoverInput(data: seq<Byte>)
    requires data != []
    ensures HuffmanTree(Frequencies(data)).Ok?
    ensures forall c :: c in data ==> c in LeafSyms(HuffmanTree(Frequencies(data)).value)
  {
    var freq := Frequencies(data);
    assert data[0] in Keys(freq);
    HuffmanTreeCorrect(freq);
    var root := HuffmanTree(freq).value;
    forall c | c in data ensures c in LeafSyms(root) {
      assert c in multiset(Keys(freq));
    }
  }

  /** The bits `compress` writes, before packing. An empty input has no tree:
      `nodes[0]` fails in `huffman_coding`. */
  function CompressBits(data: seq<Byte>): (r: Result<seq<Bit>>)
    ensures r.Err? <==> data == []
    ensures r.Err? ==> r.error == EmptyInput
    ensures r.Ok? ==> |r.value| % 8 == 0
  {
    var freq := Frequencies(data);
    match HuffmanTree(freq)
    case Err(e) => Err(e)
    case Ok(root) =>
      CodesCoverInput(data);
      Ok(Frame(data, AssignCode(root, []), EncodeTree(root, [])))
  }

  /** The bytes of the `.bin` file `compress` writes. */
  function Compressed(data: seq<Byte>): (r: Result<seq<Byte>>)
    ensures r.Err? <==> data == []
    ensures r.Ok? ==> 8 * |r.value| == |CompressBits(data).value|
  {
    match CompressBits(data)
    case Err(e) => Err(e)
    case Ok(bits) =>
      UnpackPack(bits);
      Ok(Pack(bits))
  }

  /** `compress` on the file's contents: frequencies, tree and codes, framing,
      then the byte-packing loop of `create_output`. */
  method Compress(data: seq<Byte>) returns (r: Result<seq<Byte>>)
    ensures r == Compressed(data)
  {
    var freqMap := FrequencyMap(data);
    var coding := HuffmanCoding(freqMap);
    if coding.Err? {
      return Err(coding.error);
    }
    var (languageMap, compressedHeader, root) := coding.value;
    CodesCoverInput(data);
    var output := Encode(data, languageMap, compressedHeader);
    var bytes := PackBytes(output);
    return Ok(bytes);
  }

  /** Distinct symbols never share a prefix-free code. */
  lemma PrefixFreeInjective(d: map<Byte, seq<Bit>>)
    requires CodesPrefixFree(d)
    ensures forall a, b :: a in d && b in d && d[a] == d[b] ==> a == b
  {
    forall a, b | a in d && b in d && d[a] == d[b] ensures a == b {
      assert IsPrefix(d[a], d[b]);
    }
  }

  /** `reversed_tree` of `decompress`: the code table of a tree turned round,
      mapping each code back to its symbol. No key is a prefix of another. */
  function ReversedCodes(node: Node): (table: map<seq<Bit>, Byte>)
    ensures PrefixFree(table)
    ensures forall s :: s in LeafSyms(node) ==>
              AssignCode(node, [])[s] in table && table[AssignCode(node, [])[s]] == s
    ensures forall c :: c in table ==> table[c] in LeafSyms(node) && AssignCode(node, [])[table[c]] == c
  {
    var d := AssignCode(node, []);
    AssignCodePrefixFree(node, []);
    PrefixFreeInjective(d);
    var table := ReverseTable(d);
    assert PrefixFree(table) by {
      forall p, q | p in table && q in table && p != q ensures !IsPrefix(p, q) {
        assert d[table[p]] == p && d[table[q]] == q;
      }
    }
    table
  }

  /** `decompress` on the bits `read_file` produced. An empty file fails on
      `data[0]`; a tree cut short fails in `decode_tree`; no bit left for the
      padding count fails on `int('', 2)`. The mode bit is read and ignored;
      a padding field of fewer than 8 bits is read as a shorter number;
      skipping past the end leaves no payload. */
  function DecompressBits(data: seq<Bit>): (r: Result<seq<Byte>>)
    ensures r.Ok? ==> |r.value| < |data|
  {
    if data == [] then Err(TruncatedHeader)
    else
      var rest := data[1..];
      match DecodeTree(rest, 0)
      case Err(e) => Err(e)
      case Ok((node, pos)) =>
        var reversedTree := ReversedCodes(node);
        var afterTree := rest[pos..];
        if afterTree == [] then Err(EmptyPaddingField)
        else
          var width := Min(8, |afterTree|);
          var nPadding := FromBits(afterTree[..width]);
          var payload := afterTree[width..];
          var body := if nPadding <= |payload| then payload[nPadding..] else [];
          DecodeFromBounded(body, [], reversedTree);
          Ok(DecodeFrom(body, [], reversedTree))
  }

  /** What `decompress` recovers from the bytes of a file. */
  function Decompressed(file: seq<Byte>): (r: Result<seq<Byte>>)
    ensures r.Ok? ==> |r.value| < 8 * |file|
  {
    DecompressBits(Unpack(file))
  }

  /** `decompress` on the file's bytes: the bit-reading loop of `read_file`,
      `decode_tree` over the shared list, the reversed code table, the padding
      and the decoding loop of `decode`. */
  method Decompress(file: seq<Byte>) returns (r: Result<seq<Byte>>)
    ensures r == Decompressed(file)
  {
    var data := ReadBits(file);
    if |data| == 0 {
      return Err(TruncatedHeader);
    }
    data := data[1..];
    var decoded := DecodeTreeAt(data, 0);
    if decoded.Err? {
      return Err(decoded.error);
    }
    var (node, pos) := decoded.value;
    var reversedTree := ReversedCodes(node);
    data := data[pos..];
    if |data| == 0 {
      return Err(EmptyPaddingField);
    }
    var width := Min(8, |data|);
    var nPadding := FromBits(data[..width]);
    data := data[width..];
    data := if nPadding <= |data| then data[nPadding..] else [];
    var output := Decode(data, reversedTree);
    return Ok(output);
  }

  /** The mode bit is never checked: flipping it changes nothing. */
  lemma ModeBitIgnored(rest: seq<Bit>)
    ensures DecompressBits([0] + rest) == DecompressBits([1] + rest)
  {
    assert ([0] + rest)[1..] == rest;
    assert ([1] + rest)[1..] == rest;
  }

  /** A file that ends inside the serialised tree is rejected. */
  lemma TruncatedTreeRejected(mode: Bit, t: Node, k: nat)
    requires k < |EncodeTree(t, [])|
    ensures DecompressBits([mode] + EncodeTree(t, [])[..k]) == Err(TruncatedHeader)
  {
    var cut := EncodeTree(t, [])[..k];
    assert ([mode] + cut)[1..] == cut;
    CutHeaderRejected(t, k);
  }

  /** A file that ends right after the tree has no padding count to read. */
  lemma MissingPaddingRejected(mode: Bit, t: Node)
    ensures DecompressBits([mode] + EncodeTree(t, [])) == Err(EmptyPaddingField)
  {
    var e := EncodeTree(t, []);
    assert ([mode] + e)[1..] == e + [];
    TreeRoundTrip(t, []);
  }

  /** Reading a container whose tree decodes and is followed by a well-formed
      padding count and exactly that many padding bits: what is left is decoded. */
  lemma DecompressParts(frame: seq<Bit>, node: Node, pos: nat, num: Byte, body: seq<Bit>)
    requires frame != [] && pos <= |frame[1..]|
    requires DecodeTree(frame[1..], 0) == Ok((node, pos))
    requires frame[1..][pos..] == Bits8(num) + (Zeros(num) + body)
    ensures DecompressBits(frame) == Ok(DecodeFrom(body, [], ReversedCodes(node)))
  {
    var afterTree := frame[1..][pos..];
    assert afterTree[..8] == Bits8(num);
    assert Pow2(8) == 256;
    FromBitsToBits(num, 8);
    assert afterTree[8..] == Zeros(num) + body;
    assert (Zeros(num) + body)[num..] == body;
  }

  /** Reading a frame back: the tree is rebuilt without weights, the padding
      count and the padding are skipped, and exactly the encoded symbols are
      decoded with the rebuilt tree's codes. */
  lemma FrameDecodes(data: seq<Byte>, languageMap: map<Byte, seq<Bit>>, root: Node)
    requires forall c :: c in data ==> c in languageMap
    ensures DecompressBits(Frame(data, languageMap, EncodeTree(root, []))) ==
      Ok(DecodeFrom(EncodeSymbols(data, languageMap), [], ReversedCodes(Unweighted(root))))
  {
    var header := EncodeTree(root, []);
    var bits := EncodeSymbols(data, languageMap);
    var num := PaddingCount(1 + |header|, |bits|);
    var tail := Bits8(num) + (Zeros(num) + bits);
    var frame := Frame(data, languageMap, header);
    assert frame[1..] == header + tail;
    TreeRoundTrip(root, tail);
    DecompressParts(frame, Unweighted(root), |header|, num, bits);
  }

  /** The file `compress` writes unpacks to the bits `encode` produced. */
  lemma CompressedFrame(data: seq<Byte>)
    requires data != []
    ensures Compressed(data).Ok? && Unpack(Compressed(data).value) == CompressBits(data).value
  {
    var bits := CompressBits(data).value;
    assert Compressed(data) == Ok(Pack(bits));
    UnpackPack(bits);
  }

  lemma TwoDistinct(s: seq<Byte>, a: Byte, b: Byte)
    requires a in s && b in s && a != b
    ensures |s| >= 2
  {
  }

  /** With two distinct symbols in the input, the Huffman tree is not a single leaf. */
  lemma TwoSymbolsInternalRoot(data: seq<Byte>, i: nat, j: nat)
    requires i < |data| && j < |data| && data[i] != data[j]
    ensures HuffmanTree(Frequencies(data)).Ok? && HuffmanTree(Frequencies(data)).value.Internal?
  {
    CodesCoverInput(data);
    var syms := LeafSyms(HuffmanTree(Frequencies(data)).value);
    assert data[i] in syms && data[j] in syms;
    TwoDistinct(syms, data[i], data[j]);
  }

  /** Under a tree with at least two leaves every code is non-empty, so the
      encoded symbols decode back to exactly the data. */
  lemma InternalCodesDecode(data: seq<Byte>, root: Node)
    requires root.Internal? && forall c :: c in data ==> c in LeafSyms(root)
    ensures DecodeFrom(EncodeSymbols(data, AssignCode(root, [])), [], ReversedCodes(root)) == data
  {
    var lang := AssignCode(root, []);
    var code := EncodeSymbols(data, lang);
    DecodeEncodeSymbols(data, lang, ReversedCodes(root), []);
    assert code + [] == code;
  }

  /** Decompression inverts compression whenever the input holds at least two
      distinct byte values. */
  lemma {:induction false} RoundTrip(data: seq<Byte>)
    requires exists i, j :: 0 <= i < |data| && 0 <= j < |data| && data[i] != data[j]
    ensures Compressed(data).Ok?
    ensures Decompressed(Compressed(data).value) == Ok(data)
  {
    var i, j :| 0 <= i < |data| && 0 <= j < |data| && data[i] != data[j];
    CodesCoverInput(data);
    TwoSymbolsInternalRoot(data, i, j);
    var root := HuffmanTree(Frequencies(data)).value;
    var frame := Frame(data, AssignCode(root, []), EncodeTree(root, []));
    assert Decompressed(Compressed(data).value) == DecompressBits(frame) by {
      CompressedFrame(data);
      assert CompressBits(data) == Ok(frame);
    }
    assert DecompressBits(frame) == Ok(data) by {
      FrameDecodes(data, AssignCode(root, []), root);
      AssignCodeUnweighted(root, []);
      InternalCodesDecode(data, root);
    }
  }

  /** A tree whose codes are all empty encodes any data to nothing. */
  lemma {:induction false} EmptyCodesEncodeNothing(data: seq<Byte>, lang: map<Byte, seq<Bit>>)
    requires forall c :: c in data ==> c in lang && lang[c] == []
    ensures EncodeSymbols(data, lang) == []
  {
    if data != [] {
      assert forall c :: c in data[1..] ==> c in data;
      EmptyCodesEncodeNothing(data[1..], lang);
    }
  }

  /** An input made of one repeated byte value has a one-entry frequency table. */
  lemma OneSymbolOneEntry(data: seq<Byte>)
    requires data != [] && forall i :: 0 <= i < |data| ==> data[i] == data[0]
    ensures |Frequencies(data)| == 1
  {
    var freq := Frequencies(data);
    assert data[0] in Keys(freq);
  }

  /** As written, an input made of one repeated byte value compresses to a
      tree that is a single leaf with the empty code, so the payload is empty
      and decompression yields no bytes at all. */
  lemma SingleSymbolDecompressesEmpty(data: seq<Byte>)
    requires data != [] && forall i :: 0 <= i < |data| ==> data[i] == data[0]
    ensures Compressed(data).Ok?
    ensures Decompressed(Compressed(data).value) == Ok([])
  {
    CodesCoverInput(data);
    var freq := Frequencies(data);
    var root := HuffmanTree(freq).value;
    assert root.Leaf? by {
      OneSymbolOneEntry(data);
      HuffmanTreeCorrect(freq);
      assert |Keys(freq)| == 1;
      assert |multiset(LeafSyms(root))| == 1;
    }
    var lang := AssignCode(root, []);
    assert lang == map[root.symbol := []];
    CompressedFrame(data);
    assert CompressBits(data) == Ok(Frame(data, lang, EncodeTree(root, [])));
    EmptyCodesEncodeNothing(data, lang);
    FrameDecodes(data, lang, root);
  }
}
