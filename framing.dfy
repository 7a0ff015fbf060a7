/** The layout of the bit string `encode` produces: the mode bit, the
    serialised tree, an 8-bit padding count, the padding and the codes of
    the data. */
module Framing {
  import opened Bits
  import opened Codes

  /** `num` of `encode`: the zeros that bring the header, the padding-count
      byte and the payload to a whole number of bytes. It is never 0: an
      already aligned stream gets a full byte of padding. */
  function PaddingCount(headerLen: nat, bitsLen: nat): (num: nat)
    ensures 1 <= num <= 8
    ensures (headerLen + 8 + num + bitsLen) % 8 == 0
    ensures num == 8 <==> (headerLen + bitsLen) % 8 == 0
  {
    8 - (bitsLen + headerLen) % 8
  }

  /** The bit string `encode` returns: mode bit 0, the serialised tree, the
      padding count on 8 bits, that many zeros, then the codes of the data. */
  function Frame(data: seq<Byte>, languageMap: map<Byte, seq<Bit>>, compressedHeader: seq<Bit>): (output: seq<Bit>)
    requires forall c :: c in data ==> c in languageMap
    ensures |output| % 8 == 0
    ensures |output| > 9 + |compressedHeader| && output[0] == 0
  {
    var bits := EncodeSymbols(data, languageMap);
    var num := PaddingCount(1 + |compressedHeader|, |bits|);
    // `num != 0` always holds, so the padded payload is always written.
    var padded := if num != 0 then Zeros(num) + bits else [];
    [0] + (compressedHeader + (Bits8(num) + padded))
  }

  /** `Frame` with the mode bit grouped with the tree, as `encode` prepends it. */
  lemma FrameLayout(data: seq<Byte>, languageMap: map<Byte, seq<Bit>>, compressedHeader: seq<Bit>)
    requires forall c :: c in data ==> c in languageMap
    ensures var bits := EncodeSymbols(data, languageMap);
      var num := PaddingCount(1 + |compressedHeader|, |bits|);
      Frame(data, languageMap, compressedHeader) == ([0] + compressedHeader) + (Bits8(num) + (Zeros(num) + bits))
  {
  }
}
