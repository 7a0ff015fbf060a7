/** Bit strings and their conversion to and from bytes: the `'08b'` formatting,
    `int(s, 2)`, the 8-bit grouping written by `create_output` and the bit
    expansion read back by `read_file`. */
module Bits {

  /** One character of the source's `'0'`/`'1'` strings. */
  type Bit = b: int | 0 <= b <= 1

  /** One octet: the alphabet the codec works on. */
  type Byte = b: int | 0 <= b < 256

  function Pow2(n: nat): (r: nat)
    ensures r >= 1
  {
    if n == 0 then 1 else 2 * Pow2(n - 1)
  }

  lemma {:induction false} Pow2Monotone(a: nat, b: nat)
    requires a <= b
    ensures Pow2(a) <= Pow2(b)
  {
    if a < b {
      Pow2Monotone(a, b - 1);
    }
  }

  function Min(a: int, b: int): int { if a <= b then a else b }

  /** `int(s, 2)`: the value of a bit string read most significant bit first. */
  function FromBits(s: seq<Bit>): (r: nat)
    ensures r < Pow2(|s|)
  {
    if s == [] then 0 else 2 * FromBits(s[..|s| - 1]) + s[|s| - 1]
  }

  /** `format(n, '0{w}b')` for a value that fits: exactly `w` digits, most significant first. */
  function ToBits(n: nat, w: nat): (r: seq<Bit>)
    requires n < Pow2(w)
    ensures |r| == w
  {
    if w == 0 then [] else ToBits(n / 2, w - 1) + [n % 2]
  }

  /** `f"{b:08b}"` of a byte. */
  function Bits8(b: Byte): (r: seq<Bit>)
    ensures |r| == 8
  {
    ToBits(b, 8)
  }

  /** `int(s, 2)` of an 8-bit string, as a byte. */
  function ByteOf(s: seq<Bit>): Byte
    requires |s| == 8
  {
    assert Pow2(8) == 256;
    FromBits(s)
  }

  /** `n * "0"` */
  function Zeros(n: nat): (r: seq<Bit>)
  {
    seq(n, _ => 0)
  }

  lemma {:induction false} FromBitsToBits(n: nat, w: nat)
    requires n < Pow2(w)
    ensures FromBits(ToBits(n, w)) == n
  {
    if w > 0 {
      var s := ToBits(n, w);
      assert s[..|s| - 1] == ToBits(n / 2, w - 1);
      FromBitsToBits(n / 2, w - 1);
    }
  }

  lemma {:induction false} ToBitsFromBits(s: seq<Bit>)
    ensures ToBits(FromBits(s), |s|) == s
  {
    if s != [] {
      var init := s[..|s| - 1];
      var n := FromBits(s);
      assert n / 2 == FromBits(init) && n % 2 == s[|s| - 1];
      ToBitsFromBits(init);
      assert s == init + [s[|s| - 1]];
    }
  }

  /** The bytes `create_output` writes for a bit string: consecutive groups of
      eight bits, the last group shorter when the length is not a multiple of 8. */
  function Pack(bits: seq<Bit>): (r: seq<Byte>)
    ensures |r| == (|bits| + 7) / 8
    decreases |bits|
  {
    if bits == [] then []
    else
      var k := Min(8, |bits|);
      Pow2Monotone(k, 8);
      [FromBits(bits[..k]) as Byte] + Pack(bits[k..])
  }

  /** The bit string `read_file` returns in mode 1: each byte as eight bits, most significant first. */
  function Unpack(bytes: seq<Byte>): (r: seq<Bit>)
    ensures |r| == 8 * |bytes|
  {
    if bytes == [] then [] else Unpack(bytes[..|bytes| - 1]) + Bits8(bytes[|bytes| - 1])
  }

  lemma {:induction false} UnpackAppend(a: seq<Byte>, b: seq<Byte>)
    ensures Unpack(a + b) == Unpack(a) + Unpack(b)
    decreases |b|
  {
    if b != [] {
      var b' := b[..|b| - 1];
      assert (a + b)[..|a + b| - 1] == a + b';
      UnpackAppend(a, b');
    } else {
      assert a + b == a;
    }
  }

  lemma WholeBytesStep(n: nat)
    requires n % 8 == 0 && n > 0
    ensures n >= 8 && (n - 8) % 8 == 0
  {
  }

  /** Expanding a byte in front of others. */
  lemma UnpackCons(b: Byte, rest: seq<Byte>)
    ensures Unpack([b] + rest) == Bits8(b) + Unpack(rest)
  {
    UnpackAppend([b], rest);
    assert Unpack([b]) == Unpack([]) + Bits8(b);
  }

  /** Expanding the packed bytes gives back a bit string whose length is a multiple of 8. */
  lemma {:induction false} UnpackPack(bits: seq<Bit>)
    requires |bits| % 8 == 0
    ensures Unpack(Pack(bits)) == bits
    decreases |bits|
  {
    if bits != [] {
      WholeBytesStep(|bits|);
      var head, tail := bits[..8], bits[8..];
      var b := ByteAt(bits, 0);
      assert Pack(bits) == [b] + Pack(tail);
      UnpackCons(b, Pack(tail));
      UnpackPack(tail);
      assert Bits8(b) == head by {
        ToBitsFromBits(head);
      }
      assert bits == head + tail;
    }
  }

  /** Grouping the expansion of a byte string gives back the bytes. */
  lemma {:induction false} PackUnpack(bytes: seq<Byte>)
    ensures Pack(Unpack(bytes)) == bytes
    decreases |bytes|
  {
    if bytes != [] {
      var rest := bytes[1..];
      UnpackAppend([bytes[0]], rest);
      assert bytes == [bytes[0]] + rest;
      assert Unpack([bytes[0]]) == Unpack([]) + Bits8(bytes[0]);
      var bits := Unpack(bytes);
      assert bits[..8] == Bits8(bytes[0]) && bits[8..] == Unpack(rest);
      FromBitsToBits(bytes[0], 8);
      PackUnpack(rest);
    }
  }

  /** The first byte of `Pack` taken from position `i`. */
  function ByteAt(data: seq<Bit>, i: nat): (b: Byte)
    requires i < |data|
    ensures b == FromBits(data[i..Min(i + 8, |data|)])
  {
    Pow2Monotone(Min(i + 8, |data|) - i, 8);
    FromBits(data[i..Min(i + 8, |data|)])
  }

  lemma PackStep(data: seq<Bit>, i: nat)
    requires i < |data|
    ensures Pack(data[i..]) == [ByteAt(data, i)] + Pack(data[Min(i + 8, |data|)..])
  {
    var j := Min(i + 8, |data|);
    var rest := data[i..];
    assert rest[..j - i] == data[i..j] && rest[j - i..] == data[j..];
  }

  /** The grouping loop of `create_output` (mode 0). */
  method PackBytes(data: seq<Bit>) returns (bArr: seq<Byte>)
    ensures bArr == Pack(data)
  {
    bArr := [];
    var i := 0;
    while i < |data|
      invariant 0 <= i && i % 8 == 0
      invariant bArr + Pack(data[Min(i, |data|)..]) == Pack(data)
      decreases |data| - i
    {
      PackStep(data, i);
      bArr := bArr + [ByteAt(data, i)];
      i := i + 8;
    }
  }

  /** The byte-by-byte expansion loop of `read_file` (mode 1), over the file's bytes. */
  method ReadBits(file: seq<Byte>) returns (data: seq<Bit>)
    ensures data == Unpack(file)
  {
    data := [];
    var k := 0;
    while k < |file|
      invariant k <= |file|
      invariant data == Unpack(file[..k])
    {
      assert file[..k + 1][..k] == file[..k];
      data := data + Bits8(file[k]);
      k := k + 1;
    }
    assert file[..k] == file;
  }
}
