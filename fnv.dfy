/**
 * The 32-bit FNV-1 hash (Go's `hash/fnv.New32`), which both the bytecode
 * parser (its `Hasher`) and the schema builder (`getObjKey`) use to key fields.
 * The arithmetic is written on integers modulo 2^32.
 */
module Fnv {
  import opened Bytes

  const OffsetBasis: u32 := 2166136261
  const Prime: u32 := 16777619  // the multiplier written out in Round

  function Pow2(n: nat): (p: nat)
    ensures p > 0
  {
    if n == 0 then 1 else 2 * Pow2(n - 1)
  }

  /** Bitwise exclusive or of the low `bits` bits of `a` and `b`, least significant bit first. */
  function XorBits(a: nat, b: nat, bits: nat): (r: nat)
    ensures r < Pow2(bits)
  {
    if bits == 0 then 0
    else (a % 2 + b % 2) % 2 + 2 * XorBits(a / 2, b / 2, bits - 1)
  }

  /** One FNV-1 round: multiply by the prime, wrapping at 2^32, then xor the byte into the low eight bits. */
  function Round(h: u32, b: byte): u32
  {
    var m := (h * 16777619) % 0x1_0000_0000;
    var high := m / 256;
    assert high < 0x100_0000;
    assert Pow2(8) == 256 by {
      assert Pow2(4) == 16;
    }
    high * 256 + XorBits(m % 256, b as nat, 8)
  }

  /** FNV-1 over `data`, one round per byte starting from the offset basis: the value `Sum32` returns. */
  function Sum32(data: seq<byte>): u32
  {
    if data == [] then OffsetBasis
    else Round(Sum32(data[..|data| - 1]), data[|data| - 1])
  }

  /** Hashing is a left fold: extending the input by one byte takes one more round. */
  lemma Sum32Append(data: seq<byte>, b: byte)
    ensures Sum32(data + [b]) == Round(Sum32(data), b)
  {
    assert (data + [b])[..|data|] == data;
  }

  /** The published FNV-1 32-bit values for the empty input and for `a`. */
  lemma Sum32Vectors()
    ensures Sum32([]) == 0x811c9dc5
    ensures Sum32(Str("a")) == 0x050c5d7e
  {
    assert Str("a")[..0] == [];
    RoundOfA();
  }

  /** The one round of hashing `a` (0x61) from the offset basis. */
  lemma RoundOfA()
    ensures Round(OffsetBasis, 'a' as byte) == 0x050c5d7e
  {
    var m := (OffsetBasis as int * 16777619) % 0x1_0000_0000;
    assert m == 0x050c5d1f;
    assert m / 256 == 0x050c5d && m % 256 == 0x1f;
    XorOfA();
  }

  /** The xor step of hashing `a`: the low byte 0x1f of the product with 0x61, bit by bit. */
  lemma XorOfA()
    ensures XorBits(0x1f, 'a' as nat, 8) == 0x7e
  {
    assert XorBits(0, 0, 1) == 0;
    assert XorBits(0, 1, 2) == 1;
    assert XorBits(0, 3, 3) == 3;
    assert XorBits(1, 6, 4) == 7;
    assert XorBits(3, 12, 5) == 15;
    assert XorBits(7, 24, 6) == 31;
    assert XorBits(15, 48, 7) == 63;
  }
}
