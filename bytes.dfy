/**
 * Bytes and the little-endian uint32 encoding shared by the bytecode writer
 * (`writeUint32`, `writeUint32At`) and the resolver's reader (`readUint32`).
 */
module Bytes {
  newtype byte = b: int | 0 <= b < 256

  const TWO_32: int := 0x1_0000_0000

  type u32 = v: int | 0 <= v < 0x1_0000_0000

  /** The bytes of an ASCII string literal of the Go source. */
  function Str(s: string): (r: seq<byte>)
    ensures |r| == |s|
  {
    seq(|s|, i requires 0 <= i < |s| => (s[i] as int % 256) as byte)
  }

  /** Go's `string(c)` for a byte `c`: the UTF-8 encoding of the code point U+00cc. */
  function RuneStr(c: byte): (r: seq<byte>)
    ensures 1 <= |r| <= 2
    ensures c < 0x80 <==> r == [c]
  {
    if c < 0x80 then [c] else [(0xC0 + c as int / 64) as byte, (0x80 + c as int % 64) as byte]
  }

  /** The number a string of decimal digits spells. */
  function DecimalValue(s: seq<byte>): int
  {
    if |s| == 0 then 0 else 10 * DecimalValue(s[..|s| - 1]) + (s[|s| - 1] as int - '0' as int)
  }

  /** `strconv.AppendUint(_, n, 10)`: the decimal digits of `n`. */
  function Decimal(n: nat): (r: seq<byte>)
    ensures |r| > 0 && (|r| > 1 ==> r[0] != '0' as byte)
    ensures forall i :: 0 <= i < |r| ==> '0' as byte <= r[i] <= '9' as byte
    ensures DecimalValue(r) == n
  {
    if n < 10 then [('0' as int + n) as byte]
    else
      var r := Decimal(n / 10) + [('0' as int + n % 10) as byte];
      assert r[..|r| - 1] == Decimal(n / 10);
      r
  }

  /** Go's `uint32(x)` conversion of a non-negative int: keep the low 32 bits. */
  function U32(x: nat): (v: u32)
    ensures x < TWO_32 ==> v == x
  {
    x % TWO_32
  }

  /** The four bytes `writeUint32` stores for `v`, least significant first. */
  function Le32(v: u32): (r: seq<byte>)
    ensures |r| == 4
  {
    [(v % 256) as byte, ((v / 256) % 256) as byte, ((v / 65536) % 256) as byte, (v / 16777216) as byte]
  }

  /** Decoding four bytes read at `at`, least significant first. */
  function DecodeLe32(s: seq<byte>, at: nat): (v: u32)
    requires at + 4 <= |s|
  {
    s[at] as int + 256 * s[at + 1] as int + 65536 * s[at + 2] as int + 16777216 * s[at + 3] as int
  }

  /** `s` with the four bytes at `at` replaced by the encoding of `v`. */
  function WithUint32At(s: seq<byte>, at: nat, v: u32): (r: seq<byte>)
    requires at + 4 <= |s|
    ensures |r| == |s|
    ensures r[at..at + 4] == Le32(v) && r[..at] == s[..at] && r[at + 4..] == s[at + 4..]
    ensures forall i :: 0 <= i < |s| && !(at <= i < at + 4) ==> r[i] == s[i]
  {
    s[..at] + Le32(v) + s[at + 4..]
  }

  lemma DecodeEncode(v: u32)
    ensures DecodeLe32(Le32(v), 0) == v
  {
    var b0, b1, b2, b3 := v % 256, (v / 256) % 256, (v / 65536) % 256, v / 16777216;
    assert v / 65536 == b2 + 256 * b3;
    assert v / 256 == b1 + 256 * (v / 65536);
    assert v == b0 + 256 * (v / 256);
  }

  lemma EncodeDecode(s: seq<byte>, at: nat)
    requires at + 4 <= |s|
    ensures Le32(DecodeLe32(s, at)) == s[at..at + 4]
  {
    var v := DecodeLe32(s, at);
    var b0, b1, b2, b3 := s[at] as int, s[at + 1] as int, s[at + 2] as int, s[at + 3] as int;
    assert v / 256 == b1 + 256 * b2 + 65536 * b3;
    assert v / 65536 == b2 + 256 * b3;
    assert v / 16777216 == b3;
  }

  /** Reading back what `WithUint32At` wrote gives the value written. */
  lemma ReadAfterWrite(s: seq<byte>, at: nat, v: u32)
    requires at + 4 <= |s|
    ensures DecodeLe32(WithUint32At(s, at, v), at) == v
  {
    var r := WithUint32At(s, at, v);
    DecodeEncode(v);
    assert r[at..at + 4] == Le32(v);
    assert r[at] == Le32(v)[0] && r[at + 1] == Le32(v)[1] && r[at + 2] == Le32(v)[2] && r[at + 3] == Le32(v)[3];
  }

  /** A write at one slot leaves a reading at a disjoint slot alone. */
  lemma ReadOtherSlot(s: seq<byte>, at: nat, v: u32, other: nat)
    requires at + 4 <= |s| && other + 4 <= |s|
    requires other + 4 <= at || at + 4 <= other
    ensures DecodeLe32(WithUint32At(s, at, v), other) == DecodeLe32(s, other)
  {
  }
}
