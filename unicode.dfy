/**
 * The pieces of Go's standard library that the `\u` escape of a string value
 * goes through (bytecode/bytecode.go:1019-1049): `hex.Decode` of four bytes,
 * its `InvalidByteError` message, `utf16.Decode` of one code unit and
 * `utf8.EncodeRune` of the resulting rune.
 */
module Unicode {
  import opened Bytes

  predicate IsHexDigit(c: byte)
  {
    '0' as byte <= c <= '9' as byte || 'a' as byte <= c <= 'f' as byte || 'A' as byte <= c <= 'F' as byte
  }

  /** The value of one hexadecimal digit; both letter cases are accepted. */
  function HexValue(c: byte): (v: nat)
    requires IsHexDigit(c)
    ensures v < 16
  {
    if c <= '9' as byte then (c - '0' as byte) as nat
    else if c <= 'F' as byte then (c - 'A' as byte) as nat + 10
    else (c - 'a' as byte) as nat + 10
  }

  /** The lower-case digit for `v`, as `hex.Encode` writes it. */
  function HexDigit(v: nat): (c: byte)
    requires v < 16
    ensures IsHexDigit(c) && HexValue(c) == v
  {
    if v < 10 then ('0' as int + v) as byte else ('a' as int + v - 10) as byte
  }

  /** The upper-case digit for `v`, as the `%X` verb writes it. */
  function HexDigitUpper(v: nat): (c: byte)
    requires v < 16
    ensures IsHexDigit(c) && HexValue(c) == v
  {
    if v < 10 then ('0' as int + v) as byte else ('A' as int + v - 10) as byte
  }

  datatype HexResult = HexOk(unit: nat) | HexBad(invalid: byte)

  /**
   * `hex.Decode` of `[c1, c2, c3, c4]` read as the big-endian code unit
   * `uint16(res[1]) | uint16(res[0]) << 8`; the first byte in order that is
   * not a hexadecimal digit is the one reported.
   */
  function HexDecode4(c1: byte, c2: byte, c3: byte, c4: byte): (r: HexResult)
    ensures r.HexOk? <==> IsHexDigit(c1) && IsHexDigit(c2) && IsHexDigit(c3) && IsHexDigit(c4)
    ensures r.HexOk? ==> r.unit < 0x10000
    ensures r.HexBad? ==> !IsHexDigit(r.invalid) && r.invalid in [c1, c2, c3, c4]
  {
    if !IsHexDigit(c1) then HexBad(c1)
    else if !IsHexDigit(c2) then HexBad(c2)
    else if !IsHexDigit(c3) then HexBad(c3)
    else if !IsHexDigit(c4) then HexBad(c4)
    else HexOk(((HexValue(c1) * 16 + HexValue(c2)) * 16 + HexValue(c3)) * 16 + HexValue(c4))
  }

  /** The four lower-case digits of a code unit, most significant first. */
  function HexEncode4(u: nat): (r: seq<byte>)
    requires u < 0x10000
    ensures |r| == 4 && forall i :: 0 <= i < 4 ==> IsHexDigit(r[i])
  {
    [HexDigit(u / 4096), HexDigit(u / 256 % 16), HexDigit(u / 16 % 16), HexDigit(u % 16)]
  }

  /** Decoding the four digits of a code unit gives the code unit back. */
  lemma HexRoundTrip(u: nat)
    requires u < 0x10000
    ensures var h := HexEncode4(u); HexDecode4(h[0], h[1], h[2], h[3]) == HexOk(u)
  {
    var h := HexEncode4(u);
    assert HexValue(h[0]) == u / 4096 && HexValue(h[1]) == u / 256 % 16;
    assert HexValue(h[2]) == u / 16 % 16 && HexValue(h[3]) == u % 16;
    assert u / 256 == u / 4096 * 16 + u / 256 % 16;
    assert u / 16 == u / 256 * 16 + u / 16 % 16;
    assert u == u / 16 * 16 + u % 16;
  }

  /** `strconv.IsPrint` for a rune below U+0100 (the Latin-1 range). */
  predicate IsPrintLatin1(c: byte)
  {
    (0x20 <= c <= 0x7E) || (0xA1 <= c && c != 0xAD)
  }

  const HexErrorPrefix: seq<byte> := Str("encoding/hex: invalid byte: U+00")

  /**
   * The text of `hex.InvalidByteError(c).Error()`: `"encoding/hex: invalid byte: %#U"`,
   * that is `U+00XX` in upper-case hexadecimal followed, for a printable
   * byte, by the character between single quotes.
   */
  function HexErrorMessage(c: byte): (m: seq<byte>)
    ensures |HexErrorPrefix| + 2 <= |m| && m[..|HexErrorPrefix|] == HexErrorPrefix
    ensures m[|HexErrorPrefix|..|HexErrorPrefix| + 2] == [HexDigitUpper(c as nat / 16), HexDigitUpper(c as nat % 16)]
    ensures |m| == |HexErrorPrefix| + 2 <==> !IsPrintLatin1(c)
  {
    HexErrorPrefix + [HexDigitUpper(c as nat / 16), HexDigitUpper(c as nat % 16)]
    + (if IsPrintLatin1(c) then Str(" '") + RuneStr(c) + Str("'") else [])
  }

  predicate IsSurrogate(u: nat) { 0xD800 <= u < 0xE000 }

  const ReplacementChar: nat := 0xFFFD

  /** `utf16.Decode` of a single code unit: a lone surrogate becomes U+FFFD. */
  function Utf16DecodeOne(u: nat): (r: nat)
    requires u < 0x10000
    ensures r < 0x10000 && !IsSurrogate(r)
    ensures !IsSurrogate(u) ==> r == u
  {
    if IsSurrogate(u) then ReplacementChar else u
  }

  /** `utf8.EncodeRune` of a rune of the basic multilingual plane; a surrogate is written as U+FFFD. */
  function Utf8Encode(r: nat): (b: seq<byte>)
    requires r < 0x10000
    ensures 1 <= |b| <= 3
    ensures |b| == 1 <==> r < 0x80
  {
    if r < 0x80 then [r as byte]
    else if r < 0x800 then [(0xC0 + r / 64) as byte, (0x80 + r % 64) as byte]
    else if IsSurrogate(r) then [0xEF, 0xBF, 0xBD]
    else [(0xE0 + r / 4096) as byte, (0x80 + r / 64 % 64) as byte, (0x80 + r % 64) as byte]
  }

  /** A UTF-8 decoder for sequences of one to three bytes, the reference `Utf8Encode` is checked against. */
  function Utf8Decode(b: seq<byte>): (r: nat)
    requires 1 <= |b| <= 3
  {
    if |b| == 1 then b[0] as nat
    else if |b| == 2 then (b[0] as nat % 32) * 64 + b[1] as nat % 64
    else (b[0] as nat % 16) * 4096 + (b[1] as nat % 64) * 64 + b[2] as nat % 64
  }

  /** Every byte `Utf8Encode` writes after the first is a continuation byte, and the first says how many follow. */
  predicate WellFormedUtf8(b: seq<byte>)
  {
    (|b| == 1 && b[0] < 0x80)
    || (|b| == 2 && 0xC2 <= b[0] < 0xE0 && 0x80 <= b[1] < 0xC0)
    || (|b| == 3 && 0xE0 <= b[0] < 0xF0 && 0x80 <= b[1] < 0xC0 && 0x80 <= b[2] < 0xC0)
  }

  /** Encoding then decoding a rune that is not a surrogate gives the rune back, through well-formed bytes. */
  lemma Utf8RoundTrip(r: nat)
    requires r < 0x10000 && !IsSurrogate(r)
    ensures WellFormedUtf8(Utf8Encode(r)) && Utf8Decode(Utf8Encode(r)) == r
  {
    if 0x800 <= r {
      assert r / 64 % 64 == r / 64 - r / 4096 * 64;
    }
  }

  /** Go's `string(c)` of a byte is the UTF-8 encoding of the rune U+00cc. */
  lemma RuneStrIsUtf8(c: byte)
    ensures RuneStr(c) == Utf8Encode(c as nat)
  {
  }
}
