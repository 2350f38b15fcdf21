/**
 * `stringToJson` (encodeString.go:15-92): a byte string written as a JSON
 * string literal in the sense of section 7 of RFC 8259, with `utf8.DecodeRune`
 * of Go's standard library for the bytes at or above 0x80.
 */
module EncodeString {
  import opened Wrappers
  import opened Bytes
  import opened Unicode

  /** `utf8.RuneSelf`: bytes below it are single-byte runes. */
  const RuneSelf: byte := 0x80
  /** `utf8.RuneError`, U+FFFD. */
  const RuneError: nat := 0xFFFD

  const QuoteMark: seq<byte> := ['"' as byte]
  /** `\ufffd`, written for a byte that does not start a valid UTF-8 sequence. */
  const ReplacementEscape: seq<byte> := ['\\' as byte, 'u' as byte, 'f' as byte, 'f' as byte, 'f' as byte, 'd' as byte]
  /** `\u202`, the first five bytes of the escape of U+2028 and U+2029. */
  const SeparatorEscape: seq<byte> := ['\\' as byte, 'u' as byte, '2' as byte, '0' as byte, '2' as byte]

  predicate Continuation(b: byte) { 0x80 <= b < 0xC0 }

  /**
   * `utf8.DecodeRune` on a non-empty input: the rune at the front and its
   * size in bytes. A byte that does not start a well-formed sequence (a
   * continuation byte, an overlong or surrogate form, a code point above
   * U+10FFFF, a truncated sequence) gives `(RuneError, 1)`.
   */
  function DecodeRune(s: seq<byte>): (r: (nat, nat))
    requires |s| > 0
    ensures 1 <= r.1 <= 4 && r.1 <= |s|
    ensures s[0] < RuneSelf ==> r == (s[0] as nat, 1)
    ensures s[0] >= RuneSelf && r.1 > 1 ==> forall k :: 1 <= k < r.1 ==> Continuation(s[k])
  {
    var p0 := s[0];
    if p0 < RuneSelf then (p0 as nat, 1)
    else if p0 < 0xC2 || p0 > 0xF4 then (RuneError, 1)
    else
      var size := if p0 < 0xE0 then 2 else if p0 < 0xF0 then 3 else 4;
      // the range the second byte must lie in
      var lo: byte := if p0 == 0xE0 then 0xA0 else if p0 == 0xF0 then 0x90 else 0x80;
      var hi: byte := if p0 == 0xED then 0x9F else if p0 == 0xF4 then 0x8F else 0xBF;
      if |s| < size then (RuneError, 1)
      else if s[1] < lo || s[1] > hi then (RuneError, 1)
      else if size == 2 then ((p0 as nat % 32) * 64 + s[1] as nat % 64, 2)
      else if !Continuation(s[2]) then (RuneError, 1)
      else if size == 3 then ((p0 as nat % 16) * 4096 + (s[1] as nat % 64) * 64 + s[2] as nat % 64, 3)
      else if !Continuation(s[3]) then (RuneError, 1)
      else ((p0 as nat % 8) * 262144 + (s[1] as nat % 64) * 4096 + (s[2] as nat % 64) * 64 + s[3] as nat % 64, 4)
  }

  /** The bytes below 0x80 that are copied as they are: 0x20 to 0x7d except `\` and `"`, and 0x7f. */
  predicate Unescaped(b: byte)
  {
    (' ' as byte <= b <= '}' as byte && b != '\\' as byte && b != '"' as byte) || b == 0x7F
  }

  /**
   * The escape written for a byte below 0x80 that is not copied: `\\`, `\"`,
   * `\n`, `\r`, `\t`, or `\u00` and two lower-case hexadecimal digits.
   */
  function EscapeByte(b: byte): (r: seq<byte>)
    requires b < RuneSelf && !Unescaped(b)
    ensures |r| >= 2 && r[0] == '\\' as byte
  {
    if b == '\\' as byte || b == '"' as byte then ['\\' as byte, b]
    else if b == '\n' as byte then ['\\' as byte, 'n' as byte]
    else if b == '\r' as byte then ['\\' as byte, 'r' as byte]
    else if b == '\t' as byte then ['\\' as byte, 't' as byte]
    else ['\\' as byte, 'u' as byte, '0' as byte, '0' as byte, HexDigit(b as nat / 16), HexDigit(b as nat % 16)]
  }

  /**
   * What the loop of `stringToJson` writes for the byte or rune at `s[i]`,
   * and where the next one starts.
   */
  function TokenAt(s: seq<byte>, i: nat): (t: (seq<byte>, nat))
    requires i < |s|
    ensures i < t.1 <= |s|
  {
    if s[i] < RuneSelf then
      (if Unescaped(s[i]) then [s[i]] else EscapeByte(s[i]), i + 1)
    else
      var (c, size) := DecodeRune(s[i..]);
      if c == RuneError && size == 1 then (ReplacementEscape, i + 1)
      else if c == 0x2028 || c == 0x2029 then (SeparatorEscape + [HexDigit(c % 16)], i + size)
      else (s[i..i + size], i + size)
  }

  /** What the loop of `stringToJson` writes for `s[i..]`, between the quotes. */
  function EncodeFrom(s: seq<byte>, i: nat): seq<byte>
    requires i <= |s|
    decreases |s| - i
  {
    if i == |s| then [] else TokenAt(s, i).0 + EncodeFrom(s, TokenAt(s, i).1)
  }

  /** The JSON literal for `s`. */
  function Quoted(s: seq<byte>): seq<byte>
  {
    QuoteMark + EncodeFrom(s, 0) + QuoteMark
  }

  /**
   * `stringToJson(s, e)`: `*e` grows by the JSON literal for `s`. The loop
   * keeps a run `s[start..i]` of bytes still to be copied, and flushes it
   * before each escape.
   */
  method StringToJson(s: seq<byte>, e: seq<byte>) returns (out: seq<byte>)
    ensures out == e + Quoted(s)
  {
    out := e + QuoteMark;
    out := EncodeBody(s, out);
    out := out + QuoteMark;
    assert out == e + Quoted(s) by {
      assert e + QuoteMark + EncodeFrom(s, 0) + QuoteMark == e + (QuoteMark + EncodeFrom(s, 0) + QuoteMark);
    }
  }

  /** The loop of `stringToJson`: `out0` grows by the encoding of `s`, without the quotes. */
  method EncodeBody(s: seq<byte>, out0: seq<byte>) returns (out: seq<byte>)
    ensures out == out0 + EncodeFrom(s, 0)
  {
    out := out0;
    var start := 0;
    var i := 0;
    assert s[0..0] + EncodeFrom(s, 0) == EncodeFrom(s, 0);
    while i < |s|
      invariant 0 <= start <= i <= |s|
      invariant out + (s[start..i] + EncodeFrom(s, i)) == out0 + EncodeFrom(s, 0)
      decreases |s| - i
    {
      out, start, i := EncodeNext(s, out, start, i);
    }
    EncodeEnd(s, start, i);
    out := Flush(out, s, start, |s|);
    assert s[start..|s|] == s[start..];
  }

  /**
   * One turn of the loop of `stringToJson`: the byte or rune at `s[i]` joins
   * the pending run `s[start..i]`, or the run is flushed and an escape is
   * written.
   */
  method EncodeNext(s: seq<byte>, out0: seq<byte>, start0: nat, i0: nat) returns (out: seq<byte>, start: nat, i: nat)
    requires start0 <= i0 < |s|
    ensures start <= i <= |s| && i0 < i
    ensures out + (s[start..i] + EncodeFrom(s, i)) == out0 + (s[start0..i0] + EncodeFrom(s, i0))
  {
    out, start, i := out0, start0, i0;
    var b := s[i];
    if b < RuneSelf {
      if ' ' as byte <= b <= '}' as byte && b != '\\' as byte && b != '"' as byte {
        CopyByteStep(s, start, i);
        i := i + 1;
        return out, start, i;
      }
      if b == 0x7F {
        CopyByteStep(s, start, i);
        i := i + 1;
        return out, start, i;
      }
      ghost var before := out;
      out := Flush(out, s, start, i);
      out := AppendEscape(out, b);
      EscapeToken(s, i);
      FlushStep(before, s[start..i], EscapeByte(b), EncodeFrom(s, i + 1), s[i + 1..i + 1]);
      i := i + 1;
      start := i;
      return out, start, i;
  }
    var (c, size) := DecodeRune(s[i..]);
    if c == RuneError && size == 1 {
      ghost var before := out;
      out := Flush(out, s, start, i);
      out := out + ReplacementEscape;
      RuneToken(s, i, c, size, ReplacementEscape);
      FlushStep(before, s[start..i], ReplacementEscape, EncodeFrom(s, i + 1), s[i + 1..i + 1]);
      i := i + size;
      start := i;
      return out, start, i;
  }
    if c == 0x2028 || c == 0x2029 {
      ghost var before := out;
      out := Flush(out, s, start, i);
      out := out + SeparatorEscape;
      out := out + [HexDigit(c % 16)];
      ghost var esc := SeparatorEscape + [HexDigit(c % 16)];
      assert out == before + s[start..i] + esc;
      RuneToken(s, i, c, size, esc);
      FlushStep(before, s[start..i], esc, EncodeFrom(s, i + size), s[i + size..i + size]);
      i := i + size;
      start := i;
      return out, start, i;
  }
    CopyRuneStep(s, start, i, c, size);
    i := i + size;
    return out, start, i;
  }

  /** Append the pending run `s[start..i]`, when there is one. */
  method Flush(out: seq<byte>, s: seq<byte>, start: nat, i: nat) returns (r: seq<byte>)
    requires start <= i <= |s|
    ensures r == out + s[start..i]
  {
    r := out;
    if start < i {
      r := r + s[start..i];
    } else {
      assert s[start..i] == [];
    }
  }

  /** The `switch` of `stringToJson` for a byte below 0x80 that is escaped. */
  method AppendEscape(out: seq<byte>, b: byte) returns (r: seq<byte>)
    requires b < RuneSelf && !Unescaped(b)
    ensures r == out + EscapeByte(b)
  {
    r := out + ['\\' as byte];
    if b == '\\' as byte || b == '"' as byte {
      r := r + [b];
    } else if b == '\n' as byte {
      r := r + ['n' as byte];
    } else if b == '\r' as byte {
      r := r + ['r' as byte];
    } else if b == '\t' as byte {
      r := r + ['t' as byte];
    } else {
      r := r + ['u' as byte, '0' as byte, '0' as byte];
      r := r + [HexDigit(b as nat / 16)];
      r := r + [HexDigit(b as nat % 16)];
    }
  }

  /** What the loop writes for `s[i..]` is the token at `i`, then what it writes from the next one. */
  lemma EncodeToken(s: seq<byte>, i: nat, tok: seq<byte>, next: nat)
    requires i < |s| && TokenAt(s, i) == (tok, next)
    ensures EncodeFrom(s, i) == tok + EncodeFrom(s, next)
  {
  }

  /** A run of bytes copied as they are joins the pending run `s[start..i]`. */
  lemma CopyStep(s: seq<byte>, start: nat, i: nat, next: nat)
    requires start <= i < next <= |s| && TokenAt(s, i) == (s[i..next], next)
    ensures s[start..i] + EncodeFrom(s, i) == s[start..next] + EncodeFrom(s, next)
  {
    EncodeToken(s, i, s[i..next], next);
    Regroup(s[start..i], s[i..next], EncodeFrom(s, next));
    assert s[start..i] + s[i..next] == s[start..next];
  }

  /** The token of a byte below 0x80 that is escaped. */
  lemma EscapeToken(s: seq<byte>, i: nat)
    requires i < |s| && s[i] < RuneSelf && !Unescaped(s[i])
    ensures EncodeFrom(s, i) == EscapeByte(s[i]) + EncodeFrom(s, i + 1)
  {
  }

  /** The token of a rune written as an escape: U+FFFD for an invalid byte, or a separator. */
  lemma RuneToken(s: seq<byte>, i: nat, c: nat, size: nat, esc: seq<byte>)
    requires i < |s| && s[i] >= RuneSelf && DecodeRune(s[i..]) == (c, size)
    requires if c == RuneError && size == 1 then esc == ReplacementEscape
      else (c == 0x2028 || c == 0x2029) && esc == SeparatorEscape + [HexDigit(c % 16)]
    ensures i + size <= |s| && EncodeFrom(s, i) == esc + EncodeFrom(s, i + size)
  {
  }

  /** Nothing is written past the end. */
  lemma EncodeEnd(s: seq<byte>, start: nat, i: nat)
    requires start <= i == |s|
    ensures s[start..i] + EncodeFrom(s, i) == s[start..]
  {
  }

  /** A byte below 0x80 copied as it is. */
  lemma CopyByteStep(s: seq<byte>, start: nat, i: nat)
    requires start <= i < |s| && s[i] < RuneSelf && Unescaped(s[i])
    ensures s[start..i] + EncodeFrom(s, i) == s[start..i + 1] + EncodeFrom(s, i + 1)
  {
    assert [s[i]] == s[i..i + 1];
    CopyStep(s, start, i, i + 1);
  }

  /** A multi-byte rune copied as it is. */
  lemma CopyRuneStep(s: seq<byte>, start: nat, i: nat, c: nat, size: nat)
    requires start <= i < |s| && s[i] >= RuneSelf && DecodeRune(s[i..]) == (c, size)
    requires !(c == RuneError && size == 1) && c != 0x2028 && c != 0x2029
    ensures i + size <= |s|
    ensures s[start..i] + EncodeFrom(s, i) == s[start..i + size] + EncodeFrom(s, i + size)
  {
    CopyStep(s, start, i, i + size);
  }

  /** An escape: the pending run is flushed, then the escape is written, and nothing is pending after it. */
  lemma FlushStep(out0: seq<byte>, run: seq<byte>, esc: seq<byte>, rest: seq<byte>, empty: seq<byte>)
    requires empty == []
    ensures out0 + (run + (esc + rest)) == (out0 + run + esc) + (empty + rest)
  {
    assert empty + rest == rest;
  }

  lemma Regroup(a: seq<byte>, b: seq<byte>, c: seq<byte>)
    ensures a + (b + c) == (a + b) + c
  {
  }

  // ---------------------------------------------------------------------
  // A JSON reader for the characters between the quotes, the partner of the
  // encoder.

  function Prepend(a: seq<byte>, r: Option<seq<byte>>): Option<seq<byte>>
  {
    if r.Some? then Some(a + r.value) else None
  }

  /** The single-letter escapes of section 7 of RFC 8259 and the byte each stands for. */
  function ShortEscape(c: byte): Option<byte>
  {
    if c == '"' as byte || c == '\\' as byte || c == '/' as byte then Some(c)
    else if c == 'b' as byte then Some(0x08)
    else if c == 'f' as byte then Some(0x0C)
    else if c == 'n' as byte then Some(0x0A)
    else if c == 'r' as byte then Some(0x0D)
    else if c == 't' as byte then Some(0x09)
    else None
  }

  /**
   * The bytes a JSON string body stands for, UTF-8 encoded, or `None` when
   * it is not a valid body: a raw byte below 0x20, a bare `"`, an unknown
   * escape, or a `\u` escape of a lone surrogate.
   */
  function Unescape(o: seq<byte>): Option<seq<byte>>
    decreases |o|
  {
    if |o| == 0 then Some([])
    else if o[0] == '\\' as byte then
      if |o| < 2 then None
      else if ShortEscape(o[1]).Some? then Prepend([ShortEscape(o[1]).value], Unescape(o[2..]))
      else if o[1] == 'u' as byte && |o| >= 6 then
        match HexDecode4(o[2], o[3], o[4], o[5])
        case HexOk(u) => if IsSurrogate(u) then None else Prepend(Utf8Encode(u), Unescape(o[6..]))
        case HexBad(_) => None
      else None
    else if o[0] < 0x20 || o[0] == '"' as byte then None
    else Prepend([o[0]], Unescape(o[1..]))
  }

  /** What the encoder preserves of `s[i..]`: every byte, except that a byte not starting a valid sequence becomes U+FFFD. */
  function Sanitized(s: seq<byte>, i: nat): seq<byte>
    requires i <= |s|
    decreases |s| - i
  {
    if i == |s| then [] else SanitizedToken(s, i).0 + Sanitized(s, TokenAt(s, i).1)
  }

  /** What `Sanitized` keeps of the byte or rune at `s[i]`. */
  function SanitizedToken(s: seq<byte>, i: nat): (t: (seq<byte>, nat))
    requires i < |s|
  {
    if s[i] < RuneSelf then ([s[i]], i + 1)
    else
      var (c, size) := DecodeRune(s[i..]);
      if c == RuneError && size == 1 then (Utf8Encode(RuneError), i + 1)
      else (s[i..i + size], i + size)
  }

  /** `s[i..]` is well-formed UTF-8: `DecodeRune` never reports an invalid byte. */
  predicate ValidUtf8(s: seq<byte>, i: nat)
    requires i <= |s|
    decreases |s| - i
  {
    if i == |s| then true
    else if s[i] < RuneSelf then ValidUtf8(s, i + 1)
    else
      var (c, size) := DecodeRune(s[i..]);
      !(c == RuneError && size == 1) && ValidUtf8(s, i + size)
  }

  /** One byte a reader copies. */
  lemma PlainStep(o: seq<byte>)
    requires |o| > 0 && o[0] >= 0x20 && o[0] != '"' as byte && o[0] != '\\' as byte
    ensures Unescape(o) == Prepend([o[0]], Unescape(o[1..]))
  {
  }

  /** One `\u` escape of a code unit that is not a surrogate. */
  lemma UnicodeStep(o: seq<byte>, u: nat)
    requires |o| >= 6 && o[0] == '\\' as byte && o[1] == 'u' as byte
    requires HexDecode4(o[2], o[3], o[4], o[5]) == HexOk(u) && !IsSurrogate(u)
    ensures Unescape(o) == Prepend(Utf8Encode(u), Unescape(o[6..]))
  {
    assert ShortEscape(o[1]).None?;
  }

  lemma PrependTwice(a: seq<byte>, b: seq<byte>, r: Option<seq<byte>>)
    ensures Prepend(a, Prepend(b, r)) == Prepend(a + b, r)
  {
    if r.Some? {
      assert a + (b + r.value) == (a + b) + r.value;
    }
  }

  /** The first `n` bytes of `o` are copied one by one: none of them starts an escape or is refused. */
  lemma {:induction false} CopyRun(o: seq<byte>, n: nat)
    requires n <= |o| && forall k :: 0 <= k < n ==> o[k] >= 0x20 && o[k] != '"' as byte && o[k] != '\\' as byte
    ensures Unescape(o) == Prepend(o[..n], Unescape(o[n..]))
    decreases n
  {
    if n == 0 {
      assert o[n..] == o && o[..n] == [];
      var u := Unescape(o);
      if u.Some? {
        assert [] + u.value == u.value;
      }
    } else {
      PlainStep(o);
      var t := o[1..];
      CopyRun(t, n - 1);
      assert t[n - 1..] == o[n..];
      assert [o[0]] + t[..n - 1] == o[..n];
      PrependTwice([o[0]], t[..n - 1], Unescape(o[n..]));
    }
  }

  /** Bytes a reader copies one by one, in front of `rest`. */
  lemma CopyThrough(a: seq<byte>, rest: seq<byte>)
    requires forall k :: 0 <= k < |a| ==> a[k] >= 0x20 && a[k] != '"' as byte && a[k] != '\\' as byte
    ensures Unescape(a + rest) == Prepend(a, Unescape(rest))
  {
    var x := a + rest;
    CopyRun(x, |a|);
    assert x[..|a|] == a && x[|a|..] == rest;
  }

  /** The escape of a byte below 0x80 reads back as that byte. */
  lemma EscapeByteReads(b: byte, rest: seq<byte>)
    requires b < RuneSelf && !Unescaped(b)
    ensures Unescape(EscapeByte(b) + rest) == Prepend([b], Unescape(rest))
  {
    var x := EscapeByte(b) + rest;
    if b == '\\' as byte || b == '"' as byte || b == '\n' as byte || b == '\r' as byte || b == '\t' as byte {
      assert x[1] == EscapeByte(b)[1] && x[2..] == rest;
    } else {
      var h := HexEncode4(b as nat);
      assert h == [HexDigit(0), HexDigit(0), HexDigit(b as nat / 16), HexDigit(b as nat % 16)];
      HexRoundTrip(b as nat);
      assert x[1] == 'u' as byte && x[2..6] == h && x[6..] == rest;
    }
  }

  /** `\ufffd` reads back as the UTF-8 bytes of U+FFFD. */
  lemma ReplacementReads(rest: seq<byte>)
    ensures Unescape(ReplacementEscape + rest) == Prepend(Utf8Encode(RuneError), Unescape(rest))
  {
    var x := ReplacementEscape + rest;
    HexRoundTrip(RuneError);
    assert x[1] == 'u' as byte && x[2..6] == HexEncode4(RuneError) && x[6..] == rest;
    UnicodeStep(x, RuneError);
  }

  /** A three-byte sequence that decodes to U+2028 or U+2029 is exactly the UTF-8 encoding of that rune. */
  lemma SeparatorBytes(t: seq<byte>, c: nat)
    requires |t| > 0 && t[0] >= RuneSelf && DecodeRune(t) == (c, 3) && (c == 0x2028 || c == 0x2029)
    ensures t[..3] == Utf8Encode(c)
  {
    assert 0xE0 <= t[0] < 0xF0 && Continuation(t[1]) && Continuation(t[2]);
    var a, b, d := t[0] as nat % 16, t[1] as nat % 64, t[2] as nat % 64;
    assert a * 4096 + b * 64 + d == c;
    assert a == 2 && b == 0 && d == c - 0x2000;
  }

  /** `\u2028` and `\u2029` read back as the UTF-8 bytes of the separator. */
  lemma SeparatorReads(c: nat, rest: seq<byte>)
    requires c == 0x2028 || c == 0x2029
    ensures Unescape(SeparatorEscape + [HexDigit(c % 16)] + rest) == Prepend(Utf8Encode(c), Unescape(rest))
  {
    var x := SeparatorEscape + [HexDigit(c % 16)] + rest;
    HexRoundTrip(c);
    assert x[1] == 'u' as byte && x[2..6] == HexEncode4(c) && x[6..] == rest;
    UnicodeStep(x, c);
  }

  /**
   * Reading back what the encoder writes gives the input, with each byte
   * that does not start a valid UTF-8 sequence replaced by U+FFFD; in
   * particular the output is always a valid JSON string body.
   */
  lemma {:induction false} EncodeRoundTrip(s: seq<byte>, i: nat)
    requires i <= |s|
    ensures Unescape(EncodeFrom(s, i)) == Some(Sanitized(s, i))
    decreases |s| - i
  {
    if i < |s| {
      var next := TokenAt(s, i).1;
      EncodeRoundTrip(s, next);
      TokenReads(s, i, EncodeFrom(s, next));
    }
  }

  /** The token written for `s[i]` reads back as what `Sanitized` keeps of it. */
  lemma TokenReads(s: seq<byte>, i: nat, rest: seq<byte>)
    requires i < |s|
    ensures Unescape(TokenAt(s, i).0 + rest) == Prepend(SanitizedToken(s, i).0, Unescape(rest))
  {
    if s[i] < RuneSelf {
      if Unescaped(s[i]) {
        CopyThrough([s[i]], rest);
      } else {
        EscapeByteReads(s[i], rest);
      }
    } else {
      var (c, size) := DecodeRune(s[i..]);
      if c == RuneError && size == 1 {
        ReplacementReads(rest);
      } else if c == 0x2028 || c == 0x2029 {
        SeparatorBytes(s[i..], c);
        assert s[i..][..3] == s[i..i + 3];
        SeparatorReads(c, rest);
      } else {
        assert forall k :: 0 <= k < size ==> s[i..i + size][k] == s[i..][k];
        CopyThrough(s[i..i + size], rest);
      }
    }
  }

  /** On well-formed UTF-8 nothing is replaced. */
  lemma {:induction false} SanitizedValid(s: seq<byte>, i: nat)
    requires i <= |s| && ValidUtf8(s, i)
    ensures Sanitized(s, i) == s[i..]
    decreases |s| - i
  {
    if i < |s| {
      if s[i] < RuneSelf {
        SanitizedValid(s, i + 1);
        assert s[i..] == [s[i]] + s[i + 1..];
      } else {
        var (c, size) := DecodeRune(s[i..]);
        SanitizedValid(s, i + size);
        assert s[i..] == s[i..i + size] + s[i + size..];
      }
    }
  }

  /** A JSON reader recovers every well-formed UTF-8 string from the literal `stringToJson` writes. */
  lemma QuotedRoundTrip(s: seq<byte>)
    requires ValidUtf8(s, 0)
    ensures var q := Quoted(s);
      q[0] == '"' as byte && q[|q| - 1] == '"' as byte && Unescape(q[1..|q| - 1]) == Some(s)
  {
    EncodeRoundTrip(s, 0);
    SanitizedValid(s, 0);
    assert Quoted(s)[1..|Quoted(s)| - 1] == EncodeFrom(s, 0);
  }

  /** `~` (0x7e) lies above `}` and is written as `\u007e`. */
  lemma TildeEscaped()
    ensures EncodeFrom(['~' as byte], 0) == Str("\\u007e")
  {
    assert !Unescaped('~' as byte);
  }
}
