/**
 * The lexical layer of the query parser (query_parser.go), stated as pure
 * scanning functions over the query text: where a run of ignored tokens
 * ends, where a name ends, which keyword `matches` picks, how far a number
 * reaches and whether it is a float, and what a string literal denotes.
 * The parser's methods in query_parser.dfy are proved to agree with them.
 */
module QueryLexer {
  import opened Wrappers
  import opened Bytes
  import opened Unicode
  import opened SchemaNames
  import opened BytecodeLexer

  /** `ErrorUnexpectedEOF`. */
  const EofMsg: seq<byte> := Str("unexpected EOF")

  // ---------------------------------------------------------------- ignored tokens

  /** `isUnicodeBom`: the parser compares one byte with U+FEFF, which no byte equals. */
  predicate IsUnicodeBom(c: byte)
  {
    c as int == 0xFEFF
  }

  /** `isWhiteSpace`: a space or a tab. */
  predicate IsWhiteSpace(c: byte)
  {
    c == ' ' as byte || c == '\t' as byte
  }

  /** The bytes that start an ignored token. */
  predicate StartsIgnored(c: byte)
  {
    IsUnicodeBom(c) || IsWhiteSpace(c) || c == '\n' as byte || c == '\r' as byte || c == '#' as byte
  }

  /**
   * Where `parseComment` stops when it starts at `at`: on the line terminator
   * that ends the comment (on the `\n` of a `\r\n`), or at the end of the input.
   */
  function CommentEnd(d: seq<byte>, at: nat): (e: nat)
    requires at <= |d|
    ensures at <= e <= |d|
    ensures e < |d| ==> d[e] == '\n' as byte || d[e] == '\r' as byte
    decreases |d| - at
  {
    if at == |d| then at
    else if d[at] == '\n' as byte then at
    else if d[at] == '\r' as byte then (if at + 1 < |d| && d[at + 1] == '\n' as byte then at + 1 else at)
    else CommentEnd(d, at + 1)
  }

  /**
   * The position after the ignored tokens starting at `at`: white space, line
   * terminators (`\r\n` counts once) and comments. A comment that reaches the
   * end of the input leaves the position one past the end.
   */
  function SkipIgnored(d: seq<byte>, at: nat): (r: nat)
    requires at <= |d| + 1
    ensures at <= r <= |d| + 1
    ensures r < |d| ==> !StartsIgnored(d[r])
    ensures at < |d| && !StartsIgnored(d[at]) ==> r == at
    decreases |d| + 1 - at
  {
    if at >= |d| then at
    else
      var c := d[at];
      if IsUnicodeBom(c) || IsWhiteSpace(c) || c == '\n' as byte then SkipIgnored(d, at + 1)
      else if c == '\r' as byte then SkipIgnored(d, if at + 1 < |d| && d[at + 1] == '\n' as byte then at + 2 else at + 1)
      else if c == '#' as byte then SkipIgnored(d, CommentEnd(d, at) + 1)
      else at
  }

  /** A position that is not inside ignored tokens stays where it is. */
  lemma SkipIgnoredIdempotent(d: seq<byte>, at: nat)
    requires at <= |d| + 1
    ensures SkipIgnored(d, SkipIgnored(d, at)) == SkipIgnored(d, at)
  {
  }

  // ---------------------------------------------------------------- names

  /** The end of the run of name characters starting at `i`. */
  function RunEnd(d: seq<byte>, i: nat): (e: nat)
    requires i <= |d|
    ensures i <= e <= |d| && (e < |d| ==> !IsNameChar(d[e]))
    ensures forall k :: i <= k < e ==> IsNameChar(d[k])
    decreases |d| - i
  {
    if i < |d| && IsNameChar(d[i]) then RunEnd(d, i + 1) else i
  }

  /** The end of the longest name starting at `at`; `at` itself when no name starts there. */
  function NameEnd(d: seq<byte>, at: nat): (e: nat)
    ensures at <= e && (at <= |d| ==> e <= |d|)
  {
    if at < |d| && IsNameStart(d[at]) then RunEnd(d, at + 1) else at
  }

  /** What lies between `at` and `NameEnd` is a name, it cannot be extended, and it is empty only where no name starts. */
  lemma NameEndIsLongestName(d: seq<byte>, at: nat)
    requires at <= |d|
    ensures var e := NameEnd(d, at);
      (e > at ==> IsName(d[at..e])) && (e < |d| ==> !IsNameChar(d[e]) || e == at)
      && (e == at <==> at == |d| || !IsNameStart(d[at]))
  {
    var e := NameEnd(d, at);
    if e > at {
      assert forall k :: 1 <= k < e - at ==> d[at..e][k] == d[at + k];
    }
  }

  // ---------------------------------------------------------------- keywords

  /** Whether the nonempty `key` is spelt at `at`. */
  predicate KeyAt(d: seq<byte>, at: nat, key: seq<byte>)
  {
    0 < |key| && at + |key| <= |d| && d[at..at + |key|] == key
  }

  // ---------------------------------------------------------------- numbers

  /** The `digit` table of `parseNumberValue`. */
  predicate IsDecimalDigit(c: byte)
  {
    '0' as byte <= c <= '9' as byte
  }

  /** The first position at or after `i` that does not hold a digit. */
  function DigitsEnd(d: seq<byte>, i: nat): (e: nat)
    requires i <= |d|
    ensures i <= e <= |d| && (e < |d| ==> !IsDecimalDigit(d[e]))
    ensures forall k :: i <= k < e ==> IsDecimalDigit(d[k])
    decreases |d| - i
  {
    if i < |d| && IsDecimalDigit(d[i]) then DigitsEnd(d, i + 1) else i
  }

  /** How a number starting at some position scans: up to `end` and an int or a float, or an error. */
  datatype NumScan = NumOk(end: nat, isFloat: bool) | NumErr(msg: seq<byte>)

  const NotNumberMsg: seq<byte> := Str("not a valid int or float")
  const NotFloatMsg: seq<byte> := Str("not a valid float")

  predicate IsFloatMark(c: byte)
  {
    c == '.' as byte || c == 'e' as byte || c == 'E' as byte
  }

  /**
   * The number grammar of the parser, read from `start`: an optional `-`, an
   * integer part that is `0` or a non-zero digit and digits, an optional
   * fraction `.digits`, an optional exponent `e`/`E`, sign, digits. The number
   * must be followed by some byte: the end of the input is an error.
   */
  function ScanNumber(d: seq<byte>, start: nat): (r: NumScan)
    requires start < |d|
    ensures r.NumOk? ==> start < r.end < |d|
  {
    Unsigned(d, if d[start] == '-' as byte then start + 1 else start)
  }

  /** A number after its optional `-`, from `a` on. */
  function Unsigned(d: seq<byte>, a: nat): (r: NumScan)
    requires a <= |d|
    ensures r.NumOk? ==> a < r.end < |d|
  {
    if a >= |d| then NumErr(EofMsg)
    else if d[a] == '0' as byte then AfterInteger(d, a + 1)
    else if IsDecimalDigit(d[a]) then AfterInteger(d, DigitsEnd(d, a))
    else NumErr(NotNumberMsg)
  }

  /** The rest of a number whose integer part ends at `i`. */
  function AfterInteger(d: seq<byte>, i: nat): (r: NumScan)
    requires i <= |d|
    ensures r.NumOk? ==> i <= r.end < |d|
  {
    if i >= |d| then NumErr(EofMsg)
    else if d[i] == '.' as byte then
      if i + 1 >= |d| then NumErr(EofMsg)
      else if !IsDecimalDigit(d[i + 1]) then NumErr(NotFloatMsg)
      else
        var f := DigitsEnd(d, i + 1);
        if f >= |d| then NumErr(EofMsg) else Exponent(d, f, true)
    else Exponent(d, i, false)
  }

  /** The optional exponent at `i`, after a mantissa that had a fraction when `fraction` holds. */
  function Exponent(d: seq<byte>, i: nat, fraction: bool): (r: NumScan)
    requires i < |d|
    ensures r.NumOk? ==> i <= r.end < |d|
  {
    if d[i] != 'e' as byte && d[i] != 'E' as byte then NumOk(i, fraction)
    else
      var j := if i + 1 < |d| && (d[i + 1] == '+' as byte || d[i + 1] == '-' as byte) then i + 2 else i + 1;
      if j >= |d| then NumErr(EofMsg)
      else if !IsDecimalDigit(d[j]) then NumErr(NotFloatMsg)
      else
        var k := DigitsEnd(d, j);
        if k >= |d| then NumErr(EofMsg) else NumOk(k, true)
  }

  /** After the integer part, the number is a float exactly when a `.`, `e` or `E` follows it, and then it goes on past it. */
  lemma AfterIntegerFloat(d: seq<byte>, i: nat)
    requires i <= |d| && AfterInteger(d, i).NumOk?
    ensures var r := AfterInteger(d, i);
      i < |d| && (r.isFloat <==> IsFloatMark(d[i])) && (r.isFloat ==> i < r.end) && (!r.isFloat ==> r.end == i)
  {
  }

  /** A scanned number is an int exactly when its text holds none of `.`, `e`, `E`; it is never empty and never ends the input. */
  lemma {:induction false} FloatIffMarked(d: seq<byte>, start: nat)
    requires start < |d| && ScanNumber(d, start).NumOk?
    ensures var r := ScanNumber(d, start);
      start < r.end < |d|
      && (r.isFloat <==> exists k :: start <= k < r.end && IsFloatMark(d[k]))
  {
    var r := ScanNumber(d, start);
    var a := if d[start] == '-' as byte then start + 1 else start;
    var i := if d[a] == '0' as byte then a + 1 else DigitsEnd(d, a);
    assert r == AfterInteger(d, i);
    AfterIntegerFloat(d, i);
    assert forall k :: start <= k < i ==> !IsFloatMark(d[k]) by {
      forall k | start <= k < i ensures !IsFloatMark(d[k]) {
        if k >= a {
          assert IsDecimalDigit(d[k]);
        }
      }
    }
    if r.isFloat {
      assert IsFloatMark(d[i]);
    }
  }

  /** An int scans as an optional `-` and digits without a leading zero. */
  lemma IntegerShape(d: seq<byte>, start: nat)
    requires start < |d| && ScanNumber(d, start).NumOk? && !ScanNumber(d, start).isFloat
    ensures var e := ScanNumber(d, start).end;
      var a := if d[start] == '-' as byte then start + 1 else start;
      a < e && (forall k :: a <= k < e ==> IsDecimalDigit(d[k])) && (e - a > 1 ==> d[a] != '0' as byte)
  {
  }

  /** The exponent at `i` has no digit after its optional sign, and the input goes on there. */
  predicate ExponentDigitMissing(d: seq<byte>, i: nat)
  {
    var j := if i + 1 < |d| && (d[i + 1] == '+' as byte || d[i + 1] == '-' as byte) then i + 2 else i + 1;
    j < |d| && !IsDecimalDigit(d[j])
  }

  /**
   * With the integer part of the number at `start` ending at `i`: a `.` not
   * followed by a digit, and an `e` or `E` (after the integer part or after
   * the fraction) whose optional sign is not followed by a digit, make the
   * number "not a valid float".
   */
  lemma NotFloatCases(d: seq<byte>, start: nat, i: nat)
    requires start < |d|
    requires var a := if d[start] == '-' as byte then start + 1 else start;
      a < |d| && IsDecimalDigit(d[a]) && i == (if d[a] == '0' as byte then a + 1 else DigitsEnd(d, a))
    ensures i + 1 < |d| && d[i] == '.' as byte && !IsDecimalDigit(d[i + 1]) ==> ScanNumber(d, start) == NumErr(NotFloatMsg)
    ensures i < |d| && (d[i] == 'e' as byte || d[i] == 'E' as byte) && ExponentDigitMissing(d, i) ==> ScanNumber(d, start) == NumErr(NotFloatMsg)
    ensures i + 1 < |d| && d[i] == '.' as byte && IsDecimalDigit(d[i + 1]) ==>
      var f := DigitsEnd(d, i + 1);
      f < |d| && (d[f] == 'e' as byte || d[f] == 'E' as byte) && ExponentDigitMissing(d, f) ==> ScanNumber(d, start) == NumErr(NotFloatMsg)
  {
    IntegerPartThen(d, start, i);
    if i + 1 < |d| && d[i] == '.' as byte && IsDecimalDigit(d[i + 1]) {
      var f := DigitsEnd(d, i + 1);
      if f < |d| && (d[f] == 'e' as byte || d[f] == 'E' as byte) && ExponentDigitMissing(d, f) {
        ExponentNeedsDigit(d, f, true);
      }
    } else if i < |d| && (d[i] == 'e' as byte || d[i] == 'E' as byte) && ExponentDigitMissing(d, i) {
      ExponentNeedsDigit(d, i, false);
    }
  }

  /** After its optional `-` and its integer part, ending at `i`, a number reads on as `AfterInteger` from `i`. */
  lemma IntegerPartThen(d: seq<byte>, start: nat, i: nat)
    requires start < |d|
    requires var a := if d[start] == '-' as byte then start + 1 else start;
      a < |d| && IsDecimalDigit(d[a]) && i == (if d[a] == '0' as byte then a + 1 else DigitsEnd(d, a))
    ensures ScanNumber(d, start) == AfterInteger(d, i)
  {
  }

  /** An exponent mark at `i` without a digit after its optional sign is "not a valid float". */
  lemma ExponentNeedsDigit(d: seq<byte>, i: nat, fraction: bool)
    requires i < |d| && (d[i] == 'e' as byte || d[i] == 'E' as byte) && ExponentDigitMissing(d, i)
    ensures Exponent(d, i, fraction) == NumErr(NotFloatMsg)
  {
  }

  /** The value `strconv.Atoi` gives the text of an int. */
  function IntText(lexeme: seq<byte>): int
  {
    if |lexeme| > 0 && lexeme[0] == '-' as byte then -DecimalValue(lexeme[1..]) else DecimalValue(lexeme)
  }

  const TWO_63: int := 0x8000_0000_0000_0000

  /** `strconv.Atoi` fails on a number outside Go's 64-bit `int`. */
  predicate FitsInt64(v: int)
  {
    -TWO_63 <= v < TWO_63
  }

  // ---------------------------------------------------------------- strings

  /** How a string scans: up to `end` with the bytes it denotes, or an error. */
  datatype StrScan = StrOk(end: nat, value: seq<byte>) | StrErr(msg: seq<byte>)

  const NewlineMsg: seq<byte> := Str("carriage return and new lines not allowed in a string, to use these characters use a block string")
  const TripleQuote: seq<byte> := Str("\"\"\"")

  /** The byte a one-letter escape stands for: `\b \f \n \r \t`, and any other byte for itself. */
  function EscapedByte(c: byte): byte
  {
    if c == 'b' as byte then 0x08
    else if c == 'f' as byte then 0x0C
    else if c == 'n' as byte then 0x0A
    else if c == 'r' as byte then 0x0D
    else if c == 't' as byte then 0x09
    else c
  }

  predicate AllHex(s: seq<byte>)
  {
    forall i :: 0 <= i < |s| ==> IsHexDigit(s[i])
  }

  /**
   * The bytes of `\uXXXX`: nothing for `0000`, the byte `XX` itself for
   * `00XX`, otherwise the UTF-8 encoding of the code unit.
   */
  function UnicodeBytes(u: seq<byte>): (r: seq<byte>)
    requires |u| == 4 && AllHex(u)
  {
    if u[0] == '0' as byte && u[1] == '0' as byte then
      if u[2] == '0' as byte && u[3] == '0' as byte then []
      else [(16 * HexValue(u[2]) + HexValue(u[3])) as byte]
    else
      Utf8Encode(4096 * HexValue(u[0]) + 256 * HexValue(u[1]) + 16 * HexValue(u[2]) + HexValue(u[3]))
  }

  /**
   * The escape after `\u`, read from `j` with the hexadecimal digits `chars`
   * already taken: where reading goes on and what it appends, or `None` at
   * the end of the input. A byte that is not a hexadecimal digit ends the
   * escape without being consumed, and `u` and the digits taken are kept.
   */
  function UnicodeEscape(d: seq<byte>, j: nat, chars: seq<byte>): (r: Option<(nat, seq<byte>)>)
    requires |chars| < 4 && AllHex(chars)
    ensures r.Some? ==> j <= r.value.0 <= |d|
    decreases 4 - |chars|
  {
    if j >= |d| then None
    else if !IsHexDigit(d[j]) then Some((j, ['u' as byte] + chars))
    else
      var cs := chars + [d[j]];
      if |cs| == 4 then Some((j + 1, UnicodeBytes(cs))) else UnicodeEscape(d, j + 1, cs)
  }

  /**
   * The string body read from `i` with `acc` denoted so far. A plain string
   * ends at the next unescaped `"` and may not hold a raw line break; a block
   * string ends at `"""` and its content loses surrounding white space.
   * Escapes are read in both.
   */
  function ScanString(d: seq<byte>, i: nat, isBlock: bool, acc: seq<byte>): (r: StrScan)
    ensures r.StrOk? ==> i < r.end <= |d|
    decreases |d| - i
  {
    if i >= |d| then StrErr(EofMsg)
    else
      var c := d[i];
      if c == '"' as byte then
        if !isBlock then StrOk(i + 1, acc)
        else if i + 1 >= |d| then StrErr(EofMsg)
        else if d[i + 1] != '"' as byte then ScanString(d, i + 1, true, acc + [c])
        else if i + 2 >= |d| then StrErr(EofMsg)
        else if d[i + 2] == '"' as byte then StrOk(i + 3, TrimSpace(acc))
        else ScanString(d, i + 2, true, acc + [c, c])
      else if c == '\r' as byte || c == '\n' as byte then
        if !isBlock then StrErr(NewlineMsg) else ScanString(d, i + 1, true, acc + [c])
      else if c == '\\' as byte then
        if i + 1 >= |d| then StrErr(EofMsg)
        else if d[i + 1] == 'u' as byte then
          match UnicodeEscape(d, i + 2, [])
          case None => StrErr(EofMsg)
          case Some(p) => ScanString(d, p.0, isBlock, acc + p.1)
        else ScanString(d, i + 2, isBlock, acc + [EscapedByte(d[i + 1])])
      else ScanString(d, i + 1, isBlock, acc + [c])
  }

  /**
   * A raw carriage return or line feed reached in a plain string before any
   * quote or backslash is an error: such breaks need a block string.
   */
  lemma {:induction false} PlainLineBreakRejected(d: seq<byte>, i: nat, acc: seq<byte>, j: nat)
    requires i <= j < |d| && (d[j] == '\r' as byte || d[j] == '\n' as byte)
    requires forall k :: i <= k < j ==> d[k] != '"' as byte && d[k] != '\\' as byte && d[k] != '\r' as byte && d[k] != '\n' as byte
    ensures ScanString(d, i, false, acc) == StrErr(NewlineMsg)
    decreases j - i
  {
    if i < j {
      PlainLineBreakRejected(d, i + 1, acc + [d[i]], j);
    }
  }

  /**
   * A block string whose content up to `"""` holds no quote and no
   * backslash denotes that content, line breaks included, with the white
   * space around it trimmed.
   */
  lemma {:induction false} BlockStringTrimmed(d: seq<byte>, i: nat, acc: seq<byte>, j: nat)
    requires i <= j && j + 3 <= |d| && d[j..j + 3] == TripleQuote
    requires forall k :: i <= k < j ==> d[k] != '"' as byte && d[k] != '\\' as byte
    ensures ScanString(d, i, true, acc) == StrOk(j + 3, TrimSpace(acc + d[i..j]))
    decreases j - i
  {
    assert d[j] == '"' as byte && d[j + 1] == '"' as byte && d[j + 2] == '"' as byte by {
      assert d[j..j + 3][0] == d[j] && d[j..j + 3][1] == d[j + 1] && d[j..j + 3][2] == d[j + 2];
    }
    if i == j {
      assert acc + d[i..j] == acc;
    } else {
      BlockStringTrimmed(d, i + 1, acc + [d[i]], j);
      assert acc + [d[i]] + d[i + 1..j] == acc + d[i..j];
    }
  }

  /**
   * A backslash before any byte but `u` stands for one byte: `\b`, `\f`,
   * `\n`, `\r`, `\t` for backspace, form feed, line feed, carriage return
   * and tab, and any other byte for itself; reading goes on after the pair.
   */
  lemma OneByteEscape(d: seq<byte>, i: nat, isBlock: bool, acc: seq<byte>)
    requires i + 1 < |d| && d[i] == '\\' as byte && d[i + 1] != 'u' as byte
    ensures var c := d[i + 1];
      var b := if c == 'b' as byte then 0x08 else if c == 'f' as byte then 0x0C
        else if c == 'n' as byte then 0x0A else if c == 'r' as byte then 0x0D
        else if c == 't' as byte then 0x09 else c;
      ScanString(d, i, isBlock, acc) == ScanString(d, i + 2, isBlock, acc + [b])
  {
  }

  /** The escaped form of one byte in a plain string: quote, backslash and line breaks get a backslash. */
  function EscapeByte(c: byte): seq<byte>
  {
    if c == '"' as byte then ['\\' as byte, '"' as byte]
    else if c == '\\' as byte then ['\\' as byte, '\\' as byte]
    else if c == '\n' as byte then ['\\' as byte, 'n' as byte]
    else if c == '\r' as byte then ['\\' as byte, 'r' as byte]
    else [c]
  }

  /** Escaping for a plain string, byte by byte. */
  function Escape(s: seq<byte>): seq<byte>
  {
    if |s| == 0 then [] else EscapeByte(s[0]) + Escape(s[1..])
  }

  /** A plain string body written by `Escape` and closed by `"` reads back as the bytes escaped. */
  lemma {:induction false} EscapeRoundTrip(d: seq<byte>, i: nat, s: seq<byte>, acc: seq<byte>)
    requires i + |Escape(s)| < |d| && d[i..i + |Escape(s)|] == Escape(s) && d[i + |Escape(s)|] == '"' as byte
    ensures ScanString(d, i, false, acc) == StrOk(i + |Escape(s)| + 1, acc + s)
    decreases s
  {
    if |s| == 0 {
      assert d[i] == '"' as byte;
    } else {
      var head := EscapeByte(s[0]);
      var tail := Escape(s[1..]);
      var n := |head|;
      assert Escape(s) == head + tail;
      assert d[i..i + n] == head by {
        assert d[i..i + n] == d[i..i + n + |tail|][..n];
      }
      assert d[i + n..i + n + |tail|] == tail by {
        assert d[i + n..i + n + |tail|] == d[i..i + n + |tail|][n..];
      }
      EscapeByteScans(d, i, s[0], acc);
      EscapeRoundTrip(d, i + n, s[1..], acc + [s[0]]);
      assert acc + [s[0]] + s[1..] == acc + s;
    }
  }

  /** One escaped byte of a plain string reads back as that byte. */
  lemma EscapeByteScans(d: seq<byte>, i: nat, c: byte, acc: seq<byte>)
    requires i + |EscapeByte(c)| <= |d| && d[i..i + |EscapeByte(c)|] == EscapeByte(c)
    ensures ScanString(d, i, false, acc) == ScanString(d, i + |EscapeByte(c)|, false, acc + [c])
  {
    var head := EscapeByte(c);
    assert d[i] == head[0] by {
      assert d[i..i + |head|][0] == head[0];
    }
    if |head| == 2 {
      assert d[i + 1] == head[1] by {
        assert d[i..i + |head|][1] == head[1];
      }
    }
  }
}
