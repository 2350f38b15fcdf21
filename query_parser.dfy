/**
 * The query parser (query_parser.go): an iterator over the query text whose
 * position `charNr` its methods advance. Each method returns what it parsed
 * and an error message, as the Go methods return a value and an `error`;
 * what a method returns next to an error is not specified here. The
 * lexical methods are proved against the scanning functions of QueryLexer;
 * the grammar methods state the shapes they accept and that everything they
 * build is well named (QueryAst).
 */
module QueryParser {
  import opened Wrappers
  import opened Bytes
  import opened Kinds
  import opened InputValue
  import opened BytecodeLexer
  import opened QueryLexer
  import opened QueryAst
  import opened Unicode
  import opened SchemaNames

  /** What parsing a literal value gives: the value and where it ends, or an error message. */
  datatype Literal = Lit(value: Value, end: nat) | LitErr(msg: seq<byte>)

  const IntErrorMsg: seq<byte> := Str("unable to parse int")
  const FloatErrorMsg: seq<byte> := Str("unable to parse float")

  /**
   * The `res` closure of `parseNumberValue` on the number's text: an int is
   * read by `strconv.Atoi`, which fails outside 64 bits; a float by
   * `parseFloat`, standing for `strconv.ParseFloat`.
   */
  function ReadNumber(lexeme: seq<byte>, isFloat: bool, parseFloat: seq<byte> -> Option<real>): Option<Value>
  {
    if !isFloat then
      if FitsInt64(IntText(lexeme)) then Some(MakeIntValue(IntText(lexeme))) else None
    else
      match parseFloat(lexeme)
      case None => None
      case Some(f) => Some(MakeFloatValue(f))
  }

  /** A number literal at `start`: its value and end, or the error of the scan or of the conversion. */
  function NumberLiteral(d: seq<byte>, start: nat, parseFloat: seq<byte> -> Option<real>): (r: Literal)
    requires start < |d|
    ensures r.Lit? ==> start < r.end < |d|
  {
    match ScanNumber(d, start)
    case NumErr(m) => LitErr(m)
    case NumOk(e, isFloat) =>
      match ReadNumber(d[start..e], isFloat, parseFloat)
      case None => LitErr(if isFloat then FloatErrorMsg else IntErrorMsg)
      case Some(v) => Lit(v, e)
  }

  /** The text `strconv.Itoa` gives an int: a `-` when it is negative, then its decimal digits. */
  function IntLexeme(i: int): (r: seq<byte>)
    ensures |r| > 0
  {
    if i < 0 then ['-' as byte] + Decimal(-i) else Decimal(i)
  }

  /** A run of digits from `a` up to a byte that is not one ends where `DigitsEnd` says. */
  lemma DigitsEndOfRun(d: seq<byte>, a: nat, e: nat)
    requires a <= e < |d| && (forall k :: a <= k < e ==> IsDecimalDigit(d[k])) && !IsDecimalDigit(d[e])
    ensures DigitsEnd(d, a) == e
    decreases e - a
  {
    if a < e {
      DigitsEndOfRun(d, a + 1, e);
    }
  }

  /** `strconv.Atoi` reads back what `strconv.Itoa` writes. */
  lemma IntTextOfLexeme(i: int)
    ensures IntText(IntLexeme(i)) == i
  {
    if i < 0 {
      assert IntLexeme(i)[1..] == Decimal(-i);
    }
  }

  /** The text of an int followed by a byte that cannot continue a number scans as that int's text. */
  lemma ScanOfIntLexeme(d: seq<byte>, start: nat, i: int)
    requires start + |IntLexeme(i)| < |d| && d[start..start + |IntLexeme(i)|] == IntLexeme(i)
    requires !IsDecimalDigit(d[start + |IntLexeme(i)|]) && !IsFloatMark(d[start + |IntLexeme(i)|])
    ensures ScanNumber(d, start) == NumOk(start + |IntLexeme(i)|, false)
  {
    var e := start + |IntLexeme(i)|;
    var digits := Decimal(if i < 0 then -i else i);
    var a := if i < 0 then start + 1 else start;
    DigitsOfLexeme(d, start, i);
    DigitsInSlice(d, a, e, digits);
    ScanOfDigits(d, a, e);
  }

  /** Where the text of an int lies in the input: its sign at `start`, if any, then its digits. */
  lemma DigitsOfLexeme(d: seq<byte>, start: nat, i: int)
    requires start + |IntLexeme(i)| <= |d| && d[start..start + |IntLexeme(i)|] == IntLexeme(i)
    ensures var a := if i < 0 then start + 1 else start;
      a <= start + |IntLexeme(i)| && d[a..start + |IntLexeme(i)|] == Decimal(if i < 0 then -i else i)
      && (d[start] == '-' as byte <==> i < 0)
  {
    var lex := IntLexeme(i);
    var e := start + |lex|;
    var digits := Decimal(if i < 0 then -i else i);
    var sign: seq<byte> := if i < 0 then ['-' as byte] else [];
    assert lex == sign + digits;
    assert d[start] == lex[0] by {
      assert d[start..e][0] == lex[0];
    }
    assert d[start + |sign|..e] == d[start..e][|sign|..];
    assert (sign + digits)[|sign|..] == digits;
  }

  /** A slice equal to an int's decimal digits holds digits only, and no leading zero. */
  lemma DigitsInSlice(d: seq<byte>, a: nat, e: nat, digits: seq<byte>)
    requires a <= e <= |d| && d[a..e] == digits && |digits| > 0 && (|digits| > 1 ==> digits[0] != '0' as byte)
    requires forall k :: 0 <= k < |digits| ==> '0' as byte <= digits[k] <= '9' as byte
    ensures a < e && (forall k :: a <= k < e ==> IsDecimalDigit(d[k])) && (e - a > 1 ==> d[a] != '0' as byte)
  {
    assert d[a] == d[a..e][0];
    forall k | a <= k < e
      ensures IsDecimalDigit(d[k])
    {
      assert d[k] == d[a..e][k - a];
    }
  }

  /** An int's digits, with no leading zero, followed by a byte that cannot continue a number. */
  lemma ScanOfDigits(d: seq<byte>, a: nat, e: nat)
    requires a < e < |d| && (forall k :: a <= k < e ==> IsDecimalDigit(d[k])) && (e - a > 1 ==> d[a] != '0' as byte)
    requires !IsDecimalDigit(d[e]) && !IsFloatMark(d[e])
    ensures Unsigned(d, a) == NumOk(e, false)
  {
    if d[a] == '0' as byte {
      assert Unsigned(d, a) == AfterInteger(d, a + 1);
    } else {
      DigitsEndOfRun(d, a, e);
    }
  }

  /**
   * Every 64-bit int, written as `strconv.Itoa` writes it and followed by a
   * byte that cannot continue a number, parses back as that int.
   */
  lemma IntLiteralRoundTrip(d: seq<byte>, start: nat, i: int, parseFloat: seq<byte> -> Option<real>)
    requires FitsInt64(i)
    requires start + |IntLexeme(i)| < |d| && d[start..start + |IntLexeme(i)|] == IntLexeme(i)
    requires !IsDecimalDigit(d[start + |IntLexeme(i)|]) && !IsFloatMark(d[start + |IntLexeme(i)|])
    ensures NumberLiteral(d, start, parseFloat) == Lit(MakeIntValue(i), start + |IntLexeme(i)|)
  {
    ScanOfIntLexeme(d, start, i);
    IntTextOfLexeme(i);
  }

  /** The scan a method reports: its error, or the position it stopped at and whether it saw a float. */
  function Scanned(isFloat: bool, err: Option<seq<byte>>, end: nat): NumScan
  {
    if err.Some? then NumErr(err.value) else NumOk(end, isFloat)
  }

  /** A string literal at `start`: a block string when `"""` starts there. */
  function StringLiteral(d: seq<byte>, start: nat): (r: StrScan)
    requires start < |d|
    ensures r.StrOk? ==> start < r.end <= |d|
  {
    if KeyAt(d, start, TripleQuote) then ScanString(d, start + 3, true, []) else ScanString(d, start + 1, false, [])
  }

  /**
   * A plain string literal written with `Escape` between quotes reads back
   * as the bytes escaped. An empty one must not be followed by a third
   * quote, which would open a block string instead.
   */
  lemma StringLiteralRoundTrip(d: seq<byte>, start: nat, s: seq<byte>)
    requires start + |Escape(s)| + 1 < |d| && d[start] == '"' as byte
    requires d[start + 1..start + 1 + |Escape(s)|] == Escape(s) && d[start + 1 + |Escape(s)|] == '"' as byte
    requires s == [] && start + 2 < |d| ==> d[start + 2] != '"' as byte
    ensures StringLiteral(d, start) == StrOk(start + |Escape(s)| + 2, s)
  {
    if s != [] {
      assert Escape(s) == EscapeByte(s[0]) + Escape(s[1..]);
      assert d[start + 1] == Escape(s)[0] by {
        assert d[start + 1..start + 1 + |Escape(s)|][0] == Escape(s)[0];
      }
    }
    TripleQuoteAt(d, start);
    EscapeRoundTrip(d, start + 1, s, []);
  }

  /** Where a block string opens: three quotes in a row. */
  lemma TripleQuoteAt(d: seq<byte>, at: nat)
    ensures KeyAt(d, at, TripleQuote) <==> at + 3 <= |d| && d[at] == d[at + 1] == d[at + 2] == '"' as byte
  {
    assert TripleQuote == ['"' as byte, '"' as byte, '"' as byte];
    if at + 3 <= |d| {
      assert d[at..at + 3] == [d[at], d[at + 1], d[at + 2]];
    }
  }

  /** `k` agrees with the input at `at` for its first `o` bytes and is longer than that. */
  predicate AgreesFor(d: seq<byte>, at: nat, k: seq<byte>, o: nat)
  {
    at + o <= |d| && |k| > o && k[..o] == d[at..at + o]
  }

  /** One more agreeing byte extends the agreement; when it is the key's last byte, the key is spelt at `at`. */
  lemma AgreeOneMore(d: seq<byte>, at: nat, k: seq<byte>, o: nat)
    requires AgreesFor(d, at, k, o) && at + o < |d| && k[o] == d[at + o]
    ensures |k| == o + 1 ==> KeyAt(d, at, k)
    ensures |k| > o + 1 ==> AgreesFor(d, at, k, o + 1)
  {
    assert k[..o + 1] == k[..o] + [k[o]];
    assert d[at..at + o + 1] == d[at..at + o] + [d[at + o]];
  }

  /** Agreement for `o + 1` bytes includes agreement for `o` and the byte at `o`. */
  lemma AgreeOneLess(d: seq<byte>, at: nat, k: seq<byte>, o: nat)
    requires AgreesFor(d, at, k, o + 1)
    ensures AgreesFor(d, at, k, o) && k[o] == d[at + o]
  {
    assert k[..o] == k[..o + 1][..o];
    assert d[at..at + o] == d[at..at + o + 1][..o];
    assert k[o] == k[..o + 1][o];
    assert d[at + o] == d[at..at + o + 1][o];
  }

  /** A key of length `o + 1` spelt at `at` agrees for `o` bytes and then on its last byte. */
  lemma KeyAgrees(d: seq<byte>, at: nat, k: seq<byte>, o: nat)
    ensures KeyAt(d, at, k) && |k| == o + 1 ==> AgreesFor(d, at, k, o) && k[o] == d[at + o]
  {
    if KeyAt(d, at, k) && |k| == o + 1 {
      assert k[..o] == d[at..at + |k|][..o];
      assert d[at..at + o] == d[at..at + |k|][..o];
      assert k[o] == d[at..at + |k|][o];
    }
  }

  /** A key agreeing for `o` bytes that ends with the byte at `o` is spelt at `at`, and no shorter key is. */
  lemma FoundIsShortest(d: seq<byte>, at: nat, oneOf: set<seq<byte>>, found: seq<byte>, o: nat)
    requires AgreesFor(d, at, found, o) && at + o < |d| && |found| == o + 1 && found[o] == d[at + o]
    requires forall k :: k in oneOf && |k| <= o ==> !KeyAt(d, at, k)
    ensures KeyAt(d, at, found)
    ensures forall k :: k in oneOf && KeyAt(d, at, k) ==> |found| <= |k|
  {
    AgreeOneMore(d, at, found, o);
  }

  /** Once `o` bytes reach past the input, no key longer than `o` is spelt at `at` either. */
  lemma NoKeyBeyondInput(d: seq<byte>, at: nat, oneOf: set<seq<byte>>, o: nat)
    requires at + o >= |d|
    requires forall k :: k in oneOf && |k| <= o ==> !KeyAt(d, at, k)
    ensures forall k :: k in oneOf ==> !KeyAt(d, at, k)
  {
  }

  /** With no key left agreeing for `o` bytes, and none of length at most `o` spelt at `at`, no key is spelt there. */
  lemma NoKeyAgreeing(d: seq<byte>, at: nat, oneOf: set<seq<byte>>, o: nat)
    requires at + o <= |d|
    requires forall k :: k in oneOf ==> !AgreesFor(d, at, k, o)
    requires forall k :: k in oneOf && |k| <= o ==> !KeyAt(d, at, k)
    ensures forall k :: k in oneOf ==> !KeyAt(d, at, k)
  {
    forall k | KeyAt(d, at, k) && |k| > o
      ensures AgreesFor(d, at, k, o)
    {
      assert k[..o] == d[at..at + |k|][..o];
    }
  }

  /**
   * After a pass of `matches` at offset `o` that returned nothing, the keys
   * kept are exactly those agreeing for `o + 1` bytes, and no key of
   * length at most `o + 1` is spelt at `at`.
   */
  lemma SweepKeepsAgreement(d: seq<byte>, at: nat, oneOf: set<seq<byte>>, before: set<seq<byte>>, remaining: set<seq<byte>>, o: nat)
    requires at + o < |d| && before <= oneOf
    requires forall k :: k in before ==> k == [] || AgreesFor(d, at, k, o)
    requires forall k :: k in oneOf && AgreesFor(d, at, k, o) ==> k in before
    requires forall k :: k in oneOf && |k| <= o ==> !KeyAt(d, at, k)
    requires forall k :: k in before ==> !(|k| == o + 1 && k[o] == d[at + o])
    requires remaining <= before && forall k :: k in before ==> (k in remaining <==> o < |k| && k[o] == d[at + o])
    ensures forall k :: k in remaining ==> AgreesFor(d, at, k, o + 1)
    ensures forall k :: k in oneOf && AgreesFor(d, at, k, o + 1) ==> k in remaining
    ensures forall k :: k in oneOf && |k| <= o + 1 ==> !KeyAt(d, at, k)
  {
    forall k | k in remaining
      ensures AgreesFor(d, at, k, o + 1)
    {
      AgreeOneMore(d, at, k, o);
    }
    forall k | k in oneOf && AgreesFor(d, at, k, o + 1)
      ensures k in remaining
    {
      AgreeOneLess(d, at, k, o);
    }
    forall k | k in oneOf && |k| == o + 1
      ensures !KeyAt(d, at, k)
    {
      KeyAgrees(d, at, k, o);
      assert KeyAt(d, at, k) ==> k in before;
    }
  }

  /**
   * One pass of `matches` over its remaining keys with the byte `c` at
   * `offset`: a key that ends with this byte is returned at once; otherwise
   * the keys that disagree here are deleted. Keys are taken in any order.
   */
  method SweepKeys(keys: set<seq<byte>>, offset: nat, c: byte) returns (remaining: set<seq<byte>>, found: seq<byte>)
    ensures found != [] ==> found in keys && |found| == offset + 1 && found[offset] == c
    ensures found == [] ==> forall k :: k in keys ==> !(|k| == offset + 1 && k[offset] == c)
    ensures found == [] ==> remaining <= keys && forall k :: k in keys ==> (k in remaining <==> offset < |k| && k[offset] == c)
  {
    remaining := keys;
    var toVisit := keys;
    while toVisit != {}
      invariant toVisit <= keys && remaining <= keys
      invariant forall k :: k in toVisit ==> k in remaining
      invariant forall k :: k in keys && k !in toVisit ==> (k in remaining <==> offset < |k| && k[offset] == c)
      invariant forall k :: k in keys && k !in toVisit ==> !(|k| == offset + 1 && k[offset] == c)
      decreases toVisit
    {
      var k :| k in toVisit;
      toVisit := toVisit - {k};
      if offset >= |k| || k[offset] != c {
        remaining := remaining - {k};
      } else if |k| == offset + 1 {
        return remaining, k;
      }
    }
    return remaining, [];
  }

  // ---------------------------------------------------------------- grammar messages

  const InvalidValueMsg: seq<byte> := Str("invalid value")
  const ArgumentNameMsg: seq<byte> := Str("argument name must be defined")
  const ColonMsg: seq<byte> := Str("expected \":\"")
  const DirectiveNameMsg: seq<byte> := Str("directive must have a name")
  const TypeNameMsg: seq<byte> := Str("type name missing or invalid type name")
  const DollarMsg: seq<byte> := Str("variable must start with \"$\"")
  const EmptyVariableMsg: seq<byte> := Str("cannot have empty variable name")
  const NullVariableMsg: seq<byte> := Str("null is a illegal variable name")
  const TypeConditionNameMsg: seq<byte> := Str("cannot have type condition without name")
  const AliasNameMsg: seq<byte> := Str("field alias should have a name")
  const FieldNameMsg: seq<byte> := Str("field should have a name")
  const UnknownOperationMsg: seq<byte> := Str("unknown operation type")
  const TypeConditionMsg: seq<byte> := Str("expected type condition (\"on some_name\")")
  const UnexpectedCharMsg: seq<byte> := Str("unexpected character")
  const Ellipsis: seq<byte> := Str("...")
  const True: seq<byte> := Str("true")
  const False: seq<byte> := Str("false")

  /** The message of a message prefix, a byte shown as a Go rune, and a closing quote. */
  function GotMsg(prefix: string, c: byte): seq<byte>
  {
    Str(prefix) + RuneStr(c) + Str("\"")
  }

  /** `expected list closure ("]") but got "c"`. */
  function ListClosureMsg(c: byte): seq<byte> { GotMsg("expected list closure (\"]\") but got \"", c) }

  /** `expected ":" but got "c"`. */
  function ColonGotMsg(c: byte): seq<byte> { GotMsg("expected \":\" but got \"", c) }

  /** `expected "{", not: "c"`. */
  function BraceGotMsg(c: byte): seq<byte> { GotMsg("expected \"{\", not: \"", c) }

  /** `expected name but got "c"`. */
  function NameGotMsg(c: byte): seq<byte> { GotMsg("expected name but got \"", c) }

  /** The bytes `parseValue` reads as something other than a name. */
  predicate IsValueStart(c: byte)
  {
    c == '$' as byte || c == '-' as byte || IsDecimalDigit(c) || c == '"' as byte || c == '[' as byte || c == '{' as byte
  }

  /** The value a bare name stands for: `null`, a boolean, or else an enum value. */
  function NameValue(name: seq<byte>): (v: Value)
    ensures Read(v) == (if name == NullName then Denotes.Null
                        else if name == True || name == False then BoolOf(name == True)
                        else EnumName(name))
  {
    if name == NullName then MakeNullValue()
    else if name == True || name == False then MakeBooleanValue(name == True)
    else MakeEnumValue(name)
  }

  /**
   * The type reference at `i` and where it ends: a name, or a type in
   * brackets, either followed by an optional `!` once ignored tokens are
   * skipped; none where the text ends early or holds something else.
   */
  function TypeAt(d: seq<byte>, i: nat): (r: Option<(TypeReference, nat)>)
    requires i < |d|
    ensures r.Some? ==> i < r.value.1 <= |d|
    decreases |d| - i
  {
    if d[i] == '[' as byte then
      var a := SkipIgnored(d, i + 1);
      if a >= |d| then None
      else
        var element := TypeAt(d, a);
        if element.None? then None else ListClosed(d, element.value.0, element.value.1)
    else if !IsNameStart(d[i]) then None
    else
      var j := NameEnd(d, i);
      if j >= |d| then None else NonNullMark(d, NamedType(d[i..j], false), j)
  }

  /** The `]` that closes a list of `inner` ending at `j`, after ignored tokens, and an optional `!`. */
  function ListClosed(d: seq<byte>, inner: TypeReference, j: nat): (r: Option<(TypeReference, nat)>)
    requires j <= |d|
    ensures r.Some? ==> j < r.value.1 <= |d| && r.value.0 == ListType(inner, r.value.0.nonNull)
  {
    var b := SkipIgnored(d, j);
    if b >= |d| || d[b] != ']' as byte then None
    else NonNullMark(d, ListType(inner, false), b + 1)
  }

  /** The `!` that may follow a type ending at `j`, after ignored tokens. */
  function NonNullMark(d: seq<byte>, t: TypeReference, j: nat): (r: Option<(TypeReference, nat)>)
    requires j <= |d|
    ensures r.Some? ==> j <= r.value.1 <= |d| && r.value.0 == t.(nonNull := r.value.0.nonNull)
    ensures r.Some? && r.value.0.nonNull != t.nonNull ==> 0 < r.value.1 && d[r.value.1 - 1] == '!' as byte
    ensures r.Some? && !r.value.0.nonNull ==> r.value.1 < |d| && d[r.value.1] != '!' as byte
  {
    var k := SkipIgnored(d, j);
    if k >= |d| then None
    else if d[k] == '!' as byte then Some((t.(nonNull := true), k + 1))
    else Some((t, k))
  }

  /** `TypeAt` on a `[` whose element type, read after the ignored tokens, is `inner` ending at `j`. */
  lemma TypeAtList(d: seq<byte>, i: nat, a: nat, inner: TypeReference, j: nat)
    requires i < |d| && d[i] == '[' as byte && a == SkipIgnored(d, i + 1)
    requires a < |d| && TypeAt(d, a) == Some((inner, j))
    ensures TypeAt(d, i) == ListClosed(d, inner, j)
  {
  }

  /** No type at a `[` whose element type is missing. */
  lemma TypeAtListNone(d: seq<byte>, i: nat, a: nat)
    requires i < |d| && d[i] == '[' as byte && a == SkipIgnored(d, i + 1)
    requires a >= |d| || TypeAt(d, a).None?
    ensures TypeAt(d, i).None?
  {
  }

  /**
   * What a type read from `i` to `end` looks like: a list type exactly when
   * the text starts with `[`, whose element is the type after the bracket;
   * a named type spelled by the longest name; a non-null type exactly when a
   * `!` ends it.
   */
  predicate TypeShape(d: seq<byte>, i: nat, t: TypeReference, end: nat)
    requires i < |d|
  {
    && i < end <= |d|
    && TypeNamed(t)
    && (t.ListType? <==> d[i] == '[' as byte)
    && (t.NamedType? ==> t.name == d[i..NameEnd(d, i)])
    && (t.nonNull ==> d[end - 1] == '!' as byte)
    && (!t.nonNull ==> end < |d| && d[end] != '!' as byte)
    && (t.ListType? ==>
          var at := SkipIgnored(d, i + 1);
          at < |d| && TypeAt(d, at).Some? && TypeAt(d, at).value.0 == t.listType)
  }

  /** Every type `TypeAt` reads has the shape `TypeShape` describes. */
  lemma {:induction false} TypeAtFacts(d: seq<byte>, i: nat)
    requires i < |d| && TypeAt(d, i).Some?
    ensures TypeShape(d, i, TypeAt(d, i).value.0, TypeAt(d, i).value.1)
    decreases |d| - i
  {
    if d[i] == '[' as byte {
      TypeAtFacts(d, SkipIgnored(d, i + 1));
    } else {
      NameEndIsLongestName(d, i);
    }
  }

  /** The filler returned next to an error where Go returns a zero `Selection`. */
  const EmptyField: Field := Field([], [], [], map[], map[])

  class Iter {
    const data: seq<byte>
    const parseFloat: seq<byte> -> Option<real>
    var charNr: nat

    constructor (input: seq<byte>, parseFloat: seq<byte> -> Option<real>)
      ensures data == input && this.parseFloat == parseFloat && charNr == 0
    {
      data := input;
      this.parseFloat := parseFloat;
      charNr := 0;
    }

    /** `checkC`: the byte at `nr`, or `0` and true past the end. */
    function CheckC(nr: nat): (byte, bool)
    {
      if nr >= |data| then (0, true) else (data[nr], false)
    }

    // ------------------------------------------------------------ ignored tokens

    /** `isLineTerminator`: a line break at the position; a `\r\n` is stepped into up to its `\n`. */
    method IsLineTerminator() returns (r: bool)
      requires charNr < |data|
      modifies this
      ensures r <==> data[old(charNr)] == '\n' as byte || data[old(charNr)] == '\r' as byte
      ensures charNr == (if data[old(charNr)] == '\r' as byte && old(charNr) + 1 < |data| && data[old(charNr) + 1] == '\n' as byte
                         then old(charNr) + 1 else old(charNr))
    {
      var c := data[charNr];
      if c == '\n' as byte {
        return true;
      }
      if c == '\r' as byte {
        var (next, _) := CheckC(charNr + 1);
        if next == '\n' as byte {
          charNr := charNr + 1;
        }
        return true;
      }
      return false;
    }

    /** `parseComment`: up to the line terminator that ends the comment, or the end of the input. */
    method ParseComment()
      requires charNr <= |data|
      modifies this
      ensures charNr == CommentEnd(data, old(charNr))
    {
      while true
        invariant charNr <= |data|
        invariant CommentEnd(data, charNr) == CommentEnd(data, old(charNr))
        decreases |data| - charNr
      {
        if charNr >= |data| {
          return;
        }
        var lt := IsLineTerminator();
        if lt {
          return;
        }
        charNr := charNr + 1;
      }
    }

    /** `isComment`: whether a comment starts here; with `parseComment` it is read up to its end. */
    method IsComment(parseComment: bool) returns (r: bool)
      requires charNr < |data|
      modifies this
      ensures r <==> data[old(charNr)] == '#' as byte
      ensures charNr == (if r && parseComment then CommentEnd(data, old(charNr)) else old(charNr))
    {
      if data[charNr] == '#' as byte {
        if parseComment {
          ParseComment();
        }
        return true;
      }
      return false;
    }

    /**
     * `isIgnoredToken(c)` for the byte `c` at the position: whether an ignored
     * token starts here; a line terminator or comment is read up to its last byte.
     */
    method IsIgnoredToken(c: byte) returns (r: bool)
      requires charNr < |data| && c == data[charNr]
      modifies this
      ensures r <==> StartsIgnored(c)
      ensures !r ==> charNr == old(charNr)
      ensures r ==> old(charNr) <= charNr <= |data| && SkipIgnored(data, charNr + 1) == SkipIgnored(data, old(charNr))
    {
      if IsUnicodeBom(c) || IsWhiteSpace(c) {
        return true;
      }
      r := IsLineTerminator();
      if r {
        return;
      }
      r := IsComment(true);
    }

    /**
     * `mightIgnoreNextTokens`: past the ignored tokens; the byte reached, or
     * an end-of-input error when there is none.
     */
    method MightIgnoreNextTokens() returns (c: byte, err: Option<seq<byte>>)
      requires charNr <= |data| + 1
      modifies this
      ensures charNr == SkipIgnored(data, old(charNr))
      ensures err.None? <==> charNr < |data|
      ensures err.None? ==> c == data[charNr] && !StartsIgnored(c)
      ensures err.Some? ==> err == Some(EofMsg)
    {
      while true
        invariant charNr <= |data| + 1
        invariant SkipIgnored(data, charNr) == SkipIgnored(data, old(charNr))
        decreases |data| + 1 - charNr
      {
        var (ch, eof) := CheckC(charNr);
        if eof {
          return 0, Some(EofMsg);
        }
        var ignored := IsIgnoredToken(ch);
        if !ignored {
          return ch, None;
        }
        charNr := charNr + 1;
      }
    }

    // ------------------------------------------------------------ keywords and names

    /**
     * `matches(oneOf...)`: the shortest of the keys spelt at the position,
     * which is stepped over; or the empty string, and the position kept. The
     * keys are tried in the order of a Go map, which does not matter.
     */
    method Matches(oneOf: set<seq<byte>>) returns (key: seq<byte>)
      requires charNr <= |data| + 1
      modifies this
      ensures key == [] || key in oneOf
      ensures key != [] ==> KeyAt(data, old(charNr), key) && charNr == old(charNr) + |key|
      ensures key != [] ==> forall k :: k in oneOf && KeyAt(data, old(charNr), k) ==> |key| <= |k|
      ensures key == [] ==> charNr == old(charNr) && forall k :: k in oneOf ==> !KeyAt(data, old(charNr), k)
    {
      var startIdx := charNr;
      var oneOfMap := oneOf;
      while true
        invariant startIdx <= charNr <= |data| + 1 && (charNr > startIdx ==> charNr <= |data|)
        invariant oneOfMap <= oneOf
        invariant charNr <= |data| ==> forall k :: k in oneOfMap ==> k == [] || AgreesFor(data, startIdx, k, charNr - startIdx)
        invariant charNr <= |data| ==> forall k :: k in oneOf && AgreesFor(data, startIdx, k, charNr - startIdx) ==> k in oneOfMap
        invariant forall k :: k in oneOf && |k| <= charNr - startIdx ==> !KeyAt(data, startIdx, k)
        decreases |data| + 1 - charNr
      {
        var (c, eof) := CheckC(charNr);
        if eof {
          NoKeyBeyondInput(data, startIdx, oneOf, charNr - startIdx);
          charNr := startIdx;
          return [];
        }
        var offset := charNr - startIdx;
        ghost var before := oneOfMap;
        var found;
        oneOfMap, found := SweepKeys(oneOfMap, offset, c);
        if found != [] {
          FoundIsShortest(data, startIdx, oneOf, found, offset);
          charNr := charNr + 1;
          return found;
        }
        SweepKeepsAgreement(data, startIdx, oneOf, before, oneOfMap, offset);
        if |oneOfMap| == 0 {
          NoKeyAgreeing(data, startIdx, oneOf, offset + 1);
          charNr := startIdx;
          return [];
        }
        charNr := charNr + 1;
      }
    }

    /**
     * `parseName`: the longest name at the position, empty when none starts
     * there; an end-of-input error when the name runs to the end.
     */
    method ParseName() returns (name: seq<byte>, err: Option<seq<byte>>)
      requires charNr <= |data| + 1
      modifies this
      ensures charNr == NameEnd(data, old(charNr))
      ensures name == if old(charNr) <= |data| then data[old(charNr)..charNr] else []
      ensures err.Some? <==> charNr >= |data|
      ensures err.Some? ==> err == Some(EofMsg)
      ensures name != [] ==> IsName(name)
      ensures name == [] <==> old(charNr) >= |data| || !IsNameStart(data[old(charNr)])
    {
      if charNr <= |data| {
        NameEndIsLongestName(data, charNr);
      }
      name := [];
      ghost var start := charNr;
      while true
        invariant start <= charNr
        invariant charNr == start || (start < charNr <= |data| && IsNameStart(data[start]) && RunEnd(data, charNr) == RunEnd(data, start + 1))
        invariant name == if start <= |data| then data[start..charNr] else []
        decreases |data| + 1 - charNr
      {
        var (c, eof) := CheckC(charNr);
        if eof {
          return name, Some(EofMsg);
        }
        if !IsNameChar(c) {
          return name, None;
        }
        if name == [] && !IsNameStart(c) {
          return name, None;
        }
        name := name + [c];
        charNr := charNr + 1;
      }
    }

    // ------------------------------------------------------------ literals

    /**
     * The escape after `\u` (the inner loop of `parseString`): up to four
     * hexadecimal digits, then the bytes they stand for, or `u` and the digits
     * read before a byte that is not one.
     */
    method ParseUnicodeEscape() returns (out: seq<byte>, err: Option<seq<byte>>)
      requires charNr <= |data|
      modifies this
      ensures old(charNr) <= charNr <= |data|
      ensures var r := UnicodeEscape(data, old(charNr), []);
        (r.None? ==> err == Some(EofMsg)) && (r.Some? ==> err.None? && charNr == r.value.0 && out == r.value.1)
    {
      var unicodeChars: seq<byte> := [];
      ghost var start := charNr;
      while true
        invariant start <= charNr <= |data| && |unicodeChars| < 4 && AllHex(unicodeChars)
        invariant UnicodeEscape(data, charNr, unicodeChars) == UnicodeEscape(data, start, [])
        decreases 4 - |unicodeChars|
      {
        var (c, eof) := CheckC(charNr);
        if eof {
          return [], Some(EofMsg);
        }
        if !IsHexDigit(c) {
          return ['u' as byte] + unicodeChars, None;
        }
        charNr := charNr + 1;
        unicodeChars := unicodeChars + [c];
        if |unicodeChars| == 4 {
          var u := unicodeChars;
          var from := 0;
          if u[0] == '0' as byte && u[1] == '0' as byte {
            from := 2;
            if u[2] == '0' as byte && u[3] == '0' as byte {
              from := 4;
            }
          }
          if from == 4 {
            return [], None;
          }
          // `hex.Decode` cannot fail here: all four bytes passed the digit test.
          if from == 2 {
            return [(16 * HexValue(u[2]) + HexValue(u[3])) as byte], None;
          }
          return Utf8Encode(4096 * HexValue(u[0]) + 256 * HexValue(u[1]) + 16 * HexValue(u[2]) + HexValue(u[3])), None;
        }
      }
    }

    /**
     * `parseString` at an opening `"`: the bytes the string denotes and the
     * position after its closing quote, as `StringLiteral` reads them.
     */
    method ParseString() returns (s: seq<byte>, err: Option<seq<byte>>)
      requires charNr < |data| && data[charNr] == '"' as byte
      modifies this
      ensures old(charNr) < charNr <= |data|
      ensures var r := StringLiteral(data, old(charNr));
        (r.StrOk? ==> err.None? && s == r.value && charNr == r.end) && (r.StrErr? ==> err == Some(r.msg))
    {
      ghost var start := charNr;
      var res: seq<byte> := [];
      var isBlock := false;
      var m := Matches({TripleQuote});
      if m == TripleQuote {
        isBlock := true;
      } else {
        charNr := charNr + 1;
      }
      ghost var expected := StringLiteral(data, start);
      while true
        invariant start < charNr <= |data|
        invariant ScanString(data, charNr, isBlock, res) == expected
        decreases |data| - charNr
      {
        var done;
        res, done, s, err := StringStep(isBlock, res, expected);
        if done {
          return;
        }
      }
    }

    /**
     * One turn of the loop of `parseString`: the byte at the position, with
     * the escape it starts. Either the string ends here, as `expected` says,
     * or the loop goes on with `next` denoted so far.
     */
    method StringStep(isBlock: bool, res: seq<byte>, ghost expected: StrScan)
      returns (next: seq<byte>, done: bool, s: seq<byte>, err: Option<seq<byte>>)
      requires charNr <= |data| && ScanString(data, charNr, isBlock, res) == expected
      modifies this
      ensures old(charNr) <= charNr <= |data|
      ensures !done ==> old(charNr) < charNr && ScanString(data, charNr, isBlock, next) == expected
      ensures done ==> (expected.StrOk? ==> err.None? && s == expected.value && charNr == expected.end)
                       && (expected.StrErr? ==> err == Some(expected.msg))
    {
      next, done, s, err := res, false, [], None;
      var (c, eof) := CheckC(charNr);
      if eof {
        return res, true, [], Some(EofMsg);
      }
      charNr := charNr + 1;
      if c == '"' as byte {
        if !isBlock {
          return res, true, res, None;
        }
        var (c2, eof2) := CheckC(charNr);
        if eof2 {
          return res, true, [], Some(EofMsg);
        }
        if c2 == '"' as byte {
          charNr := charNr + 1;
          var (c3, eof3) := CheckC(charNr);
          if eof3 {
            return res, true, [], Some(EofMsg);
          }
          if c3 == '"' as byte {
            charNr := charNr + 1;
            return res, true, TrimSpace(res), None;
          }
          next := res + ['"' as byte, '"' as byte];
        } else {
          next := res + ['"' as byte];
        }
      } else if c == '\r' as byte || c == '\n' as byte {
        if !isBlock {
          return res, true, [], Some(NewlineMsg);
        }
        next := res + [c];
      } else if c == '\\' as byte {
        var (e, eofE) := CheckC(charNr);
        if eofE {
          return res, true, [], Some(EofMsg);
        }
        charNr := charNr + 1;
        if e == 'u' as byte {
          var out, errU := ParseUnicodeEscape();
          if errU.Some? {
            return res, true, [], errU;
          }
          next := res + out;
        } else {
          next := res + [EscapedByte(e)];
        }
      } else {
        next := res + [c];
      }
    }

    /**
     * `parseNumberValue`: the int or float at the position, read as
     * `NumberLiteral` reads it. The bytes are scanned first; the `res`
     * closure converts the text scanned.
     */
    method ParseNumberValue() returns (v: Value, err: Option<seq<byte>>)
      requires charNr < |data|
      modifies this
      ensures old(charNr) <= charNr <= |data|
      ensures var r := NumberLiteral(data, old(charNr), parseFloat);
        (r.Lit? ==> err.None? && v == r.value && charNr == r.end) && (r.LitErr? ==> err == Some(r.msg))
    {
      var start := charNr;
      var isFloat;
      isFloat, err := ScanNumberText();
      if err.Some? {
        return Zero, err;
      }
      v, err := IntOrFloat(start, isFloat);
    }

    /**
     * The scanning of `parseNumberValue`: over the number at the position, as
     * `ScanNumber` reads it. Each of its three digit loops is `SkipDigits`.
     */
    method ScanNumberText() returns (isFloat: bool, err: Option<seq<byte>>)
      requires charNr < |data|
      modifies this
      ensures old(charNr) <= charNr <= |data|
      ensures ScanNumber(data, old(charNr)) == Scanned(isFloat, err, charNr)
    {
      if data[charNr] == '-' as byte {
        charNr := charNr + 1;
      }
      isFloat, err := ScanUnsigned(Unsigned(data, charNr));
    }

    /** The scanning after the optional `-`; `expected` is how the rest scans. */
    method ScanUnsigned(ghost expected: NumScan) returns (isFloat: bool, err: Option<seq<byte>>)
      requires charNr <= |data| && expected == Unsigned(data, charNr)
      modifies this
      ensures old(charNr) <= charNr <= |data|
      ensures expected == Scanned(isFloat, err, charNr)
    {
      // the integer part
      var (c, eof) := CheckC(charNr);
      if eof {
        return false, Some(EofMsg);
      }
      if c == '0' as byte {
        charNr := charNr + 1;
      } else if IsDecimalDigit(c) {
        SkipDigits();
      } else {
        return false, Some(NotNumberMsg);
      }
      var (c2, eof2) := CheckC(charNr);
      if eof2 {
        return false, Some(EofMsg);
      }
      if !IsFloatMark(c2) {
        return false, None;
      }
      isFloat, err := ScanFraction(AfterInteger(data, charNr));
    }

    /** The scanning after the integer part, at a `.`, `e` or `E`; `expected` is how the rest scans. */
    method ScanFraction(ghost expected: NumScan) returns (isFloat: bool, err: Option<seq<byte>>)
      requires charNr < |data| && IsFloatMark(data[charNr]) && expected == AfterInteger(data, charNr)
      modifies this
      ensures old(charNr) <= charNr <= |data|
      ensures expected == Scanned(isFloat, err, charNr)
    {
      if data[charNr] == '.' as byte {
        charNr := charNr + 1;
        var (c, eof) := CheckC(charNr);
        if eof {
          return true, Some(EofMsg);
        }
        if !IsDecimalDigit(c) {
          return true, Some(NotFloatMsg);
        }
        SkipDigits();
        var (c2, eof2) := CheckC(charNr);
        if eof2 {
          return true, Some(EofMsg);
        }
        if c2 != 'e' as byte && c2 != 'E' as byte {
          return true, None;
        }
      }
      isFloat, err := ScanExponent(Exponent(data, charNr, true));
    }

    /**
     * The scanning of the exponent, at an `e` or `E` (so the test for
     * anything else, query_parser.go:679-682, cannot succeed here).
     */
    method ScanExponent(ghost expected: NumScan) returns (isFloat: bool, err: Option<seq<byte>>)
      requires charNr < |data| && (data[charNr] == 'e' as byte || data[charNr] == 'E' as byte)
      requires expected == Exponent(data, charNr, true)
      modifies this
      ensures old(charNr) <= charNr <= |data|
      ensures expected == Scanned(isFloat, err, charNr)
    {
      charNr := charNr + 1;
      var (c, eof) := CheckC(charNr);
      if eof {
        return true, Some(EofMsg);
      }
      if c == '+' as byte || c == '-' as byte {
        charNr := charNr + 1;
        c, eof := CheckC(charNr).0, CheckC(charNr).1;
        if eof {
          return true, Some(EofMsg);
        }
      }
      if !IsDecimalDigit(c) {
        return true, Some(NotFloatMsg);
      }
      SkipDigits();
      if charNr >= |data| {
        return true, Some(EofMsg);
      }
      return true, None;
    }

    /**
     * A digit loop of `parseNumberValue`: from the digit at the position to
     * the first byte after the digits that follow it.
     */
    method SkipDigits()
      requires charNr < |data| && IsDecimalDigit(data[charNr])
      modifies this
      ensures old(charNr) < charNr == DigitsEnd(data, old(charNr))
    {
      ghost var start := charNr;
      while true
        invariant start <= charNr < |data| && IsDecimalDigit(data[charNr]) && DigitsEnd(data, charNr) == DigitsEnd(data, start)
        decreases |data| - charNr
      {
        charNr := charNr + 1;
        var (c, eof) := CheckC(charNr);
        if eof || !IsDecimalDigit(c) {
          return;
        }
      }
    }

    /** The `res` closure of `parseNumberValue`, on the text scanned from `start`. */
    method IntOrFloat(start: nat, isFloat: bool) returns (v: Value, err: Option<seq<byte>>)
      requires start < |data| && ScanNumber(data, start) == NumOk(charNr, isFloat)
      ensures var r := NumberLiteral(data, start, parseFloat);
        (r.Lit? ==> err.None? && v == r.value && charNr == r.end) && (r.LitErr? ==> err == Some(r.msg))
    {
      var r := ReadNumber(data[start..charNr], isFloat, parseFloat);
      if r.None? {
        return Zero, Some(if isFloat then FloatErrorMsg else IntErrorMsg);
      }
      return r.value, None;
    }

    // ------------------------------------------------------------ values

    /**
     * `parseValue` at a byte that is not ignored: a variable, number, string,
     * list, object, or a name read by `NameValue`.
     */
    method ParseValue() returns (v: Value, err: Option<seq<byte>>)
      requires charNr < |data|
      modifies this
      decreases |data| - charNr, 0
      ensures err.None? ==> old(charNr) < charNr <= |data|
      ensures var c := data[old(charNr)]; c == '$' as byte && err.None? ==>
        IsName(data[old(charNr) + 1..charNr]) && data[old(charNr) + 1..charNr] != NullName
        && v == MakeVariableValue(data[old(charNr) + 1..charNr])
      ensures var c := data[old(charNr)]; c == '-' as byte || IsDecimalDigit(c) ==>
        var r := NumberLiteral(data, old(charNr), parseFloat);
        (r.Lit? ==> err.None? && v == r.value && charNr == r.end) && (r.LitErr? ==> err == Some(r.msg))
      ensures data[old(charNr)] == '"' as byte ==>
        var r := StringLiteral(data, old(charNr));
        (r.StrOk? ==> err.None? && v == MakeStringValue(r.value) && charNr == r.end) && (r.StrErr? ==> err == Some(r.msg))
      ensures data[old(charNr)] == '[' as byte && err.None? ==> Read(v).ListOf? && data[charNr - 1] == ']' as byte
      ensures data[old(charNr)] == '{' as byte && err.None? ==>
        Read(v).ObjectOf? && ArgumentsNamed(Read(v).fields) && data[charNr - 1] == '}' as byte
      ensures !IsValueStart(data[old(charNr)]) ==>
        var e := NameEnd(data, old(charNr));
        (e == old(charNr) ==> err == Some(InvalidValueMsg))
        && (old(charNr) < e < |data| ==> err.None? && charNr == e && v == NameValue(data[old(charNr)..e]))
        && (e >= |data| ==> err == Some(EofMsg))
    {
      var c := data[charNr];
      if c == '$' as byte {
        v, err := ParseVariableValue();
      } else if c == '-' as byte || IsDecimalDigit(c) {
        v, err := ParseNumberValue();
      } else if c == '"' as byte {
        var str;
        str, err := ParseString();
        if err.Some? {
          return Zero, err;
        }
        return MakeStringValue(str), None;
      } else if c == '[' as byte {
        charNr := charNr + 1;
        var list;
        list, err := ParseListValue();
        if err.Some? {
          return Zero, err;
        }
        return MakeArrayValue(Some(list)), None;
      } else if c == '{' as byte {
        charNr := charNr + 1;
        var values;
        values, err := ParseArgumentsOrObjectValues('}' as byte);
        if err.Some? {
          return Zero, err;
        }
        return MakeStructValue(Some(values)), None;
      } else {
        v, err := ParseNameValue();
      }
    }

    /** The `$` case of `parseValue`: a variable. */
    method ParseVariableValue() returns (v: Value, err: Option<seq<byte>>)
      requires charNr < |data| && data[charNr] == '$' as byte
      modifies this
      ensures err.None? ==> old(charNr) < charNr <= |data|
      ensures err.None? ==>
        IsName(data[old(charNr) + 1..charNr]) && data[old(charNr) + 1..charNr] != NullName
        && v == MakeVariableValue(data[old(charNr) + 1..charNr])
    {
      charNr := charNr + 1;
      var name;
      name, err := ParseVariable(true);
      if err.Some? {
        return Zero, err;
      }
      return MakeVariableValue(name), None;
    }

    /** The last case of `parseValue`: a name, read by `NameValue`. */
    method ParseNameValue() returns (v: Value, err: Option<seq<byte>>)
      requires charNr < |data|
      modifies this
      ensures var e := NameEnd(data, old(charNr));
        (e == old(charNr) ==> err == Some(InvalidValueMsg))
        && (old(charNr) < e < |data| ==> err.None? && charNr == e && v == NameValue(data[old(charNr)..e]))
        && (e >= |data| ==> err == Some(EofMsg))
    {
      var name;
      name, err := ParseName();
      if err.Some? {
        return Zero, err;
      }
      if name == [] {
        return Zero, Some(InvalidValueMsg);
      }
      return NameValue(name), None;
    }

    /**
     * `parseListValue`, after the `[`: values up to the `]`. A comma may
     * follow each value, but not open the list.
     */
    method ParseListValue() returns (list: seq<Value>, err: Option<seq<byte>>)
      requires charNr <= |data|
      modifies this
      decreases |data| - charNr, 1
      ensures err.None? ==> old(charNr) < charNr <= |data| && data[charNr - 1] == ']' as byte
      ensures var at := SkipIgnored(data, old(charNr));
        (at >= |data| ==> err == Some(EofMsg))
        && (at < |data| && data[at] == ']' as byte ==> err.None? && list == [] && charNr == at + 1)
        && (at < |data| && data[at] == ',' as byte ==> err == Some(InvalidValueMsg))
    {
      list := [];
      var firstLoop := true;
      while true
        invariant old(charNr) <= charNr <= |data|
        invariant firstLoop ==> charNr == old(charNr) && list == []
        invariant !firstLoop ==> var at := SkipIgnored(data, old(charNr));
          at < |data| && data[at] != ']' as byte && data[at] != ',' as byte
        decreases |data| - charNr
      {
        var c, e := MightIgnoreNextTokens();
        if e.Some? {
          return [], e;
        }
        if c == ']' as byte {
          charNr := charNr + 1;
          return list, None;
        }
        if !firstLoop && c == ',' as byte {
          charNr := charNr + 1;
          c, e := MightIgnoreNextTokens();
          if e.Some? {
            return [], e;
          }
          if c == ']' as byte {
            charNr := charNr + 1;
            return list, None;
          }
        }
        var val;
        val, e := ParseValue();
        if e.Some? {
          return [], e;
        }
        list := list + [val];
        firstLoop := false;
      }
    }

    /**
     * `parseArgumentsOrObjectValues(closure)`: `name: value` pairs up to the
     * closing byte, a comma allowed after each; a later pair with the same
     * name replaces an earlier one.
     */
    method ParseArgumentsOrObjectValues(closure: byte) returns (args: Arguments, err: Option<seq<byte>>)
      requires charNr <= |data|
      modifies this
      decreases |data| - charNr, 2
      ensures err.None? ==> old(charNr) < charNr <= |data| && data[charNr - 1] == closure && ArgumentsNamed(args)
      ensures var at := SkipIgnored(data, old(charNr));
        (at >= |data| ==> err == Some(EofMsg))
        && (at < |data| && data[at] == closure ==> err.None? && args == map[] && charNr == at + 1)
        && (at < |data| && data[at] != closure && !IsNameStart(data[at]) ==> err == Some(ArgumentNameMsg))
    {
      args := map[];
      var c, e := MightIgnoreNextTokens();
      if e.Some? {
        return map[], e;
      }
      if c == closure {
        charNr := charNr + 1;
        return map[], None;
      }
      ghost var at := charNr;
      while true
        invariant old(charNr) <= at <= charNr <= |data| && ArgumentsNamed(args)
        invariant at < |data| && data[at] != closure && at == SkipIgnored(data, old(charNr))
        invariant charNr == at || IsNameStart(data[at])
        decreases |data| - charNr
      {
        var name, value;
        name, value, e := ParseArgument();
        if e.Some? {
          return map[], e;
        }
        args := args[name := value];
        var closed;
        closed, e := SeparatorOrClosure(closure);
        if e.Some? {
          return map[], e;
        }
        if closed {
          return args, None;
        }
      }
    }

    /**
     * What follows a pair in `parseArgumentsOrObjectValues`: an optional
     * comma, then the closing byte, which ends the pairs and is stepped over.
     */
    method SeparatorOrClosure(closure: byte) returns (closed: bool, err: Option<seq<byte>>)
      requires charNr <= |data| + 1
      modifies this
      ensures err.None? ==> old(charNr) <= charNr <= |data|
      ensures err.None? && closed ==> old(charNr) < charNr && data[charNr - 1] == closure
      ensures err.None? && !closed ==> charNr < |data|
      ensures err.Some? ==> err == Some(EofMsg)
    {
      var c, e := MightIgnoreNextTokens();
      if e.Some? {
        return false, e;
      }
      if c == ',' as byte {
        charNr := charNr + 1;
        c, e := MightIgnoreNextTokens();
        if e.Some? {
          return false, e;
        }
      }
      if c == closure {
        charNr := charNr + 1;
        return true, None;
      }
      return false, None;
    }

    /** One `name: value` pair of `parseArgumentsOrObjectValues`, from its name on. */
    method ParseArgument() returns (name: seq<byte>, value: Value, err: Option<seq<byte>>)
      requires charNr <= |data|
      modifies this
      decreases |data| - charNr, 1
      ensures err.None? ==> old(charNr) < charNr <= |data| && IsName(name) && name == data[old(charNr)..NameEnd(data, old(charNr))]
      ensures old(charNr) < |data| && !IsNameStart(data[old(charNr)]) ==> err == Some(ArgumentNameMsg)
    {
      value := Zero;
      name, err := ParseName();
      if err.Some? {
        return [], Zero, err;
      }
      if name == [] {
        return [], Zero, Some(ArgumentNameMsg);
      }
      var c, e := MightIgnoreNextTokens();
      if e.Some? {
        return [], Zero, e;
      }
      if c != ':' as byte {
        return [], Zero, Some(ColonMsg);
      }
      charNr := charNr + 1;
      c, e := MightIgnoreNextTokens();
      if e.Some? {
        return [], Zero, e;
      }
      value, err := ParseValue();
    }

    /**
     * `parseVariable`: a variable name, after a `$` that is read first unless
     * `alreadyParsedIdentifier`. Without it the next byte that is not ignored
     * must exist: Go reads it unchecked.
     */
    method ParseVariable(alreadyParsedIdentifier: bool) returns (name: seq<byte>, err: Option<seq<byte>>)
      requires charNr <= |data| + 1
      requires !alreadyParsedIdentifier ==> SkipIgnored(data, charNr) < |data|
      modifies this
      ensures var at := SkipIgnored(data, old(charNr));
        !alreadyParsedIdentifier && data[at] != '$' as byte ==> err == Some(DollarMsg)
      ensures var from := if alreadyParsedIdentifier then old(charNr) else SkipIgnored(data, old(charNr)) + 1;
        (alreadyParsedIdentifier || data[from - 1] == '$' as byte) ==>
          var e := NameEnd(data, from);
          (from < |data| && e == from ==> err == Some(EmptyVariableMsg))
          && (e >= |data| ==> err == Some(EofMsg))
          && (from < e < |data| ==>
                charNr == e && (if data[from..e] == NullName then err == Some(NullVariableMsg) else err.None? && name == data[from..e]))
      ensures err.None? ==> old(charNr) < charNr < |data| && IsName(name) && name != NullName
    {
      if !alreadyParsedIdentifier {
        var _, _ := MightIgnoreNextTokens();
        if data[charNr] != '$' as byte {
          return [], Some(DollarMsg);
        }
        charNr := charNr + 1;
      }
      name, err := ParseName();
      if err.Some? {
        return [], err;
      }
      if name == [] {
        return [], Some(EmptyVariableMsg);
      }
      if name == NullName {
        return [], Some(NullVariableMsg);
      }
    }

    // ------------------------------------------------------------ directives

    /**
     * `parseDirectives`: `@`-directives up to the first byte, not ignored,
     * that is not an `@`; it is left for the caller. A later directive with
     * the same name replaces an earlier one.
     */
    method ParseDirectives() returns (ds: Directives, err: Option<seq<byte>>)
      requires charNr <= |data| + 1
      modifies this
      ensures err.None? ==> old(charNr) <= charNr < |data| && data[charNr] != '@' as byte && !StartsIgnored(data[charNr])
      ensures err.None? ==> DirectivesNamed(ds)
      ensures var at := SkipIgnored(data, old(charNr));
        (at >= |data| ==> err == Some(EofMsg))
        && (at < |data| && data[at] != '@' as byte ==> err.None? && ds == map[] && charNr == at)
        && (at < |data| && data[at] == '@' as byte && err.None? ==> ds != map[])
    {
      ds := map[];
      ghost var first := true;
      while true
        invariant old(charNr) <= charNr <= |data| + 1 && DirectivesNamed(ds)
        invariant first ==> charNr == old(charNr) && ds == map[]
        invariant !first ==> SkipIgnored(data, old(charNr)) < |data| && data[SkipIgnored(data, old(charNr))] == '@' as byte && ds != map[]
        decreases |data| + 1 - charNr
      {
        var c, e := MightIgnoreNextTokens();
        if e.Some? {
          return map[], e;
        }
        if c != '@' as byte {
          return ds, None;
        }
        charNr := charNr + 1;
        var d;
        d, e := ParseDirective();
        if e.Some? {
          return map[], e;
        }
        ds := ds[d.name := d];
        first := false;
      }
    }

    /** `parseDirective`, after the `@`: a name and optional arguments in parentheses. */
    method ParseDirective() returns (d: Directive, err: Option<seq<byte>>)
      requires charNr <= |data|
      modifies this
      ensures err.None? ==> old(charNr) < charNr <= |data| && IsName(d.name) && ArgumentsNamed(d.arguments)
      ensures err.None? ==> d.name == data[old(charNr)..NameEnd(data, old(charNr))]
      ensures old(charNr) < |data| && !IsNameStart(data[old(charNr)]) ==> err == Some(DirectiveNameMsg)
      ensures var at := SkipIgnored(data, NameEnd(data, old(charNr)));
        err.None? && at < |data| && data[at] != '(' as byte ==> d.arguments == map[]
    {
      var name;
      name, err := ParseName();
      if err.Some? {
        return Directive([], map[]), err;
      }
      if name == [] {
        return Directive([], map[]), Some(DirectiveNameMsg);
      }
      d := Directive(name, map[]);
      var c, e := MightIgnoreNextTokens();
      if e.Some? {
        return d, e;
      }
      if c == '(' as byte {
        charNr := charNr + 1;
        var args;
        args, e := ParseArgumentsOrObjectValues(')' as byte);
        if e.Some? {
          return d, e;
        }
        d := d.(arguments := args);
      }
      return d, None;
    }

    // ------------------------------------------------------------ variables and types

    /**
     * `parseType`: a named type or a list type in brackets, either followed
     * by an optional `!`.
     */
    method ParseType() returns (t: TypeReference, err: Option<seq<byte>>)
      requires charNr < |data|
      modifies this
      ensures err.None? ==> TypeShape(data, old(charNr), t, charNr)
      ensures data[old(charNr)] != '[' as byte && !IsNameStart(data[old(charNr)]) ==> err == Some(TypeNameMsg)
      ensures TypeAt(data, old(charNr)) == if err.None? then Some((t, charNr)) else None
    {
      ghost var start := charNr;
      t, err := ReadType();
      if err.None? {
        TypeAtFacts(data, start);
      }
    }

    /** The recursion of `parseType`: the type reference at `charNr` as `TypeAt` reads it. */
    method ReadType() returns (t: TypeReference, err: Option<seq<byte>>)
      requires charNr < |data|
      modifies this
      decreases |data| - charNr, 1
      ensures data[old(charNr)] != '[' as byte && !IsNameStart(data[old(charNr)]) ==> err == Some(TypeNameMsg)
      ensures TypeAt(data, old(charNr)) == if err.None? then Some((t, charNr)) else None
    {
      if data[charNr] == '[' as byte {
        t, err := ParseListType();
      } else {
        t, err := ParseNamedType();
      }
    }

    /** `parseType` on a `[`: the element type, the `]` and an optional `!`. */
    method ParseListType() returns (t: TypeReference, err: Option<seq<byte>>)
      requires charNr < |data| && data[charNr] == '[' as byte
      modifies this
      decreases |data| - charNr, 0
      ensures TypeAt(data, old(charNr)) == if err.None? then Some((t, charNr)) else None
    {
      ghost var start := charNr;
      charNr := charNr + 1;
      var c, e := MightIgnoreNextTokens();
      ghost var a := charNr;
      if e.Some? {
        TypeAtListNone(data, start, a);
        return NamedType([], false), e;
      }
      var inner;
      inner, e := ReadType();
      if e.Some? {
        TypeAtListNone(data, start, a);
        return NamedType([], false), e;
      }
      TypeAtList(data, start, a, inner, charNr);
      t, err := CloseListType(inner);
    }

    /** The rest of a list type in `parseType`: the `]` and an optional `!`. */
    method CloseListType(inner: TypeReference) returns (t: TypeReference, err: Option<seq<byte>>)
      requires charNr <= |data|
      modifies this
      ensures ListClosed(data, inner, old(charNr)) == if err.None? then Some((t, charNr)) else None
    {
      var c, e := MightIgnoreNextTokens();
      if e.Some? {
        return NamedType([], false), e;
      }
      if c != ']' as byte {
        return NamedType([], false), Some(ListClosureMsg(c));
      }
      charNr := charNr + 1;
      t, err := NonNullSuffix(ListType(inner, false));
    }

    /** `parseType` on anything but a `[`: a name and an optional `!`. */
    method ParseNamedType() returns (t: TypeReference, err: Option<seq<byte>>)
      requires charNr < |data| && data[charNr] != '[' as byte
      modifies this
      ensures !IsNameStart(data[old(charNr)]) ==> err == Some(TypeNameMsg)
      ensures TypeAt(data, old(charNr)) == if err.None? then Some((t, charNr)) else None
    {
      ghost var start := charNr;
      var name, e := ParseName();
      if e.Some? {
        return NamedType([], false), e;
      }
      if name == [] {
        return NamedType([], false), Some(TypeNameMsg);
      }
      t, err := NonNullSuffix(NamedType(name, false));
    }

    /** The tail of `parseType`: the `!` that may follow the type `t0`, after ignored tokens. */
    method NonNullSuffix(t0: TypeReference) returns (t: TypeReference, err: Option<seq<byte>>)
      requires charNr <= |data| && !t0.nonNull
      modifies this
      ensures err.None? <==> NonNullMark(data, t0, old(charNr)).Some?
      ensures err.None? ==> NonNullMark(data, t0, old(charNr)).value == (t, charNr)
      ensures err.Some? ==> err == Some(EofMsg) && t == NamedType([], false)
      ensures err.None? && t.nonNull ==> 0 < charNr <= |data| && data[charNr - 1] == '!' as byte
      ensures err.None? && !t.nonNull ==> charNr < |data| && data[charNr] != '!' as byte
    {
      var c, e := MightIgnoreNextTokens();
      if e.Some? {
        return NamedType([], false), e;
      }
      t := t0;
      if c == '!' as byte {
        t := t.(nonNull := true);
        charNr := charNr + 1;
      }
      return t, None;
    }

    /**
     * `parseVariableDefinitions`, after the `(`: variable definitions up to
     * the `)`. A later definition of the same variable replaces an earlier one.
     */
    method ParseVariableDefinitions() returns (defs: VariableDefinitions, err: Option<seq<byte>>)
      requires charNr <= |data|
      modifies this
      ensures err.None? ==> old(charNr) < charNr <= |data| && data[charNr - 1] == ')' as byte && VariableDefinitionsNamed(defs)
      ensures var at := SkipIgnored(data, old(charNr));
        (at >= |data| ==> err == Some(EofMsg))
        && (at < |data| && data[at] == ')' as byte ==> err.None? && defs == map[] && charNr == at + 1)
        && (at < |data| && data[at] != ')' as byte && data[at] != '$' as byte ==> err == Some(DollarMsg))
    {
      defs := map[];
      ghost var first := true;
      while true
        invariant old(charNr) <= charNr <= |data| && VariableDefinitionsNamed(defs)
        invariant first ==> charNr == old(charNr) && defs == map[]
        invariant !first ==> SkipIgnored(data, old(charNr)) < |data| && data[SkipIgnored(data, old(charNr))] == '$' as byte
        decreases |data| - charNr
      {
        var c, e := MightIgnoreNextTokens();
        if e.Some? {
          return map[], e;
        }
        if c == ')' as byte {
          charNr := charNr + 1;
          return defs, None;
        }
        var def;
        def, e := ParseVariableDefinition();
        if e.Some? {
          return map[], e;
        }
        defs := defs[def.name := def];
        first := false;
      }
    }

    /**
     * `parseVariableDefinition`: `$name: Type`, then an optional `= value`.
     * The next byte that is not ignored must exist: `parseVariable` reads it
     * unchecked.
     */
    method ParseVariableDefinition() returns (def: VariableDefinition, err: Option<seq<byte>>)
      requires charNr <= |data| + 1 && SkipIgnored(data, charNr) < |data|
      modifies this
      ensures err.None? ==> old(charNr) < charNr <= |data| && VariableDefinitionNamed(def)
      ensures data[SkipIgnored(data, old(charNr))] != '$' as byte ==> err == Some(DollarMsg)
    {
      def := VariableDefinition([], NamedType([], false), None);
      var name;
      name, err := ParseVariable(false);
      if err.Some? {
        return def, err;
      }
      var c, e := MightIgnoreNextTokens();
      if e.Some? {
        return def, e;
      }
      if c != ':' as byte {
        return def, Some(ColonGotMsg(c));
      }
      charNr := charNr + 1;
      c, e := MightIgnoreNextTokens();
      if e.Some? {
        return def, e;
      }
      var t;
      t, e := ParseType();
      if e.Some? {
        return def, e;
      }
      def := VariableDefinition(name, t, None);
      c, e := MightIgnoreNextTokens();
      if e.Some? {
        return def, e;
      }
      if c == '=' as byte {
        charNr := charNr + 1;
        c, e := MightIgnoreNextTokens();
        if e.Some? {
          return def, e;
        }
        var value;
        value, e := ParseValue();
        if e.Some? {
          return def, e;
        }
        def := def.(defaultValue := Some(value));
        c, e := MightIgnoreNextTokens();
        if e.Some? {
          return def, e;
        }
      }
      return def, None;
    }

    // ------------------------------------------------------------ selections

    /**
     * `parseSelectionSets`, after the `{`: selections up to the `}`, each
     * optionally followed by a comma.
     */
    method ParseSelectionSets() returns (ss: seq<Selection>, err: Option<seq<byte>>)
      requires charNr <= |data|
      modifies this
      decreases |data| - charNr, 2
      ensures err.None? ==> old(charNr) < charNr <= |data| && data[charNr - 1] == '}' as byte && SelectionsNamed(ss)
      ensures var at := SkipIgnored(data, old(charNr));
        (at >= |data| ==> err == Some(EofMsg))
        && (at < |data| && data[at] == '}' as byte ==> err.None? && ss == [] && charNr == at + 1)
    {
      ss := [];
      ghost var first := true;
      while true
        invariant old(charNr) <= charNr <= |data| && SelectionsNamed(ss)
        invariant first ==> charNr == old(charNr) && ss == []
        invariant !first ==> SkipIgnored(data, old(charNr)) < |data| && data[SkipIgnored(data, old(charNr))] != '}' as byte
        decreases |data| - charNr
      {
        var c, e := MightIgnoreNextTokens();
        if e.Some? {
          return [], e;
        }
        if c == '}' as byte {
          charNr := charNr + 1;
          return ss, None;
        }
        var sel;
        sel, e := ParseSelection();
        if e.Some? {
          return [], e;
        }
        ss := ss + [sel];
        first := false;
        c, e := MightIgnoreNextTokens();
        if e.Some? {
          return [], e;
        }
        if c == ',' as byte {
          charNr := charNr + 1;
        } else if c == '}' as byte {
          charNr := charNr + 1;
          return ss, None;
        }
      }
    }

    /**
     * `parseSelection`: after `...`, an inline fragment when the name that
     * follows is `on` or missing, else a fragment spread; without `...`, a field.
     */
    method ParseSelection() returns (sel: Selection, err: Option<seq<byte>>)
      requires charNr < |data|
      modifies this
      decreases |data| - charNr, 1
      ensures err.None? ==> old(charNr) < charNr <= |data| && SelectionNamed(sel)
      ensures err.None? ==> (sel.FieldSelection? <==> !KeyAt(data, old(charNr), Ellipsis))
    {
      var m := Matches({Ellipsis});
      if m != [] {
        var c, e := MightIgnoreNextTokens();
        if e.Some? {
          return FieldSelection(EmptyField), e;
        }
        var name;
        name, e := ParseName();
        if e.Some? {
          return FieldSelection(EmptyField), e;
        }
        if name == On || name == [] {
          var inl;
          inl, e := ParseInlineFragment(name == On);
          if e.Some? {
            return FieldSelection(EmptyField), e;
          }
          return InlineFragmentSelection(inl), None;
        }
        var fs;
        fs, e := ParseFragmentSpread(name);
        if e.Some? {
          return FieldSelection(EmptyField), e;
        }
        return FragmentSpreadSelection(fs), None;
      }
      var f;
      f, err := ParseField();
      if err.Some? {
        return FieldSelection(EmptyField), err;
      }
      return FieldSelection(f), None;
    }

    /**
     * `parseInlineFragment`: with `hasTypeCondition`, the name after `on`;
     * then optional directives and a selection set in braces.
     */
    method ParseInlineFragment(hasTypeCondition: bool) returns (inl: InlineFragment, err: Option<seq<byte>>)
      requires charNr <= |data|
      modifies this
      decreases |data| - charNr, 0
      ensures err.None? ==> old(charNr) < charNr <= |data| && data[charNr - 1] == '}' as byte
      ensures err.None? ==> DirectivesNamed(inl.directives) && SelectionsNamed(inl.selection)
      ensures err.None? ==> (hasTypeCondition <==> inl.onTypeConditionName != [])
      ensures err.None? && inl.onTypeConditionName != [] ==> IsName(inl.onTypeConditionName)
      ensures var at := SkipIgnored(data, old(charNr));
        hasTypeCondition && at < |data| && !IsNameStart(data[at]) ==> err == Some(TypeConditionNameMsg)
    {
      var empty := InlineFragment([], [], map[]);
      inl := empty;
      var c, e;
      if hasTypeCondition {
        var name;
        name, e := ParseTypeCondition();
        if e.Some? {
          return empty, e;
        }
        inl := inl.(onTypeConditionName := name);
      }
      var ds;
      ds, e := OptionalDirectives();
      if e.Some? {
        return empty, e;
      }
      inl := inl.(directives := ds);
      c, e := MightIgnoreNextTokens();
      if e.Some? {
        return empty, e;
      }
      if c != '{' as byte {
        return empty, Some(BraceGotMsg(data[charNr]));
      }
      charNr := charNr + 1;
      var ss;
      ss, e := ParseSelectionSets();
      if e.Some? {
        return empty, e;
      }
      return inl.(selection := ss), None;
    }

    /** `parseFragmentSpread`: the fragment's name, then optional directives. */
    method ParseFragmentSpread(name: seq<byte>) returns (fs: FragmentSpread, err: Option<seq<byte>>)
      requires charNr <= |data| + 1
      modifies this
      ensures err.None? ==> old(charNr) <= charNr < |data| && fs.name == name && DirectivesNamed(fs.directives)
      ensures var at := SkipIgnored(data, old(charNr));
        at < |data| && data[at] != '@' as byte ==> err.None? && fs == FragmentSpread(name, map[]) && charNr == at
    {
      var ds;
      ds, err := OptionalDirectives();
      fs := FragmentSpread(name, ds);
    }

    /**
     * `parseField`: an optional alias and the field's name, then optional
     * arguments, directives and selection set.
     */
    method ParseField() returns (f: Field, err: Option<seq<byte>>)
      requires charNr <= |data|
      modifies this
      decreases |data| - charNr, 0
      ensures err.None? ==> old(charNr) < charNr <= |data| && SelectionNamed(FieldSelection(f))
      ensures err.None? ==> data[old(charNr)..NameEnd(data, old(charNr))] == (if f.alias == [] then f.name else f.alias)
      ensures old(charNr) < |data| && !IsNameStart(data[old(charNr)]) ==> err.Some?
    {
      var name, alias;
      name, alias, err := ParseFieldName();
      if err.Some? {
        return EmptyField, err;
      }
      var args, ds, e;
      args, e := OptionalArguments();
      if e.Some? {
        return EmptyField, e;
      }
      ds, e := OptionalDirectives();
      if e.Some? {
        return EmptyField, e;
      }
      f := Field(name, alias, [], ds, args);
      var c;
      c, e := MightIgnoreNextTokens();
      if e.Some? {
        return EmptyField, e;
      }
      if c == '{' as byte {
        charNr := charNr + 1;
        var ss;
        ss, e := ParseSelectionSets();
        if e.Some? {
          return EmptyField, e;
        }
        f := f.(selection := ss);
      }
      return f, None;
    }

    /**
     * The start of `parseField`: a name, or an alias, a `:` and the name.
     * The alias is empty when there is none.
     */
    method ParseFieldName() returns (name: seq<byte>, alias: seq<byte>, err: Option<seq<byte>>)
      requires charNr <= |data|
      modifies this
      ensures err.None? ==> old(charNr) < charNr <= |data| && IsName(name) && (alias == [] || IsName(alias))
      ensures err.None? ==> data[old(charNr)..NameEnd(data, old(charNr))] == (if alias == [] then name else alias)
      ensures var at := SkipIgnored(data, old(charNr));
        old(charNr) < |data| && !IsNameStart(data[old(charNr)]) ==>
          (at >= |data| ==> err == Some(EofMsg))
          && (at < |data| ==> err == Some(if data[at] == ':' as byte then AliasNameMsg else FieldNameMsg))
    {
      var nameOrAlias;
      nameOrAlias, err := ParseName();
      if err.Some? {
        return [], [], err;
      }
      var c, e := MightIgnoreNextTokens();
      if e.Some? {
        return [], [], e;
      }
      if c == ':' as byte {
        if nameOrAlias == [] {
          return [], [], Some(AliasNameMsg);
        }
        charNr := charNr + 1;
        c, e := MightIgnoreNextTokens();
        if e.Some? {
          return [], [], e;
        }
        name, e := ParseName();
        if e.Some? {
          return [], [], e;
        }
        if name == [] {
          return [], [], Some(FieldNameMsg);
        }
        return name, nameOrAlias, None;
      }
      if nameOrAlias == [] {
        return [], [], Some(FieldNameMsg);
      }
      return nameOrAlias, [], None;
    }

    /** The arguments part of `parseField`: arguments in parentheses if a `(` comes next, else none. */
    method OptionalArguments() returns (args: Arguments, err: Option<seq<byte>>)
      requires charNr <= |data| + 1
      modifies this
      ensures err.None? ==> old(charNr) <= charNr <= |data| && ArgumentsNamed(args)
      ensures var at := SkipIgnored(data, old(charNr));
        (at >= |data| ==> err == Some(EofMsg))
        && (at < |data| && data[at] != '(' as byte ==> err.None? && args == map[] && charNr == at)
        && (at < |data| && data[at] == '(' as byte && err.None? ==> at < charNr && data[charNr - 1] == ')' as byte)
    {
      var c, e := MightIgnoreNextTokens();
      if e.Some? {
        return map[], e;
      }
      if c != '(' as byte {
        return map[], None;
      }
      charNr := charNr + 1;
      args, err := ParseArgumentsOrObjectValues(')' as byte);
      if err.Some? {
        return map[], err;
      }
    }

    /**
     * The optional directives of `parseField`, `parseFragmentSpread` and
     * `parseInlineFragment`: directives if an `@` comes next, else none.
     */
    method OptionalDirectives() returns (ds: Directives, err: Option<seq<byte>>)
      requires charNr <= |data| + 1
      modifies this
      ensures err.None? ==> old(charNr) <= charNr < |data| && DirectivesNamed(ds) && !StartsIgnored(data[charNr])
      ensures err.None? ==> data[charNr] != '@' as byte
      ensures var at := SkipIgnored(data, old(charNr));
        (at >= |data| ==> err == Some(EofMsg))
        && (at < |data| && data[at] != '@' as byte ==> err.None? && ds == map[] && charNr == at)
    {
      var c, e := MightIgnoreNextTokens();
      if e.Some? {
        return map[], e;
      }
      if c != '@' as byte {
        return map[], None;
      }
      ds, err := ParseDirectives();
      if err.Some? {
        return map[], err;
      }
    }

    /** The type condition of `parseInlineFragment`: the name after `on`, which must be there. */
    method ParseTypeCondition() returns (name: seq<byte>, err: Option<seq<byte>>)
      requires charNr <= |data| + 1
      modifies this
      ensures err.None? ==> IsName(name)
      ensures var at := SkipIgnored(data, old(charNr));
        (at >= |data| ==> err == Some(EofMsg))
        && (at < |data| && !IsNameStart(data[at]) ==> err == Some(TypeConditionNameMsg))
        && (err.None? ==> at < charNr < |data| && name == data[at..charNr])
    {
      var c, e := MightIgnoreNextTokens();
      if e.Some? {
        return [], e;
      }
      name, err := ParseName();
      if err.Some? {
        return [], err;
      }
      if name == [] {
        return [], Some(TypeConditionNameMsg);
      }
    }

    // ------------------------------------------------------------ operations

    /**
     * `parseOperatorOrFragment`: the next operation or fragment definition,
     * or none when only ignored tokens are left. A bare selection set is a
     * query without name, variables or directives.
     */
    method ParseOperatorOrFragment() returns (op: Option<Operator>, err: Option<seq<byte>>)
      requires charNr <= |data| + 1
      modifies this
      ensures err.Some? ==> op.None?
      ensures op.None? && err.None? <==> SkipIgnored(data, old(charNr)) >= |data|
      ensures op.Some? ==> old(charNr) < charNr <= |data| && OperatorWellFormed(op.value)
      ensures var at := SkipIgnored(data, old(charNr));
        at < |data| && data[at] == '{' as byte && op.Some? ==>
          op.value == Operator(Query, [], op.value.selection, map[], map[], None)
      ensures var at := SkipIgnored(data, old(charNr));
        at < |data| && data[at] != '{' as byte && (forall k :: k in OperationTypes ==> !KeyAt(data, at, k)) ==>
          err == Some(UnknownOperationMsg)
      ensures var at := SkipIgnored(data, old(charNr));
        op.Some? && data[at] != '{' as byte ==> KeyAt(data, at, op.value.operationType)
      ensures op.Some? ==> SkipIgnored(data, old(charNr)) < charNr && OperatorAt(data, SkipIgnored(data, old(charNr)), op.value)
    {
      var c, _ := MightIgnoreNextTokens();
      if charNr >= |data| {
        return None, None;
      }
      var res := Operator(Query, [], [], map[], map[], None);
      if c != '{' as byte {
        var t := Matches(OperationTypes);
        if t == [] {
          return None, Some(UnknownOperationMsg);
        }
        var name, e := ParseOperationName(t == Fragment);
        if e.Some? {
          return None, e;
        }
        res := res.(operationType := t, name := name);
        if t == Fragment {
          var frag;
          frag, e := ParseFragmentBody();
          if e.Some? {
            return None, e;
          }
          return Some(res.(fragment := Some(frag))), None;
        }
        var defs, ds;
        defs, ds, e := ParseVariablesAndDirectives(data[charNr]);
        if e.Some? {
          return None, e;
        }
        res := res.(variableDefinitions := defs, directives := ds);
      }
      charNr := charNr + 1;
      var ss, e := ParseSelectionSets();
      if e.Some? {
        return None, e;
      }
      return Some(res.(selection := ss)), None;
    }

    /**
     * The name of `parseOperatorOrFragment`, after the operation type: read
     * unless a `(`, `@` or `{` comes first; a fragment must have one.
     */
    method ParseOperationName(isFragment: bool) returns (name: seq<byte>, err: Option<seq<byte>>)
      requires charNr <= |data| + 1
      modifies this
      ensures err.None? ==> old(charNr) <= charNr < |data| && !StartsIgnored(data[charNr])
      ensures err.None? ==> (name == [] || IsName(name)) && (isFragment ==> name != [])
      ensures err.None? && name == [] ==> data[charNr] == '(' as byte || data[charNr] == '@' as byte || data[charNr] == '{' as byte
      ensures var at := SkipIgnored(data, old(charNr));
        (at < |data| && (isFragment || (data[at] != '(' as byte && data[at] != '@' as byte && data[at] != '{' as byte))
         && !IsNameStart(data[at])) ==> err == Some(NameGotMsg(data[at]))
    {
      name := [];
      var c, e := MightIgnoreNextTokens();
      if e.Some? {
        return [], e;
      }
      if (c != '(' as byte && c != '@' as byte && c != '{' as byte) || isFragment {
        name, e := ParseName();
        if e.Some? {
          return [], e;
        }
        if name == [] {
          return [], Some(NameGotMsg(data[charNr]));
        }
        c, e := MightIgnoreNextTokens();
        if e.Some? {
          return [], e;
        }
      }
      return name, None;
    }

    /** The rest of a fragment definition: `on`, the type condition, directives and a selection set. */
    method ParseFragmentBody() returns (frag: InlineFragment, err: Option<seq<byte>>)
      requires charNr <= |data| + 1
      modifies this
      ensures err.None? ==> old(charNr) < charNr <= |data| && IsName(frag.onTypeConditionName)
      ensures err.None? ==> DirectivesNamed(frag.directives) && SelectionsNamed(frag.selection)
      ensures !KeyAt(data, old(charNr), On) ==> err == Some(TypeConditionMsg)
    {
      var on := Matches({On});
      if on == [] {
        return InlineFragment([], [], map[]), Some(TypeConditionMsg);
      }
      frag, err := ParseInlineFragment(true);
    }

    /**
     * The variable definitions and directives of an operation, from the byte
     * `c` at the position, up to the byte that then stands for its `{`. That
     * byte is only checked when there are no directives.
     */
    method ParseVariablesAndDirectives(c: byte) returns (defs: VariableDefinitions, ds: Directives, err: Option<seq<byte>>)
      requires charNr < |data| && c == data[charNr]
      modifies this
      ensures err.None? ==> old(charNr) <= charNr < |data| && VariableDefinitionsNamed(defs) && DirectivesNamed(ds)
      ensures err.None? && ds == map[] ==> data[charNr] == '{' as byte
      ensures c != '(' as byte && c != '@' as byte && c != '{' as byte ==> err == Some(UnexpectedCharMsg)
      ensures c == '{' as byte ==> err.None? && defs == map[] && ds == map[] && charNr == old(charNr)
    {
      defs, ds := map[], map[];
      var next := c;
      var e;
      if next == '(' as byte {
        charNr := charNr + 1;
        defs, e := ParseVariableDefinitions();
        if e.Some? {
          return map[], map[], e;
        }
        next, e := MightIgnoreNextTokens();
        if e.Some? {
          return map[], map[], e;
        }
      } else if next != '@' as byte && next != '{' as byte {
        return map[], map[], Some(UnexpectedCharMsg);
      }
      if next == '@' as byte {
        ds, e := ParseDirectives();
        if e.Some? {
          return map[], map[], e;
        }
      } else if next != '{' as byte {
        return map[], map[], Some(UnexpectedCharMsg);
      }
      return defs, ds, None;
    }
  }

  /**
   * The operator `op` begins at `at`: a bare query at a `{`, and any other
   * operator at the keyword of its type.
   */
  predicate OperatorAt(d: seq<byte>, at: nat, op: Operator)
  {
    at < |d| &&
    if d[at] == '{' as byte then op == Operator(Query, [], op.selection, map[], map[], None)
    else KeyAt(d, at, op.operationType)
  }

  /** Where the operator after the first `i` of them is looked for: the start, or the end of the previous one. */
  function ResumeAt(ends: seq<nat>, i: nat): nat
    requires i <= |ends|
  {
    if i == 0 then 0 else ends[i - 1]
  }

  /**
   * The i-th of `ops` was read from `d` at `starts[i]`, the first position
   * after `ResumeAt(ends, i)` that is not an ignored token, and ends at `ends[i]`.
   */
  predicate ReadAt(d: seq<byte>, ops: seq<Operator>, starts: seq<nat>, ends: seq<nat>, i: nat)
    requires i < |ops| == |starts| == |ends|
  {
    starts[i] < ends[i] <= |d| &&
    ResumeAt(ends, i) <= |d| && starts[i] == SkipIgnored(d, ResumeAt(ends, i)) &&
    OperatorAt(d, starts[i], ops[i])
  }

  /** `ops` were read one after the other from `d`, at `starts` and up to `ends`. */
  predicate OperatorsInOrder(d: seq<byte>, ops: seq<Operator>, starts: seq<nat>, ends: seq<nat>)
  {
    |starts| == |ops| && |ends| == |ops| && ResumeAt(ends, |ends|) <= |d| &&
    forall i :: 0 <= i < |ops| ==> ReadAt(d, ops, starts, ends, i)
  }

  /** Reading one more operator where the previous ones ended keeps them in order. */
  lemma ReadOneMore(d: seq<byte>, ops: seq<Operator>, starts: seq<nat>, ends: seq<nat>, op: Operator, end: nat)
    requires OperatorsInOrder(d, ops, starts, ends)
    requires SkipIgnored(d, ResumeAt(ends, |ends|)) < end <= |d|
    requires OperatorAt(d, SkipIgnored(d, ResumeAt(ends, |ends|)), op)
    ensures OperatorsInOrder(d, ops + [op], starts + [SkipIgnored(d, ResumeAt(ends, |ends|))], ends + [end])
  {
    var at := SkipIgnored(d, ResumeAt(ends, |ends|));
    forall i | 0 <= i < |ops| + 1
      ensures ReadAt(d, ops + [op], starts + [at], ends + [end], i)
    {
      if i < |ops| {
        assert ReadAt(d, ops, starts, ends, i);
      }
    }
  }

  /** Operators read in order begin at strictly increasing positions, each after the end of the ones before it. */
  lemma {:induction false} OperatorsStartInOrder(d: seq<byte>, ops: seq<Operator>, starts: seq<nat>, ends: seq<nat>, i: nat, j: nat)
    requires OperatorsInOrder(d, ops, starts, ends)
    requires i < j < |ops|
    ensures ends[i] <= starts[j] && starts[i] < starts[j]
    decreases j - i
  {
    assert ReadAt(d, ops, starts, ends, j);
    assert ReadAt(d, ops, starts, ends, j - 1);
    if i < j - 1 {
      OperatorsStartInOrder(d, ops, starts, ends, i, j - 1);
    }
  }

  /**
   * `ParseQuery`: every operation and fragment definition of the input, in
   * order; an error stops the parse and no operator is returned. The ghost
   * `starts` and `ends` give where each operator was read.
   */
  method ParseQuery(input: seq<byte>, parseFloat: seq<byte> -> Option<real>)
    returns (ops: Option<seq<Operator>>, err: Option<seq<byte>>, ghost starts: seq<nat>, ghost ends: seq<nat>)
    ensures ops.Some? <==> err.None?
    ensures ops.Some? ==> forall i :: 0 <= i < |ops.value| ==> OperatorWellFormed(ops.value[i])
    ensures SkipIgnored(input, 0) >= |input| <==> ops == Some([])
    ensures ops.Some? ==> OperatorsInOrder(input, ops.value, starts, ends)
    ensures ops.Some? ==> SkipIgnored(input, ResumeAt(ends, |ends|)) >= |input|
  {
    var iter := new Iter(input, parseFloat);
    var res: seq<Operator> := [];
    starts, ends := [], [];
    while true
      invariant iter.data == input && iter.charNr <= |input|
      invariant forall i :: 0 <= i < |res| ==> OperatorWellFormed(res[i])
      invariant res == [] ==> iter.charNr == 0
      invariant res != [] ==> SkipIgnored(input, 0) < |input|
      invariant OperatorsInOrder(input, res, starts, ends) && iter.charNr == ResumeAt(ends, |ends|)
      decreases |input| - iter.charNr
    {
      ghost var at := SkipIgnored(input, iter.charNr);
      var op, e := iter.ParseOperatorOrFragment();
      if e.Some? {
        return None, e, starts, ends;
      }
      if op.None? {
        return Some(res), None, starts, ends;
      }
      ReadOneMore(input, res, starts, ends, op.value, iter.charNr);
      res := res + [op.value];
      starts, ends := starts + [at], ends + [iter.charNr];
    }
  }
}
