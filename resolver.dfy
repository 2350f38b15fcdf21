/**
 * The bookkeeping of the resolver (resolver.go) around the Go values it
 * resolves: the JSON path of the current field, errors that carry that
 * path, the user's value map, the field header it reads from the bytecode,
 * the range checks on integer arguments, and the response envelope.
 * Resolving a field's Go value (reflection and user methods) is not part of
 * this model: where it happens, its outcome is a parameter.
 */
module Resolver {
  import opened Wrappers
  import opened Bytes
  import opened Kinds
  import opened Errors
  import EncodeString

  // ---------------------------------------------------------------- the path

  /** What `resolveField` appends to the path for a field: `,"alias"`. */
  function Segment(alias: seq<byte>): seq<byte>
  {
    [',' as byte, '"' as byte] + alias + ['"' as byte]
  }

  /** The path after entering the fields `aliases`, outermost first. */
  function PathOf(aliases: seq<seq<byte>>): seq<byte>
  {
    if |aliases| == 0 then [] else PathOf(aliases[..|aliases| - 1]) + Segment(aliases[|aliases| - 1])
  }

  /** The JSON strings for `aliases`, separated by commas. */
  function QuotedList(aliases: seq<seq<byte>>): seq<byte>
    requires |aliases| > 0
  {
    var q := ['"' as byte] + aliases[|aliases| - 1] + ['"' as byte];
    if |aliases| == 1 then q else QuotedList(aliases[..|aliases| - 1]) + [',' as byte] + q
  }

  /** `GetPath`: `[]` for an empty path, otherwise the path without its leading comma between brackets. */
  function GetPath(path: seq<byte>): (r: seq<byte>)
    ensures 2 <= |r| && r[0] == '[' as byte && r[|r| - 1] == ']' as byte
    ensures |path| <= |r| <= |path| + 2
  {
    if |path| == 0 then ['[' as byte, ']' as byte] else ['[' as byte] + path[1..] + [']' as byte]
  }

  /** The path of nested fields reads as the JSON array of their aliases. */
  lemma {:induction false} PathIsJsonArray(aliases: seq<seq<byte>>)
    requires |aliases| > 0
    ensures |PathOf(aliases)| > 0 && PathOf(aliases)[1..] == QuotedList(aliases)
    ensures GetPath(PathOf(aliases)) == ['[' as byte] + QuotedList(aliases) + [']' as byte]
  {
    var init := aliases[..|aliases| - 1];
    var last := aliases[|aliases| - 1];
    var q := ['"' as byte] + last + ['"' as byte];
    if |aliases| == 1 {
      assert init == [];
      assert PathOf(aliases) == Segment(last);
      assert Segment(last)[1..] == q;
    } else {
      PathIsJsonArray(init);
      assert PathOf(aliases) == PathOf(init) + Segment(last);
      assert Segment(last) == [',' as byte] + q;
      assert PathOf(aliases)[1..] == PathOf(init)[1..] + Segment(last);
    }
  }

  /** The error `err` records at `path`: a plain one at the top, otherwise one carrying the path without its leading comma. */
  function ErrAt(path: seq<byte>, msg: seq<byte>): (e: Error)
    ensures e.Message() == msg
    ensures e.PlainError? <==> |path| == 0
    ensures e.ErrorWPath? ==> ['[' as byte] + e.path + [']' as byte] == GetPath(path)
  {
    if |path| == 0 then PlainError(msg) else ErrorWPath(msg, path[1..])
  }

  // ---------------------------------------------------------------- integer arguments

  const TWO_63: int := 0x8000_0000_0000_0000
  const TWO_64: int := 0x1_0000_0000_0000_0000

  /** Go's conversion of an `int64` to a signed integer of `2 * half` values: keep the low bits, two's complement. */
  function WrapSigned(v: int, half: int): (r: int)
    requires half > 0
    ensures -half <= r < half
    ensures -half <= v < half ==> r == v
  {
    ModOfRange(v + half, 2 * half);
    (v + half) % (2 * half) - half
  }

  /** Euclidean `%` lands in `[0, m)` and leaves a value already there alone. */
  lemma ModOfRange(x: int, m: int)
    requires m > 0
    ensures 0 <= x % m < m
    ensures 0 <= x < m ==> x % m == x
  {
    if 0 <= x < m {
      assert x == 0 * m + x;
    }
  }

  /** Go's conversion of a `uint64` to an unsigned integer of `modulus` values: keep the low bits. */
  function WrapUnsigned(v: nat, modulus: nat): (r: nat)
    requires modulus > 0
    ensures r < modulus
    ensures v < modulus ==> r == v
  {
    ModOfRange(v, modulus);
    v % modulus
  }

  /** The number of values of a narrow integer kind's upper half (signed) or range (unsigned), 0 for the others. */
  function SignedHalf(k: Kind): nat
  {
    match k
    case Int8 => 128
    case Int16 => 32768
    case Int32 => 0x8000_0000
    case _ => 0
  }

  function UnsignedRange(k: Kind): nat
  {
    match k
    case Uint8 => 256
    case Uint16 => 65536
    case Uint32 => TWO_32
    case _ => 0
  }

  function BitsName(k: Kind): seq<byte>
  {
    match k
    case Int8 => Str("8") case Uint8 => Str("8")
    case Int16 => Str("16") case Uint16 => Str("16")
    case _ => Str("32")
  }

  /** The values a signed kind holds. */
  predicate FitsSigned(k: Kind, v: int)
  {
    match k
    case Int8 => -128 <= v < 128
    case Int16 => -32768 <= v < 32768
    case Int32 => -0x8000_0000 <= v < 0x8000_0000
    case _ => true
  }

  /** The values an unsigned kind holds. */
  predicate FitsUnsigned(k: Kind, v: nat)
  {
    match k
    case Uint8 => v < 256
    case Uint16 => v < 65536
    case Uint32 => v < TWO_32
    case _ => true
  }

  /**
   * Binding an integer literal `text` with the value `value` (what
   * `strconv.ParseInt` gave) to a signed Go integer of kind `k`: rejected
   * when the value does not survive the conversion to the narrow kind.
   */
  function CheckSignedNarrowing(k: Kind, text: seq<byte>, value: int): (err: Option<seq<byte>>)
    requires IsSignedInt(k) && -TWO_63 <= value < TWO_63
    ensures err.None? <==> FitsSigned(k, value)
    ensures err.Some? ==> err.value == Str("cannot assign ") + text + Str(" to a ") + BitsName(k) + Str("bit integer")
  {
    if SignedHalf(k) > 0 && WrapSigned(value, SignedHalf(k)) != value then
      Some(Str("cannot assign ") + text + Str(" to a ") + BitsName(k) + Str("bit integer"))
    else None
  }

  /** The same for an unsigned Go integer and the value `strconv.ParseUint` gave. */
  function CheckUnsignedNarrowing(k: Kind, text: seq<byte>, value: nat): (err: Option<seq<byte>>)
    requires IsUnsignedInt(k) && value < TWO_64
    ensures err.None? <==> FitsUnsigned(k, value)
    ensures err.Some? ==> err.value == Str("cannot assign ") + text + Str(" to a ") + BitsName(k) + Str("bit unsigned integer")
  {
    if UnsignedRange(k) > 0 && WrapUnsigned(value, UnsignedRange(k)) != value then
      Some(Str("cannot assign ") + text + Str(" to a ") + BitsName(k) + Str("bit unsigned integer"))
    else None
  }

  // ---------------------------------------------------------------- the response

  const DataOpen: seq<byte> := Str("{\"data\":")
  const ErrorsOpen: seq<byte> := Str(",\"errors\":[")
  const NoExtensions: seq<byte> := Str(",\"extensions\":{}}")
  const NoErrorsTail: seq<byte> := Str(",\"errors\":[],\"extensions\":{}}")

  const MessageOpen: seq<byte> := Str("{\"message\":")
  const PathOpen: seq<byte> := Str(",\"path\":[")
  const LocationsOpen: seq<byte> := Str(",\"locations\":[{\"line\":")
  const ColumnOpen: seq<byte> := Str(",\"column\":")

  /** The path of an error that has a non-empty one. */
  function PathPart(e: Error): seq<byte>
  {
    if e.ErrorWPath? && |e.path| > 0 then PathOpen + e.path + [']' as byte] else []
  }

  /** The line and column of a parse error. */
  function LocationPart(e: Error): seq<byte>
  {
    if e.ErrorWLocation? then LocationsOpen + Decimal(e.line) + ColumnOpen + Decimal(e.column) + ['}' as byte, ']' as byte] else []
  }

  /** One entry of `errors`: the message, the path for an error that has one, and the location for a parse error. */
  function ErrorJson(e: Error): seq<byte>
  {
    MessageOpen + EncodeString.Quoted(e.Message()) + PathPart(e) + LocationPart(e) + ['}' as byte]
  }

  /** The entries of `errors`, separated by commas. */
  function ErrorsJson(errs: seq<Error>): seq<byte>
  {
    if |errs| == 0 then []
    else if |errs| == 1 then ErrorJson(errs[0])
    else ErrorsJson(errs[..|errs| - 1]) + [',' as byte] + ErrorJson(errs[|errs| - 1])
  }

  /** The response with meta data and without tracing: the data, every error, and empty extensions. */
  function Envelope(data: seq<byte>, errs: seq<Error>): seq<byte>
  {
    DataOpen + data + ErrorsOpen + ErrorsJson(errs) + [']' as byte] + NoExtensions
  }

  /** Without errors, the envelope is the data between the fixed head and tail. */
  lemma EnvelopeWithoutErrors(data: seq<byte>)
    ensures Envelope(data, []) == DataOpen + data + NoErrorsTail
  {
    assert ErrorsOpen + [']' as byte] + NoExtensions == NoErrorsTail;
  }

  lemma EnvelopeParts(data: seq<byte>, errs: seq<Error>, written: seq<byte>)
    requires written == DataOpen + data + ErrorsOpen + ErrorsJson(errs)
    ensures written + [']' as byte] + NoExtensions == Envelope(data, errs)
  {
  }

  /** What `Resolve` writes for the data: `{}` when parsing failed or no operation was found, else the operation between braces. */
  function DataPart(parseErrors: seq<Error>, targetIdx: int, operation: seq<byte>): seq<byte>
  {
    if |parseErrors| == 0 && targetIdx != -1 then ['{' as byte] + operation + ['}' as byte]
    else ['{' as byte, '}' as byte]
  }

  /** The errors `Resolve` returns: the parse errors, or the missing operation, or the operation's own. */
  function ResolveErrors(parseErrors: seq<Error>, targetIdx: int, operatorTarget: seq<byte>, operationErrors: seq<Error>): (r: seq<Error>)
    ensures |parseErrors| > 0 ==> r == parseErrors
    ensures |parseErrors| == 0 && targetIdx == -1 ==> |r| == 1 && r[0].PlainError?
  {
    if |parseErrors| > 0 then parseErrors
    else if targetIdx == -1 then
      if |operatorTarget| > 0 then [PlainError(Str("no operator with name ") + operatorTarget + Str(" found"))]
      else [PlainError(Str("no operator found"))]
    else operationErrors
  }

  // ---------------------------------------------------------------- the context

  /**
   * What a directive on a field decided: skip the field, or a critical
   * error, and the errors it recorded. A directive the schema does not
   * define records `unknown directive <name>` at the field's path and is
   * critical.
   */
  datatype DirectiveOutcome = DirectiveOutcome(skip: bool, critical: bool, errors: seq<Error>)

  /** The errors the first `n` directives recorded, in order. */
  function DirectiveErrors(directive: nat -> DirectiveOutcome, n: nat): seq<Error>
  {
    if n == 0 then [] else DirectiveErrors(directive, n - 1) + directive(n - 1).errors
  }

  /** The object type a field is looked up in: its field keys, its name, and the name as written in a response. */
  datatype ObjType = ObjType(fieldKeys: set<u32>, typeName: seq<byte>, typeNameBytes: seq<byte>)

  /** The name of the meta field every object has. */
  const TypenameField: seq<byte> := Str("__typename")

  /**
   * A field record at `at` fits in `res`: the directive count, the uint32
   * length and name hash, the alias with its length byte, and the name with
   * its length byte.
   */
  predicate FieldFits(res: seq<byte>, at: int)
  {
    0 <= at && at + 10 <= |res|
    && at + 10 + res[at + 9] as int < |res|
    && at + 10 + res[at + 9] as int + 1 + res[at + 10 + res[at + 9] as int] as int <= |res|
  }

  /** What a field record names: the hash of the field's name, its alias, and the name. */
  datatype FieldRecord = FieldRecord(key: u32, alias: seq<byte>, name: seq<byte>)

  /** The field record at `at`; the name is the alias when the record has no separate name. */
  function FieldOf(res: seq<byte>, at: int): FieldRecord
    requires FieldFits(res, at)
  {
    var alias := res[at + 10..at + 10 + res[at + 9] as int];
    var nameAt := at + 10 + res[at + 9] as int;
    FieldRecord(DecodeLe32(res, at + 5), alias,
                if res[nameAt] == 0 then alias else res[nameAt + 1..nameAt + 1 + res[nameAt] as int])
  }

  /** Where the header of the record at `at` ends: one byte past the alias and the name. */
  function FieldHeaderEnd(res: seq<byte>, at: int): (n: int)
    requires FieldFits(res, at)
    ensures at + 12 <= n <= |res| + 1
  {
    var nameAt := at + 10 + res[at + 9] as int;
    nameAt + 1 + res[nameAt] as int + 1
  }

  /**
   * Where the field's selection or its `e` starts: right after the header
   * when the field has no directives, else `afterDirectives`.
   */
  function SelectionAt(res: seq<byte>, at: int, afterDirectives: int): int
    requires FieldFits(res, at)
  {
    if res[at] == 0 then FieldHeaderEnd(res, at) else afterDirectives
  }

  /** Where the record at `at` ends: its length counts from after the name hash. */
  function FieldEnd(res: seq<byte>, at: int): int
    requires FieldFits(res, at)
  {
    at + 9 + DecodeLe32(res, at + 1)
  }

  /** Directive `i` is the first of `count` that skips the field or fails. */
  predicate FirstStop(directive: nat -> DirectiveOutcome, count: int, i: int)
  {
    0 <= i < count && (directive(i).skip || directive(i).critical)
    && forall j :: 0 <= j < i ==> !directive(j).skip && !directive(j).critical
  }

  /**
   * What resolving a field that no directive skipped leaves: `"alias":`
   * and then the value, the type's name for `__typename`, or `null`; an
   * unknown field and a selection on `__typename` record one error at the
   * field's own path.
   */
  ghost predicate FieldWritten(result0: seq<byte>, result: seq<byte>, errors0: seq<Error>, errors: seq<Error>, criticalErr: bool,
                               field: FieldRecord, typeObj: ObjType, addCommaBefore: bool, outer: seq<byte>,
                               hasSelection: bool, value: (seq<byte>, bool, seq<Error>))
  {
    var head := FieldHead(addCommaBefore, field.alias);
    var fieldPath := (outer + Segment(field.alias))[1..];
    if field.key in typeObj.fieldKeys then
      result == result0 + head + value.0 && errors == errors0 + value.2 && criticalErr == value.1
    else if field.name != TypenameField then
      result == result0 + head + Str("null") && criticalErr
      && errors == errors0 + [ErrorWPath(field.name + Str(" does not exists on ") + typeObj.typeName, fieldPath)]
    else if hasSelection then
      result == result0 + head && criticalErr
      && errors == errors0 + [ErrorWPath(Str("cannot have a selection set on this field"), fieldPath)]
    else
      result == result0 + head + ['"' as byte] + typeObj.typeNameBytes + ['"' as byte] && !criticalErr && errors == errors0
  }

  /** The directive loop of `resolveField`: stop at the first directive that skips the field or fails. */
  method RunDirectives(count: int, directive: nat -> DirectiveOutcome) returns (stop: bool, critical: bool, errs: seq<Error>)
    ensures stop <==> exists i :: 0 <= i < count && (directive(i).skip || directive(i).critical)
    ensures stop ==> exists i :: FirstStop(directive, count, i) && critical == directive(i).critical
    ensures stop ==> exists i :: FirstStop(directive, count, i) && critical == directive(i).critical
                                 && errs == DirectiveErrors(directive, i + 1)
    ensures !stop ==> errs == DirectiveErrors(directive, if count < 0 then 0 else count)
  {
    var i := 0;
    errs := [];
    while i < count
      invariant 0 <= i <= count || (count < 0 && i == 0)
      invariant forall j :: 0 <= j < i ==> !directive(j).skip && !directive(j).critical
      invariant errs == DirectiveErrors(directive, i)
    {
      var modifier := directive(i);
      errs := errs + modifier.errors;
      if modifier.critical || modifier.skip {
        assert FirstStop(directive, count, i);
        return true, modifier.critical, errs;
      }
      i := i + 1;
    }
    return false, false, errs;
  }

  /** A critical first directive is where the directive loop stops, and only its errors are recorded. */
  lemma FirstCriticalStops(directive: nat -> DirectiveOutcome, count: int, i: int)
    requires FirstStop(directive, count, i) && directive(0).critical
    ensures i == 0 && DirectiveErrors(directive, i + 1) == directive(0).errors
  {
    assert DirectiveErrors(directive, 1) == DirectiveErrors(directive, 0) + directive(0).errors;
  }

  /** What precedes a field's value in the response: a comma unless it is the first, and the quoted alias with a colon. */
  function FieldHead(addCommaBefore: bool, alias: seq<byte>): seq<byte>
  {
    (if addCommaBefore then [',' as byte] else []) + ['"' as byte] + alias + ['"' as byte, ':' as byte]
  }

  /** The resolver's state for one query; `V` is whatever the user stores in the value map. */
  const InvalidSetupMsg: seq<byte> := Str("invalid setup")

  class Ctx<V> {
    /** `query.Res`, the bytecode. */
    var res: seq<byte>
    var charNr: int
    /** The JSON path of the field being resolved, each field as `,"alias"`. */
    var path: seq<byte>
    /** `query.Errors`. */
    var errors: seq<Error>
    /** The user's values; `None` is the nil map pointer. */
    var values: Option<map<seq<byte>, V>>
    /** `schema.Result`, the response being written. */
    var result: seq<byte>

    constructor (res: seq<byte>)
      ensures this.res == res && charNr == 0 && path == [] && errors == [] && values.None? && result == []
    {
      this.res := res;
      charNr := 0;
      path := [];
      errors := [];
      values := None;
      result := [];
    }

    /** `GetValue`: the value stored under `key`, `None` (nil) when there is none. */
    function GetValue(key: seq<byte>): (value: Option<V>)
      reads this
      ensures value.Some? <==> values.Some? && key in values.value
      ensures value.Some? ==> value.value == values.value[key]
    {
      if values.None? || key !in values.value then None else Some(values.value[key])
    }

    /** `GetValueOk`: the value and whether the key was found. */
    function GetValueOk(key: seq<byte>): (r: (Option<V>, bool))
      reads this
      ensures r.1 <==> values.Some? && key in values.value
      ensures r.0 == GetValue(key)
    {
      if values.None? then (None, false)
      else if key in values.value then (Some(values.value[key]), true)
      else (None, false)
    }

    /** `SetValue`: store `value` under `key`, creating the map on first use. */
    method SetValue(key: seq<byte>, value: V)
      modifies this
      ensures GetValue(key) == Some(value) && GetValueOk(key) == (Some(value), true)
      ensures forall k :: k != key ==> GetValue(k) == old(GetValue(k))
      ensures values.Some? && values.value.Keys == (if old(values).Some? then old(values).value.Keys else {}) + {key}
      ensures res == old(res) && charNr == old(charNr) && path == old(path) && errors == old(errors) && result == old(result)
    {
      if values.None? {
        values := Some(map[key := value]);
      } else {
        values := Some(values.value[key := value]);
      }
    }

    /** `err(msg)`: record one error at the current path; always true. */
    method Err(msg: seq<byte>) returns (r: bool)
      modifies this
      ensures r
      ensures errors == old(errors) + [ErrAt(path, msg)]
      ensures res == old(res) && charNr == old(charNr) && path == old(path) && values == old(values) && result == old(result)
    {
      errors := errors + [ErrAt(path, msg)];
      return true;
    }

    /**
     * `resolveField` for the field record at `charNr`: read the header and
     * the alias and name, push the alias on the path, let the directives
     * decide, write `"alias":` and the value, then restore the path and jump
     * past the record. `directive(i)` is what the field's i-th directive
     * decided, `afterDirectives` the position after the directive records
     * when there are any (with none, that is where the header ends),
     * and `value` what resolving the Go value wrote and whether that failed.
     */
    method ResolveField(typeObj: ObjType, addCommaBefore: bool, directive: nat -> DirectiveOutcome,
                        afterDirectives: nat, value: (seq<byte>, bool, seq<Error>))
      returns (skipped: bool, criticalErr: bool)
      requires FieldFits(res, charNr) && 0 <= SelectionAt(res, charNr, afterDirectives) < |res|
      modifies this
      ensures res == old(res) && values == old(values)
      ensures path == old(path)
      ensures charNr == FieldEnd(res, old(charNr)) + 1
      ensures skipped <==> exists i :: 0 <= i < res[old(charNr)] as int && (directive(i).skip || directive(i).critical)
      ensures skipped ==> result == old(result)
      ensures skipped ==> exists i :: FirstStop(directive, res[old(charNr)] as int, i) && criticalErr == directive(i).critical
                                      && errors == old(errors) + DirectiveErrors(directive, i + 1)
      ensures res[old(charNr)] > 0 && directive(0).critical ==>
                skipped && criticalErr && result == old(result) && errors == old(errors) + directive(0).errors
      ensures !skipped ==> FieldWritten(old(result), result, old(errors) + DirectiveErrors(directive, res[old(charNr)] as int),
                                        errors, criticalErr, FieldOf(res, old(charNr)),
                                        typeObj, addCommaBefore, old(path),
                                        res[SelectionAt(res, old(charNr), afterDirectives)] != 'e' as byte, value)
    {
      var directivesCount, endOfField, field := ReadFieldHeader();
      var prefPathLen := |path|;
      path := path + Segment(field.alias);

      var stop, critical, directiveErrors := RunDirectives(directivesCount, directive);
      errors := errors + directiveErrors;
      if stop {
        ghost var i :| FirstStop(directive, directivesCount, i) && critical == directive(i).critical
                       && directiveErrors == DirectiveErrors(directive, i + 1);
        if directivesCount > 0 && directive(0).critical {
          FirstCriticalStops(directive, directivesCount, i);
        }
        path := path[..prefPathLen];
        charNr := endOfField + 1;
        return true, critical;
      }
      if directivesCount != 0 {
        charNr := afterDirectives;
      }
      var fieldHasSelection := res[charNr] != 'e' as byte;
      criticalErr := WriteField(typeObj, addCommaBefore, field, fieldHasSelection, value, old(path));

      path := path[..prefPathLen];
      charNr := endOfField + 1;
      return false, criticalErr;
    }

    /**
     * The reads at the start of `resolveField`: the directive count, the
     * length, the name hash, the alias and the name. (The source pushes the
     * alias on the path between reading the alias and the name.)
     */
    method ReadFieldHeader() returns (directivesCount: int, endOfField: int, field: FieldRecord)
      requires FieldFits(res, charNr)
      modifies this
      ensures res == old(res) && values == old(values) && path == old(path) && errors == old(errors) && result == old(result)
      ensures directivesCount == res[old(charNr)] as int
      ensures endOfField == FieldEnd(res, old(charNr)) && field == FieldOf(res, old(charNr))
      ensures charNr == FieldHeaderEnd(res, old(charNr))
    {
      var data, c := res, charNr;
      directivesCount := data[c] as int;
      c := c + 1;
      var fieldLen := DecodeLe32(data, c);
      c := c + 4;
      var nameKey := DecodeLe32(data, c);
      c := c + 4;
      endOfField := c + fieldLen;

      ghost var at := old(charNr);
      assert c == at + 9 && endOfField == FieldEnd(data, at);
      var aliasLen := data[c] as int;
      c := c + 1;
      var startOfAlias := c;
      var endOfAlias := startOfAlias + aliasLen;
      var alias := data[startOfAlias..endOfAlias];
      c := c + aliasLen;
      ghost var nameAt := at + 10 + data[at + 9] as int;
      assert c == endOfAlias == nameAt && alias == FieldOf(data, at).alias;

      var startOfName, endOfName := startOfAlias, endOfAlias;
      var lenOfName := data[c];
      c := c + 1;
      if lenOfName != 0 {
        startOfName := c;
        endOfName := startOfName + lenOfName as int;
        c := c + lenOfName as int;
      }
      charNr := c + 1;
      field := FieldRecord(nameKey, alias, data[startOfName..endOfName]);
    }

    /**
     * The part of `resolveField` after the directives: `"alias":` and the
     * value, `__typename` for a field the type does not have under that
     * name, or `null` and an error for any other unknown field.
     */
    method WriteField(typeObj: ObjType, addCommaBefore: bool, field: FieldRecord, hasSelection: bool, value: (seq<byte>, bool, seq<Error>),
                      ghost outer: seq<byte>)
      returns (criticalErr: bool)
      requires path == outer + Segment(field.alias)
      modifies this
      ensures res == old(res) && values == old(values) && path == old(path) && charNr == old(charNr)
      ensures FieldWritten(old(result), result, old(errors), errors, criticalErr, field, typeObj, addCommaBefore, outer, hasSelection, value)
    {
      result := result + FieldHead(addCommaBefore, field.alias);
      criticalErr := false;
      if field.key !in typeObj.fieldKeys {
        if field.name == TypenameField {
          if hasSelection {
            criticalErr := Err(Str("cannot have a selection set on this field"));
          } else {
            result := result + ['"' as byte] + typeObj.typeNameBytes + ['"' as byte];
          }
        } else {
          result := result + Str("null");
          criticalErr := Err(field.name + Str(" does not exists on ") + typeObj.typeName);
        }
      } else {
        result := result + value.0;
        errors := errors + value.2;
        criticalErr := value.1;
      }
    }

    /**
     * `Resolve` without tracing: start a fresh response and path, take the
     * parser's outcome (its errors and the selected operation's index), and
     * write the data and, unless `noMeta`, the envelope with every error.
     * `operation` is what resolving the operation wrote and recorded.
     * Before the schema is parsed it only reports `invalid setup`.
     */
    method Resolve(parsed: bool, noMeta: bool, operatorTarget: seq<byte>, newValues: Option<map<seq<byte>, V>>,
                   parseErrors: seq<Error>, targetIdx: int, operation: (seq<byte>, seq<Error>))
      returns (errs: seq<Error>)
      modifies this
      ensures !parsed ==> errs == [PlainError(InvalidSetupMsg)] && unchanged(this)
      ensures parsed ==> errs == errors == ResolveErrors(parseErrors, targetIdx, operatorTarget, operation.1)
      ensures parsed && noMeta ==> result == DataPart(parseErrors, targetIdx, operation.0)
      ensures parsed && !noMeta ==> result == Envelope(DataPart(parseErrors, targetIdx, operation.0), errs)
      ensures parsed ==> values == newValues && path == []
    {
      if !parsed {
        return [PlainError(InvalidSetupMsg)];
      }
      result := [];
      path := [];
      charNr := 0;
      values := newValues;
      errors := parseErrors;

      if !noMeta {
        result := DataOpen;
      }
      ghost var head := result;
      ghost var data := DataPart(parseErrors, targetIdx, operation.0);
      WriteData(operatorTarget, targetIdx, operation);
      assert result == head + data;

      if !noMeta {
        if |errors| == 0 {
          result := result + NoErrorsTail;
          EnvelopeWithoutErrors(data);
        } else {
          result := result + ErrorsOpen;
          result := WriteErrors(result, errors);
          EnvelopeParts(data, errors, result);
          result := result + [']' as byte] + NoExtensions;
        }
      }
      errs := errors;
    }

    /** The data part of `Resolve`, after parsing left `errors` behind. */
    method WriteData(operatorTarget: seq<byte>, targetIdx: int, operation: (seq<byte>, seq<Error>))
      requires path == []
      modifies this
      ensures result == old(result) + DataPart(old(errors), targetIdx, operation.0)
      ensures errors == ResolveErrors(old(errors), targetIdx, operatorTarget, operation.1)
      ensures res == old(res) && values == old(values) && path == old(path)
    {
      if |errors| == 0 {
        charNr := targetIdx;
        if charNr == -1 {
          result := result + ['{' as byte, '}' as byte];
          var _ := Err(if |operatorTarget| > 0 then Str("no operator with name ") + operatorTarget + Str(" found") else Str("no operator found"));
        } else {
          result := result + ['{' as byte] + operation.0 + ['}' as byte];
          errors := errors + operation.1;
        }
      } else {
        result := result + ['{' as byte, '}' as byte];
      }
    }
  }

  /** The loop of `Resolve` over the errors: entries separated by commas. */
  method WriteErrors(out: seq<byte>, errs: seq<Error>) returns (r: seq<byte>)
    ensures r == out + ErrorsJson(errs)
  {
    r := out;
    var i := 0;
    while i < |errs|
      invariant 0 <= i <= |errs|
      invariant r == out + ErrorsJson(errs[..i])
    {
      ghost var before := r;
      if i > 0 {
        r := r + [',' as byte];
      }
      r := WriteError(r, errs[i]);
      ErrorsJsonStep(out, errs, i, before, r);
      i := i + 1;
    }
    assert errs[..|errs|] == errs;
  }

  /** One more entry: a comma unless it is the first, then the entry. */
  lemma ErrorsJsonStep(out: seq<byte>, errs: seq<Error>, i: nat, before: seq<byte>, after: seq<byte>)
    requires i < |errs| && before == out + ErrorsJson(errs[..i])
    requires after == (if i > 0 then before + [',' as byte] else before) + ErrorJson(errs[i])
    ensures after == out + ErrorsJson(errs[..i + 1])
  {
    ErrorsJsonLast(errs, i);
    assert i == 0 ==> errs[..i] == [];
    AppendEntry(out, ErrorsJson(errs[..i]), ErrorJson(errs[i]), i > 0, before, after);
  }

  /** `ErrorsJson` of a prefix one entry longer. */
  lemma ErrorsJsonLast(errs: seq<Error>, i: nat)
    requires i < |errs|
    ensures ErrorsJson(errs[..i + 1]) == (if i > 0 then ErrorsJson(errs[..i]) + [',' as byte] else []) + ErrorJson(errs[i])
  {
    var next := errs[..i + 1];
    assert next[..i] == errs[..i] && next[i] == errs[i];
    if i == 0 {
      assert next == [errs[0]];
    }
  }

  lemma AppendEntry(out: seq<byte>, x: seq<byte>, y: seq<byte>, comma: bool, before: seq<byte>, after: seq<byte>)
    requires before == out + x && after == (if comma then before + [',' as byte] else before) + y
    requires !comma ==> x == []
    ensures after == out + ((if comma then x + [',' as byte] else []) + y)
  {
    if comma {
      assert out + x + [',' as byte] + y == out + (x + [',' as byte] + y);
    } else {
      assert out + [] + y == out + ([] + y);
    }
  }

  /** One error entry appended to `out`, the message through `stringToJson`. */
  method WriteError(out: seq<byte>, e: Error) returns (r: seq<byte>)
    ensures r == out + ErrorJson(e)
  {
    r := out + MessageOpen;
    r := EncodeString.StringToJson(e.Message(), r);
    ghost var withMessage := r;
    if e.ErrorWPath? && |e.path| > 0 {
      r := r + (PathOpen + e.path + [']' as byte]);
    }
    assert r == withMessage + PathPart(e);
    ghost var withPath := r;
    if e.ErrorWLocation? {
      r := r + (LocationsOpen + Decimal(e.line) + ColumnOpen + Decimal(e.column) + ['}' as byte, ']' as byte]);
    }
    assert r == withPath + LocationPart(e);
    r := r + ['}' as byte];
    Concat5(out, MessageOpen, EncodeString.Quoted(e.Message()), PathPart(e), LocationPart(e), ['}' as byte]);
  }

  lemma Concat5(a: seq<byte>, b: seq<byte>, c: seq<byte>, d: seq<byte>, e: seq<byte>, f: seq<byte>)
    ensures a + b + c + d + e + f == a + (b + c + d + e + f)
  {
  }
}
