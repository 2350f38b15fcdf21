/**
 * The error values the parser and the resolver collect: the parser's
 * `ErrorWLocation`, the resolver's `ErrorWPath` and plain `errors.New` values.
 */
module Errors {
  import opened Bytes
  import opened Unicode

  /**
   * What went wrong while parsing a query (bytecode/bytecode.go): each kind
   * stands for one `ctx.err(...)` call of the parser, with the offending
   * byte where the message quotes it. `Text` spells out the message.
   */
  datatype ParseMsg =
    | UnexpectedEnd
    | NameTooLong
    | TooManyDirectives
    | ExpectedDirectiveName(got: byte)
    | InvalidTypenameChar(got: byte)
    | ExpectedListClosure(got: byte)
    | ExpectedDollar(got: byte)
    | ExpectedArgumentName(got: byte)
    | ExpectedArgumentColon(got: byte)
    | ExpectedSelection(got: byte)
    | ExpectedAliasName
    | ExpectedFragmentTypeName(got: byte)
    | ExpectedFragmentName(got: byte)
    | ExpectedInlineSelectionSet(got: byte)
    | UnexpectedInNumber(got: byte)
    | UnexpectedInFloat(got: byte)
    | NewlineInString
    | InvalidHexByte(got: byte)
    | VariableWithoutName(got: byte)
    | UnknownValueKind(got: byte)
    | ExpectedNameCharacter(got: byte)
    | ExpectedColon(got: byte)
    | ExpectedSetOpener(got: byte)
    | ExpectedDefinitionName(got: byte)
    | ExpectedOnKeyword(got: byte)
    | ExpectedTypeTarget(got: byte)
    | ExpectedOperation(got: byte)

  /** Go's `"\"" + string(c) + "\""` inside the parser's messages. */
  function Quote(c: byte): (r: seq<byte>)
    ensures 3 <= |r| <= 4 && r[0] == '"' as byte && r[|r| - 1] == '"' as byte
  {
    Str("\"") + RuneStr(c) + Str("\"")
  }

  /** The message text of a parse error, as the parser writes it. */
  function Text(m: ParseMsg): seq<byte>
  {
    match m
    case UnexpectedEnd => Str("unexpected EOF")
    case NameTooLong => Str("names cannot be longer than 254 chars")
    case TooManyDirectives => Str("cannot have more than 255 directives")
    case ExpectedDirectiveName(c) => Str("expected directive name but got char ") + Quote(c)
    case InvalidTypenameChar(c) => Str("invalid typename char ") + Quote(c)
    case ExpectedListClosure(c) => Str("expected list closure (\"]\") but got ") + Quote(c)
    case ExpectedDollar(c) => Str("expected \"$\" but got ") + Quote(c)
    case ExpectedArgumentName(c) => Str("expected argument name but got ") + Quote(c)
    case ExpectedArgumentColon(c) => Str("expected \":\" name but got ") + Quote(c)
    case ExpectedSelection(c) => Str("unexpected character, expected valid name or selection closure but got: ") + Quote(c)
    case ExpectedAliasName => Str("unexpected character, expected valid name char but got ") + Quote(':' as byte)
    case ExpectedFragmentTypeName(c) => Str("expected fragment type name but got char: ") + Quote(c)
    case ExpectedFragmentName(c) => Str("expected fragment name but got char: ") + Quote(c)
    case ExpectedInlineSelectionSet(c) => Str("expected selection set open (\"{\") on inline fragment but got ") + Quote(c)
    case UnexpectedInNumber(c) => Str("unexpected character in int or float value, char: ") + Quote(c)
    case UnexpectedInFloat(c) => Str("unexpected character in float value, char: ") + Quote(c)
    case NewlineInString => Str("newline and carriage returns not allowed in strings")
    case InvalidHexByte(c) => HexErrorMessage(c)
    case VariableWithoutName(c) => Str("variable input should have a name, got character: ") + Quote(c)
    case UnknownValueKind(c) => Str("unknown value kind, got character: ") + Quote(c)
    case ExpectedNameCharacter(c) => Str("expected name character but got: ") + Quote(c)
    case ExpectedColon(c) => Str("expected \":\" but got ") + Quote(c)
    case ExpectedSetOpener(c) => Str("expected selection set opener (\"{\") but got ") + Quote(c)
    case ExpectedDefinitionName(c) => Str("expected fragment name but got ") + Quote(c)
    case ExpectedOnKeyword(c) => Str("expected \"on\" keyword but got ") + Quote(c)
    case ExpectedTypeTarget(c) => Str("expected fragment type target but got ") + Quote(c)
    case ExpectedOperation(c) => Str("expected query, mutation, subscription or a simple query (\"{...}\") but got ") + Quote(c)
  }

  datatype Error =
    | ErrorWLocation(what: ParseMsg, line: nat, column: nat)
    | ErrorWPath(msg: seq<byte>, path: seq<byte>)
    | PlainError(msg: seq<byte>)
  {
    /** `Error()`: every kind reports its message. */
    function Message(): seq<byte>
    {
      match this
      case ErrorWLocation(what, _, _) => Text(what)
      case ErrorWPath(msg, _) => msg
      case PlainError(msg) => msg
    }
  }
}
