/**
 * The byte constants of the query bytecode and the fixed headers that the
 * `instruction*` helpers append (bytecode/bytecode_instructions.go).
 *
 * Every record starts with a 0 byte followed by an action byte. The field and
 * fragment-spread headers exist in two layouts: the one the helpers of
 * bytecode_instructions.go append (7 and 4 bytes) and the one bytecode.go
 * indexes into and resolver.go reads (11 and 8 bytes, with a uint32 length
 * slot, and for fields a uint32 name hash). The parser model uses the latter;
 * the lemmas at the end of this module show why the former cannot serve it.
 */
module BytecodeInstructions {
  import opened Bytes

  // Actions
  const ActionEnd: byte := 'e' as byte
  const ActionOperator: byte := 'o' as byte
  const ActionOperatorArgs: byte := 'A' as byte
  const ActionOperatorArg: byte := 'a' as byte
  const ActionField: byte := 'f' as byte
  const ActionSpread: byte := 's' as byte
  const ActionFragment: byte := 'F' as byte
  const ActionValue: byte := 'v' as byte
  const ActionObjectValueField: byte := 'u' as byte
  const ActionDirective: byte := 'd' as byte

  // Value kinds
  const ValueVariable: byte := '$' as byte
  const ValueInt: byte := 'i' as byte
  const ValueFloat: byte := 'f' as byte
  const ValueString: byte := 's' as byte
  const ValueBoolean: byte := 'b' as byte
  const ValueNull: byte := 'n' as byte
  const ValueEnum: byte := 'e' as byte
  const ValueList: byte := 'l' as byte
  const ValueObject: byte := 'o' as byte

  // Operator kinds
  const OperatorQuery: byte := 'q' as byte
  const OperatorMutation: byte := 'm' as byte
  const OperatorSubscription: byte := 's' as byte

  const True: byte := 't' as byte
  const False: byte := 'f' as byte

  predicate IsValueKind(k: byte)
  {
    k in {ValueVariable, ValueInt, ValueFloat, ValueString, ValueBoolean, ValueNull, ValueEnum, ValueList, ValueObject}
  }

  /** `0 o kind f 0`: operation of `kind`, no arguments yet, no directives yet. */
  function OperationHeader(kind: byte): seq<byte>
  {
    [0, ActionOperator, kind, False, 0]
  }

  const OperationArgsHeader: seq<byte> := [0, ActionOperatorArgs]

  /** `0 a` and a uint32 slot for the length of the argument. */
  const OperationArgHeader: seq<byte> := [0, ActionOperatorArg, 0, 0, 0, 0]

  const FragmentHeader: seq<byte> := [0, ActionFragment]

  /** The field header bytecode_instructions.go appends: `0 f` and five zero bytes. */
  const FieldHeaderAsWritten: seq<byte> := [0, ActionField, 0, 0, 0, 0, 0]

  /** The field header bytecode.go and resolver.go use: `0 f`, directive count, uint32 length, uint32 name hash. */
  const FieldHeader: seq<byte> := [0, ActionField, 0, 0, 0, 0, 0, 0, 0, 0, 0]

  /** The spread header bytecode_instructions.go appends: `0 s t|f` and the directive count. */
  function SpreadHeaderAsWritten(isInline: bool): seq<byte>
  {
    [0, ActionSpread, if isInline then True else False, 0]
  }

  /** The spread header bytecode.go and resolver.go use: `0 s t|f`, directive count, uint32 length. */
  function SpreadHeader(isInline: bool): seq<byte>
  {
    [0, ActionSpread, if isInline then True else False, 0, 0, 0, 0, 0]
  }

  /** `0 d f`: a directive, without arguments until the flag is set to `t`. */
  const DirectiveHeader: seq<byte> := [0, ActionDirective, False]

  /** `0 v kind` and a uint32 slot for the payload length. */
  function ValueHeader(kind: byte): seq<byte>
  {
    [0, ActionValue, kind, 0, 0, 0, 0]
  }

  /** A complete boolean value: a one-byte payload `1` or `0`. */
  function BooleanValue(v: bool): seq<byte>
  {
    [0, ActionValue, ValueBoolean, 1, 0, 0, 0, if v then '1' as byte else '0' as byte]
  }

  const ObjectValueFieldHeader: seq<byte> := [0, ActionObjectValueField]

  const End: seq<byte> := [0, ActionEnd]

  /** Byte `i` of a header is the byte the Go helper lists at that position. */
  lemma BooleanValueLayout(v: bool)
    ensures BooleanValue(v)[..3] == [0, ActionValue, ValueBoolean]
    ensures DecodeLe32(BooleanValue(v), 3) == 1
    ensures BooleanValue(v)[7] == '1' as byte <==> v
  {
  }

  /**
   * The value headers leave a zero length slot right after the kind, so a
   * value with an empty payload (null) is complete as soon as it is written.
   */
  lemma ValueHeaderSlotIsZero(kind: byte)
    ensures DecodeLe32(ValueHeader(kind), 3) == 0
    ensures |ValueHeader(kind)| == 7 && ValueHeader(kind)[2] == kind
  {
  }

  /**
   * bytecode.go takes the directive count at `len - 9`, the length slot at
   * `startField - 8` and the hash slot at `startField - 4`, and reverts an
   * empty field with `Res[:len-12]` after one name-length byte. With the
   * 7-byte header the helper appends, the directive count lands two bytes
   * before the header and the revert cuts four bytes of the record before it;
   * for `{...F}` it leaves a single byte of the operation header.
   */
  lemma FieldHeaderAsWrittenMisplaced(res: seq<byte>)
    requires |res| >= 4
    ensures var r := res + FieldHeaderAsWritten; |r| - 9 == |res| - 2
    ensures var r := res + FieldHeaderAsWritten + [0]; r[..|r| - 12] == res[..|res| - 4] && r[..|r| - 12] != res
    ensures var r := OperationHeader(OperatorQuery) + FieldHeaderAsWritten + [0]; r[..|r| - 12] == [0]
  {
    var r := res + FieldHeaderAsWritten + [0];
    assert |r[..|r| - 12]| != |res|;
  }

  /** With the 11-byte header the same offsets hit the header's own slots and the revert is exact. */
  lemma FieldHeaderOffsets(res: seq<byte>)
    ensures var r := res + FieldHeader; |r| - 9 == |res| + 2 && |r| - 8 == |res| + 3 && |r| - 4 == |res| + 7
    ensures var r := res + FieldHeader + [0]; r[..|r| - 12] == res
  {
    var r := res + FieldHeader + [0];
    assert r[..|r| - 12] == res;
  }

  /**
   * bytecode.go takes the spread's directive count at `len - 5` and its
   * length slot at `startFragment - 4`. After the 4-byte header the helper
   * appends, the count lands one byte before the header and the length
   * overwrites the header itself.
   */
  lemma SpreadHeaderAsWrittenMisplaced(res: seq<byte>, isInline: bool, v: u32)
    ensures var r := res + SpreadHeaderAsWritten(isInline); |r| - 5 == |res| - 1
    ensures var r := res + SpreadHeaderAsWritten(isInline);
      WithUint32At(r, |r| - 4, v)[|res|..] == Le32(v)
  {
    var r := res + SpreadHeaderAsWritten(isInline);
    assert WithUint32At(r, |r| - 4, v)[|res|..] == WithUint32At(r, |r| - 4, v)[|r| - 4..|r|];
  }

  /** With the 8-byte header the count is byte 3 of the header and the length fills its slot, keeping `0 s t|f`. */
  lemma SpreadHeaderOffsets(res: seq<byte>, isInline: bool, v: u32)
    ensures var r := res + SpreadHeader(isInline); |r| - 5 == |res| + 3
    ensures var r := res + SpreadHeader(isInline);
      WithUint32At(r, |r| - 4, v)[|res|..] == SpreadHeader(isInline)[..4] + Le32(v)
  {
    var r := res + SpreadHeader(isInline);
    var w := WithUint32At(r, |r| - 4, v);
    assert w[|res|..] == w[|res|..|res| + 4] + w[|r| - 4..];
  }
}
