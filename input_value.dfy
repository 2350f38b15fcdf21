/**
 * Argument values of a query (input_value.go): one record whose flags
 * `isVar`, `isNull` and `isEnum` are read first and whose `valType` then says
 * which payload field holds the value. Every other field keeps Go's zero
 * value.
 */
module InputValue {
  import opened Wrappers
  import opened Bytes
  import opened Kinds

  /**
   * `Value`. A nil Go slice or map is `None`. Strings are byte strings; Go's `int` is 64 bits and its
   * `float64` a binary float; the record here only carries what it is given.
   */
  datatype Value = Value(
    isVar: bool, isNull: bool, isEnum: bool,
    valType: Kind,
    variable: seq<byte>,
    intValue: int,
    floatValue: real,
    stringValue: seq<byte>,
    booleanValue: bool,
    enumValue: seq<byte>,
    listValue: Option<seq<Value>>,
    objectValue: Option<map<seq<byte>, Value>>)

  /** `Value{}`. */
  const Zero: Value := Value(false, false, false, Invalid, [], 0, 0.0, [], false, [], None, None)

  /** What a value denotes, read the way its comment asks: the flags before `valType`. */
  datatype Denotes =
    | Variable(name: seq<byte>)
    | Null
    | EnumName(name: seq<byte>)
    | IntOf(i: int)
    | FloatOf(f: real)
    | StringOf(s: seq<byte>)
    | BoolOf(b: bool)
    | ListOf(items: seq<Value>)
    | ObjectOf(fields: map<seq<byte>, Value>)
    | Unsupported

  /** The reading of a value: a variable, null or enum first, then by `valType` (a nil list or object reads as empty). */
  function Read(v: Value): Denotes
  {
    if v.isVar then Variable(v.variable)
    else if v.isNull then Null
    else if v.isEnum then EnumName(v.enumValue)
    else match v.valType
      case Int => IntOf(v.intValue)
      case Float64 => FloatOf(v.floatValue)
      case String => StringOf(v.stringValue)
      case Bool => BoolOf(v.booleanValue)
      case Array => ListOf(if v.listValue.Some? then v.listValue.value else [])
      case Map => ObjectOf(if v.objectValue.Some? then v.objectValue.value else map[])
      case _ => Unsupported
  }

  function MakeStringValue(val: seq<byte>): (r: Value)
    ensures Read(r) == StringOf(val)
    ensures r.(stringValue := []) == Zero.(valType := String)
  {
    Zero.(valType := String, stringValue := val)
  }

  function MakeBooleanValue(val: bool): (r: Value)
    ensures Read(r) == BoolOf(val)
    ensures r.(booleanValue := false) == Zero.(valType := Bool)
  {
    Zero.(valType := Bool, booleanValue := val)
  }

  function MakeIntValue(val: int): (r: Value)
    ensures Read(r) == IntOf(val)
    ensures r.(intValue := 0) == Zero.(valType := Int)
  {
    Zero.(valType := Int, intValue := val)
  }

  function MakeFloatValue(val: real): (r: Value)
    ensures Read(r) == FloatOf(val)
    ensures r.(floatValue := 0.0) == Zero.(valType := Float64)
  {
    Zero.(valType := Float64, floatValue := val)
  }

  function MakeEnumValue(val: seq<byte>): (r: Value)
    ensures Read(r) == EnumName(val)
    ensures r.(enumValue := []) == Zero.(isEnum := true)
  {
    Zero.(isEnum := true, enumValue := val)
  }

  function MakeNullValue(): (r: Value)
    ensures Read(r) == Null
    ensures r.(isNull := false) == Zero
  {
    Zero.(isNull := true)
  }

  /** A nil list becomes an empty one, so the value never holds a nil list. */
  function MakeArrayValue(list: Option<seq<Value>>): (r: Value)
    ensures Read(r) == ListOf(if list.Some? then list.value else [])
    ensures r.listValue.Some? && r.(listValue := None) == Zero.(valType := Array)
  {
    Zero.(valType := Array, listValue := Some(if list.Some? then list.value else []))
  }

  /** A nil map becomes an empty one, so the value never holds a nil map. */
  function MakeStructValue(keyValues: Option<map<seq<byte>, Value>>): (r: Value)
    ensures Read(r) == ObjectOf(if keyValues.Some? then keyValues.value else map[])
    ensures r.objectValue.Some? && r.(objectValue := None) == Zero.(valType := Map)
  {
    Zero.(valType := Map, objectValue := Some(if keyValues.Some? then keyValues.value else map[]))
  }

  function MakeVariableValue(varName: seq<byte>): (r: Value)
    ensures Read(r) == Variable(varName)
    ensures r.(variable := []) == Zero.(isVar := true)
  {
    Zero.(variable := varName, isVar := true)
  }

  /** Different constructors never make values that read the same: each reading names its constructor. */
  lemma ConstructorsDisjoint(s: seq<byte>, b: bool, i: int, f: real, e: seq<byte>, l: Option<seq<Value>>, o: Option<map<seq<byte>, Value>>, n: seq<byte>)
    ensures var all := [MakeStringValue(s), MakeBooleanValue(b), MakeIntValue(i), MakeFloatValue(f),
                        MakeEnumValue(e), MakeNullValue(), MakeArrayValue(l), MakeStructValue(o), MakeVariableValue(n)];
      forall x, y :: 0 <= x < y < |all| ==> Read(all[x]) != Read(all[y])
  {
  }
}
