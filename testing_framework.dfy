/**
 * The hand-written reference encoder of bytecode/testing_framework.go: each
 * `toBytes` builds the bytecode a test expects for one operator, fragment,
 * directive, operator argument, value or field. Every encoder only appends
 * to the bytes it is given, and every length slot it back-patches holds the
 * number of bytes the record has after that slot's base.
 */
module TestingFramework {
  import opened Wrappers
  import opened Bytes
  import opened BytecodeInstructions

  datatype TestValue = TestValue(
    kind: byte,
    list: seq<TestValue>,
    intValue: int,
    floatValue: seq<byte>,
    stringValue: seq<byte>,
    boolValue: bool,
    objectValue: seq<ObjectEntry>,
    variableValue: seq<byte>,
    enumValue: seq<byte>)

  /** `typeObjectValue`: one `name: value` entry of an object value. */
  datatype ObjectEntry = ObjectEntry(name: seq<byte>, value: TestValue)

  /** `arguments == nil` is `None`: the directive then has no argument object at all. */
  datatype TestDirective = TestDirective(name: seq<byte>, arguments: Option<seq<ObjectEntry>>)

  datatype TestOperatorArg = TestOperatorArg(name: seq<byte>, typeName: seq<byte>, defaultValue: Option<TestValue>)

  /** A field's `fields` slice: `NilFields` is a nil slice, which for a spread means "not inline". */
  datatype FieldList = NilFields | Fields(items: seq<TestField>)

  /** A field, or with `isFragment` a fragment spread. */
  datatype TestField = TestField(
    name: seq<byte>,
    fields: FieldList,
    isFragment: bool,
    directives: seq<TestDirective>,
    alias: seq<byte>,
    arguments: Option<seq<ObjectEntry>>)

  /** `kind == 0` is the Go zero value, which `toBytes` turns into a query. */
  datatype TestOperator = TestOperator(
    kind: byte,
    name: seq<byte>,
    args: seq<TestOperatorArg>,
    directives: seq<TestDirective>,
    fields: seq<TestField>)

  datatype TestFragment = TestFragment(name: seq<byte>, on: seq<byte>, fields: seq<TestField>)

  /** The object value a directive or a field wraps its arguments in. */
  function ObjectValue(entries: seq<ObjectEntry>): TestValue
  {
    TestValue(ValueObject, [], 0, [], [], false, entries, [], [])
  }

  // ---------------------------------------------------------------- writeUint32At

  /**
   * `writeUint32At`: stores `value` little-endian in the four bytes at `at`
   * of the slice, in place, and hands the same slice back.
   */
  method WriteUint32At(res: array<byte>, at: nat, value: u32) returns (r: array<byte>)
    requires at + 4 <= res.Length
    modifies res
    ensures r == res
    ensures res[..] == WithUint32At(old(res[..]), at, value)
  {
    res[at] := (value % 256) as byte;
    res[at + 1] := ((value / 256) % 256) as byte;
    res[at + 2] := ((value / 65536) % 256) as byte;
    res[at + 3] := (value / 16777216) as byte;
    r := res;
  }

  // ---------------------------------------------------------------- appending

  /** `b` starts with `a`: what appending to `a` leaves behind. */
  predicate Prefix(a: seq<byte>, b: seq<byte>)
  {
    |a| <= |b| && b[..|a|] == a
  }

  lemma PrefixTrans(a: seq<byte>, b: seq<byte>, c: seq<byte>)
    requires Prefix(a, b) && Prefix(b, c)
    ensures Prefix(a, c)
  {
    assert c[..|a|] == c[..|b|][..|a|];
  }

  lemma PrefixAppend(a: seq<byte>, b: seq<byte>)
    ensures Prefix(a, a + b)
  {
    assert (a + b)[..|a|] == a;
  }

  /** The bytes `i..j` of a prefix are those of the longer sequence. */
  lemma PrefixSlice(a: seq<byte>, b: seq<byte>, i: int, j: int)
    requires Prefix(a, b) && 0 <= i <= j <= |a|
    ensures b[i..j] == a[i..j]
  {
    forall k | i <= k < j
      ensures b[k] == a[k]
    {
      assert b[..|a|][k] == a[k];
    }
  }

  /**
   * Back-patching a slot inside `head`, a prefix of `body`: everything before
   * the slot and everything after `head` stays, and the slot reads back `v`.
   */
  lemma Patch(head: seq<byte>, body: seq<byte>, slot: int, v: u32)
    requires Prefix(head, body) && 0 <= slot && slot + 4 <= |head|
    ensures var r := WithUint32At(body, slot, v);
      |r| == |body| && Prefix(head[..slot], r) && DecodeLe32(r, slot) == v && r[|head|..] == body[|head|..]
  {
    var r := WithUint32At(body, slot, v);
    ReadAfterWrite(body, slot, v);
    assert r[..slot] == body[..slot] == body[..|head|][..slot];
    assert r[|head|..] == r[slot + 4..][|head| - slot - 4..];
  }

  // ---------------------------------------------------------------- strconv.AppendInt

  /** The decimal digits of `n`, most significant first, without leading zeros. */
  function Digits(n: nat): (r: seq<byte>)
    ensures 1 <= |r| && (r[0] == '0' as byte ==> n == 0)
    ensures forall i :: 0 <= i < |r| ==> '0' as byte <= r[i] <= '9' as byte
  {
    if n < 10 then [('0' as int + n) as byte]
    else Digits(n / 10) + [('0' as int + n % 10) as byte]
  }

  /** `strconv.AppendInt(nil, i, 10)`: a `-` for negative numbers, then the digits. */
  function FormatInt(i: int): (r: seq<byte>)
    ensures 1 <= |r|
    ensures r[0] == '-' as byte <==> i < 0
  {
    if i < 0 then ['-' as byte] + Digits(-i) else Digits(i)
  }

  /** Reading decimal digits back, most significant first. */
  function DigitsValue(s: seq<byte>): nat
  {
    if s == [] then 0
    else
      var d := s[|s| - 1] as int - '0' as int;
      10 * DigitsValue(s[..|s| - 1]) + (if 0 <= d then d else 0)
  }

  /** Reading a formatted integer back, sign included. */
  function IntValue(s: seq<byte>): int
  {
    if |s| > 0 && s[0] == '-' as byte then 0 - DigitsValue(s[1..]) as int else DigitsValue(s)
  }

  lemma {:induction false} DigitsRoundTrip(n: nat)
    ensures DigitsValue(Digits(n)) == n
    decreases n
  {
    if n >= 10 {
      var r := Digits(n);
      DigitsRoundTrip(n / 10);
      assert r[..|r| - 1] == Digits(n / 10);
    }
  }

  /** The bytes `strconv.AppendInt` writes read back as the same integer. */
  lemma FormatIntRoundTrip(i: int)
    ensures IntValue(FormatInt(i)) == i
  {
    if i < 0 {
      DigitsRoundTrip(-i);
      assert FormatInt(i)[1..] == Digits(-i);
    } else {
      DigitsRoundTrip(i);
    }
  }

  // ---------------------------------------------------------------- testValue.toBytes

  /**
   * `testValue.toBytes`: the header `0 v kind`, a uint32 slot, the payload,
   * and the slot back-patched with the payload's length.
   */
  function ValueToBytes(v: TestValue, res: seq<byte>): (r: seq<byte>)
    ensures Prefix(res, r) && |res| + 7 <= |r|
    ensures r[|res|..|res| + 3] == [0, ActionValue, v.kind]
    ensures DecodeLe32(r, |res| + 3) == U32(|r| - (|res| + 7))
    ensures v.kind == ValueList || v.kind == ValueObject ==> r[|r| - 2..] == End
    decreases v, 2, 0
  {
    var head := res + ValueHeader(v.kind);
    var body := ValuePayload(v, head);
    ValuePatch(res, v.kind, body)
  }

  /** Back-patching a value's slot once its payload is written. */
  function ValuePatch(res: seq<byte>, kind: byte, body: seq<byte>): (r: seq<byte>)
    requires Prefix(res + ValueHeader(kind), body)
    ensures Prefix(res, r) && |r| == |body| && |res| + 7 <= |r|
    ensures r[|res|..|res| + 3] == [0, ActionValue, kind]
    ensures DecodeLe32(r, |res| + 3) == U32(|r| - (|res| + 7))
    ensures |res| + 9 <= |body| ==> r[|r| - 2..] == body[|body| - 2..]
  {
    var head := res + ValueHeader(kind);
    var r := WithUint32At(body, |head| - 4, U32(|body| - |head|));
    Patch(head, body, |head| - 4, U32(|body| - |head|));
    PrefixAppend(res, ValueHeader(kind));
    assert Prefix(res, r) by {
      PrefixTrans(res, head[..|head| - 4], r);
    }
    assert r[|res|..|res| + 3] == [0, ActionValue, kind] by {
      PrefixSlice(head[..|head| - 4], r, |res|, |res| + 3);
    }
    assert r[|r| - 2..] == body[|r| - 2..];
    r
  }

  /** The `switch o.kind` of `testValue.toBytes`: what follows the length slot. */
  function ValuePayload(v: TestValue, res: seq<byte>): (r: seq<byte>)
    ensures Prefix(res, r)
    ensures v.kind == ValueList || v.kind == ValueObject ==> |res| + 2 <= |r| && r[|r| - 2..] == End
    ensures v.kind == ValueBoolean ==> r == res + [if v.boolValue then '1' as byte else '0' as byte]
    ensures v.kind == ValueInt ==> r == res + FormatInt(v.intValue)
    ensures v.kind == ValueVariable ==> r == res + v.variableValue
    ensures v.kind == ValueFloat ==> r == res + v.floatValue
    ensures v.kind == ValueString ==> r == res + v.stringValue
    ensures v.kind == ValueEnum ==> r == res + v.enumValue
    ensures v.kind == ValueNull ==> r == res
    ensures v.kind == ValueList ==> r == ListItems(v, 0, res) + End
    ensures v.kind == ValueObject ==> r == ObjectEntries(v, 0, res) + End
    ensures !(v.kind in {ValueVariable, ValueInt, ValueFloat, ValueString, ValueBoolean, ValueEnum, ValueList, ValueObject}) ==> r == res
    decreases v, 1, 0
  {
    if v.kind == ValueVariable then PrefixAppend(res, v.variableValue); res + v.variableValue
    else if v.kind == ValueInt then PrefixAppend(res, FormatInt(v.intValue)); res + FormatInt(v.intValue)
    else if v.kind == ValueFloat then PrefixAppend(res, v.floatValue); res + v.floatValue
    else if v.kind == ValueString then PrefixAppend(res, v.stringValue); res + v.stringValue
    else if v.kind == ValueBoolean then
      var b := [if v.boolValue then '1' as byte else '0' as byte];
      PrefixAppend(res, b);
      res + b
    else if v.kind == ValueNull then res
    else if v.kind == ValueEnum then PrefixAppend(res, v.enumValue); res + v.enumValue
    else if v.kind == ValueList then
      var items := ListItems(v, 0, res);
      PrefixAppend(items, End);
      PrefixTrans(res, items, items + End);
      items + End
    else if v.kind == ValueObject then
      var entries := ObjectEntries(v, 0, res);
      PrefixAppend(entries, End);
      PrefixTrans(res, entries, entries + End);
      entries + End
    else res
  }

  /** The loop over `o.list` from item `i` on: item `i`, written in full, comes first. */
  function ListItems(v: TestValue, i: nat, res: seq<byte>): (r: seq<byte>)
    requires i <= |v.list|
    ensures Prefix(res, r)
    ensures i == |v.list| <==> r == res
    ensures i < |v.list| ==> Prefix(ValueToBytes(v.list[i], res), r)
    decreases v, 0, |v.list| - i
  {
    if i == |v.list| then res
    else
      var next := ValueToBytes(v.list[i], res);
      var r := ListItems(v, i + 1, next);
      PrefixTrans(res, next, r);
      r
  }

  /** The loop over `o.objectValue` from entry `i` on: `0 u`, the name, then the value. */
  function ObjectEntries(v: TestValue, i: nat, res: seq<byte>): (r: seq<byte>)
    requires i <= |v.objectValue|
    ensures Prefix(res, r)
    ensures i == |v.objectValue| <==> r == res
    ensures i < |v.objectValue| ==> Prefix(res + ObjectValueFieldHeader + v.objectValue[i].name, r)
    ensures i < |v.objectValue| ==>
      Prefix(ValueToBytes(v.objectValue[i].value, res + ObjectValueFieldHeader + v.objectValue[i].name), r)
    decreases v, 0, |v.objectValue| - i
  {
    if i == |v.objectValue| then res
    else
      var named := res + ObjectValueFieldHeader + v.objectValue[i].name;
      var next := ValueToBytes(v.objectValue[i].value, named);
      var r := ObjectEntries(v, i + 1, next);
      assert Prefix(res, named) by {
        assert named[..|res|] == res;
      }
      PrefixTrans(named, next, r);
      PrefixTrans(res, named, r);
      assert |res| < |r|;
      r
  }

  // ---------------------------------------------------------------- testDirective.toBytes

  /** `testDirective.toBytes`: `0 d`, `t` iff there is an argument object, the name, then the object. */
  function DirectiveToBytes(d: TestDirective, res: seq<byte>): (r: seq<byte>)
    ensures Prefix(res + [0, ActionDirective, if d.arguments.Some? then True else False] + d.name, r)
    ensures d.arguments.None? <==> |r| == |res| + 3 + |d.name|
  {
    var named := res + [0, ActionDirective, if d.arguments.Some? then True else False] + d.name;
    if d.arguments.Some? then ValueToBytes(ObjectValue(d.arguments.value), named)
    else PrefixAppend(named, []); named
  }

  /** The loop over a list of directives. */
  function DirectivesToBytes(ds: seq<TestDirective>, res: seq<byte>): (r: seq<byte>)
    ensures Prefix(res, r)
    ensures ds == [] ==> r == res
  {
    if ds == [] then PrefixAppend(res, []); res
    else
      var next := DirectiveToBytes(ds[0], res);
      var r := DirectivesToBytes(ds[1..], next);
      PrefixAppend(res, [0, ActionDirective, if ds[0].arguments.Some? then True else False]);
      PrefixAppend(res + [0, ActionDirective, if ds[0].arguments.Some? then True else False], ds[0].name);
      PrefixTrans(res, res + [0, ActionDirective, if ds[0].arguments.Some? then True else False], res + [0, ActionDirective, if ds[0].arguments.Some? then True else False] + ds[0].name);
      PrefixTrans(res, res + [0, ActionDirective, if ds[0].arguments.Some? then True else False] + ds[0].name, next);
      PrefixTrans(res, next, r);
      r
  }

  // ---------------------------------------------------------------- testOperatorArg.toBytes

  /** What follows an operator argument's length slot up to its default value. */
  function ArgText(a: TestOperatorArg): (t: seq<byte>)
    ensures |t| == |a.name| + |a.typeName| + 3
    ensures t[..|a.name|] == a.name && t[|a.name|] == 0
    ensures t[|t| - 2..] == [0, if a.defaultValue.Some? then True else False]
  {
    a.name + ([0] + a.typeName + [0, if a.defaultValue.Some? then True else False])
  }

  /**
   * `testOperatorArg.toBytes`: `0 a`, a uint32 slot, the name, `0`, the type,
   * then `0 t` and the default value or `0 f`. The slot counts the bytes from
   * the `a` to the end.
   */
  function OperatorArgToBytes(a: TestOperatorArg, res: seq<byte>): (r: seq<byte>)
    ensures Prefix(res, r) && |res| + 9 + |a.name| + |a.typeName| <= |r|
    ensures r[|res|..|res| + 2] == [0, ActionOperatorArg]
    ensures DecodeLe32(r, |res| + 2) == U32(|r| - (|res| + 1))
    ensures r[|res| + 6..|res| + 6 + |a.name|] == a.name && r[|res| + 6 + |a.name|] == 0
    ensures a.defaultValue.None? ==> r[|r| - 2..] == [0, False]
  {
    var typed := res + OperationArgHeader + ArgText(a);
    var body := DefaultValueBytes(a, typed);
    TypedArg(res, a, typed);
    OperatorArgPatch(res, typed, body, a)
  }

  /** The default value of an operator argument, when it has one, after its text. */
  function DefaultValueBytes(a: TestOperatorArg, typed: seq<byte>): (r: seq<byte>)
    ensures Prefix(typed, r) && (a.defaultValue.None? ==> r == typed)
  {
    if a.defaultValue.Some? then ValueToBytes(a.defaultValue.value, typed) else PrefixAppend(typed, []); typed
  }

  /** An operator argument's header and text: their length, and the last two bytes. */
  lemma TypedArg(res: seq<byte>, a: TestOperatorArg, typed: seq<byte>)
    requires typed == res + OperationArgHeader + ArgText(a)
    ensures |typed| == |res| + 9 + |a.name| + |a.typeName|
    ensures typed[|typed| - 2..] == [0, if a.defaultValue.Some? then True else False]
  {
    var t := ArgText(a);
    assert typed[|typed| - 2..] == t[|t| - 2..];
  }

  /** Back-patching an operator argument's slot once its text and default value are written. */
  function OperatorArgPatch(res: seq<byte>, typed: seq<byte>, body: seq<byte>, a: TestOperatorArg): (r: seq<byte>)
    requires typed == res + OperationArgHeader + ArgText(a) && Prefix(typed, body)
    ensures Prefix(res, r) && |r| == |body|
    ensures r[|res|..|res| + 2] == [0, ActionOperatorArg]
    ensures DecodeLe32(r, |res| + 2) == U32(|r| - (|res| + 1))
    ensures r[|res| + 6..|res| + 6 + |a.name|] == a.name && r[|res| + 6 + |a.name|] == 0
    ensures |body| == |typed| ==> r[|r| - 2..] == typed[|typed| - 2..]
  {
    var head := res + OperationArgHeader;
    var r := WithUint32At(body, |res| + 2, U32(|body| - (|res| + 1)));
    PrefixAppend(res, OperationArgHeader);
    PrefixAppend(head, ArgText(a));
    PrefixTrans(head, typed, body);
    Patch(head, body, |res| + 2, U32(|body| - (|res| + 1)));
    PrefixTrans(res, head[..|res| + 2], r);
    PrefixSlice(head[..|res| + 2], r, |res|, |res| + 2);
    assert r[|head|..|head| + |a.name| + 1] == ArgText(a)[..|a.name| + 1] by {
      PrefixSlice(typed, body, |head|, |head| + |a.name| + 1);
    }
    r
  }

  /** The operator's argument loop. */
  function OperatorArgsToBytes(args: seq<TestOperatorArg>, res: seq<byte>): (r: seq<byte>)
    ensures Prefix(res, r)
  {
    if args == [] then PrefixAppend(res, []); res
    else
      var next := OperatorArgToBytes(args[0], res);
      var r := OperatorArgsToBytes(args[1..], next);
      PrefixTrans(res, next, r);
      r
  }

  // ---------------------------------------------------------------- testField.toBytes

  /**
   * `testField.toBytes`. A spread is `0 s`, `t` iff it has a (non-nil) field
   * list, the directive count and the name, its directives, and for an inline
   * spread its fields and `0 e`. A field is `0 f`, the directive count, a
   * uint32 slot, the name and the alias each after its length byte, the
   * directives, the sub-fields, the argument object and `0 e`; the slot counts
   * the bytes after it.
   */
  function FieldToBytes(f: TestField, res: seq<byte>): (r: seq<byte>)
    ensures Prefix(res, r) && |res| + 4 <= |r|
    ensures f.isFragment ==> r[|res|..|res| + 4] == [0, ActionSpread, if f.fields.Fields? then True else False, (|f.directives| % 256) as byte]
    ensures f.isFragment && f.fields.Fields? ==> r[|r| - 2..] == End
    ensures !f.isFragment ==> |res| + 9 <= |r| && r[|res|..|res| + 3] == [0, ActionField, (|f.directives| % 256) as byte]
    ensures !f.isFragment ==> DecodeLe32(r, |res| + 3) == U32(|r| - (|res| + 7)) && r[|r| - 2..] == End
    decreases f, 2, 0
  {
    if f.isFragment then
      var head := res + [0, ActionSpread, if f.fields.Fields? then True else False, (|f.directives| % 256) as byte];
      var r := SpreadToBytes(f, res);
      PrefixSlice(head, r, |res|, |res| + 4);
      assert Prefix(res, r) by {
        PrefixAppend(res, head[|res|..]);
        assert res + head[|res|..] == head;
        PrefixTrans(res, head, r);
      }
      r
    else FieldRecordToBytes(f, res)
  }

  /** The spread half of `testField.toBytes`. */
  function SpreadToBytes(f: TestField, res: seq<byte>): (r: seq<byte>)
    ensures Prefix(res + [0, ActionSpread, if f.fields.Fields? then True else False, (|f.directives| % 256) as byte], r)
    ensures f.fields.Fields? ==> |res| + 6 <= |r| && r[|r| - 2..] == End
    decreases f, 1, 0
  {
    var head := res + [0, ActionSpread, if f.fields.Fields? then True else False, (|f.directives| % 256) as byte];
    var named := DirectivesToBytes(f.directives, head + f.name);
    PrefixAppend(head, f.name);
    PrefixTrans(head, head + f.name, named);
    if f.fields.Fields? then
      var inner := SubFields(f, 0, named);
      PrefixTrans(head, named, inner);
      PrefixAppend(inner, End);
      PrefixTrans(head, inner, inner + End);
      inner + End
    else named
  }

  /** What follows a field's length slot up to its directives: the name and the alias, each after its length. */
  function FieldNames(f: TestField): seq<byte>
  {
    [(|f.name| % 256) as byte] + f.name + [(|f.alias| % 256) as byte] + f.alias
  }

  /** The field half of `testField.toBytes`. */
  function FieldRecordToBytes(f: TestField, res: seq<byte>): (r: seq<byte>)
    ensures Prefix(res, r) && |res| + 9 <= |r|
    ensures r[|res|..|res| + 3] == [0, ActionField, (|f.directives| % 256) as byte]
    ensures DecodeLe32(r, |res| + 3) == U32(|r| - (|res| + 7)) && r[|r| - 2..] == End
    decreases f, 1, 0
  {
    var header: seq<byte> := [0, ActionField, (|f.directives| % 256) as byte, 0, 0, 0, 0];
    var head := res + header;
    var body := FieldBody(f, head);
    HeaderStart(res, header);
    var r := FieldPatch(res, head, body);
    assert r[|res|..|res| + 3] == header[..3];
    assert |r| - |head| == |r| - (|res| + 7);
    r
  }

  /** A header appended to `res` keeps `res` and starts with the header's first three bytes. */
  lemma HeaderStart(res: seq<byte>, header: seq<byte>)
    requires 3 <= |header|
    ensures Prefix(res, res + header) && (res + header)[|res|..|res| + 3] == header[..3]
  {
    PrefixAppend(res, header);
    assert (res + header)[|res|..|res| + 3] == header[..3];
  }

  /** What a field record holds after its length slot, up to and including its `0 e`. */
  function FieldBody(f: TestField, head: seq<byte>): (r: seq<byte>)
    ensures Prefix(head, r) && |head| + 2 <= |r| && r[|r| - 2..] == End
    decreases f, 0, 1
  {
    var withDirectives := DirectivesToBytes(f.directives, head + FieldNames(f));
    var withFields := SubFields(f, 0, withDirectives);
    var withArgs := if f.arguments.Some? then ValueToBytes(ObjectValue(f.arguments.value), withFields) else withFields;
    PrefixAppend(head, FieldNames(f));
    PrefixTrans(head, head + FieldNames(f), withDirectives);
    PrefixTrans(head, withDirectives, withFields);
    assert Prefix(withFields, withArgs) by {
      if f.arguments.None? {
        PrefixAppend(withFields, []);
      }
    }
    PrefixTrans(head, withFields, withArgs);
    PrefixAppend(withArgs, End);
    PrefixTrans(head, withArgs, withArgs + End);
    withArgs + End
  }

  /** Back-patching a field's length slot. */
  function FieldPatch(res: seq<byte>, head: seq<byte>, body: seq<byte>): (r: seq<byte>)
    requires |head| == |res| + 7 && Prefix(res, head) && Prefix(head, body) && |head| + 2 <= |body|
    ensures Prefix(res, r) && |r| == |body|
    ensures r[|res|..|res| + 3] == head[|res|..|res| + 3]
    ensures DecodeLe32(r, |res| + 3) == U32(|r| - |head|)
    ensures r[|r| - 2..] == body[|body| - 2..]
  {
    var r := WithUint32At(body, |res| + 3, U32(|body| - |head|));
    Patch(head, body, |res| + 3, U32(|body| - |head|));
    assert head[..|res| + 3][..|res|] == head[..|res|];
    PrefixTrans(res, head[..|res| + 3], r);
    PrefixSlice(head[..|res| + 3], r, |res|, |res| + 3);
    assert r[|r| - 2..] == r[|head|..][|r| - 2 - |head|..];
    r
  }

  /** The loop over a field's own `fields`, from sub-field `i` on. */
  function SubFields(f: TestField, i: nat, res: seq<byte>): (r: seq<byte>)
    requires f.fields.Fields? ==> i <= |f.fields.items|
    ensures Prefix(res, r)
    decreases f, 0, 0, if f.fields.Fields? then |f.fields.items| - i else 0
  {
    if f.fields.NilFields? || i == |f.fields.items| then PrefixAppend(res, []); res
    else
      assert f.fields.items[i] in f.fields.items;
      var next := FieldToBytes(f.fields.items[i], res);
      var r := SubFields(f, i + 1, next);
      PrefixTrans(res, next, r);
      r
  }

  /** The loop over the fields of an operator or a fragment. */
  function FieldsToBytes(fs: seq<TestField>, res: seq<byte>): (r: seq<byte>)
    ensures Prefix(res, r)
    ensures fs == [] ==> r == res
  {
    if fs == [] then PrefixAppend(res, []); res
    else
      var next := FieldToBytes(fs[0], res);
      var r := FieldsToBytes(fs[1..], next);
      PrefixTrans(res, next, r);
      r
  }

  // ---------------------------------------------------------------- testOperator / testFragment

  /**
   * The argument block of an operator at `at`: a zero byte, a uint32 slot
   * and then `n` bytes that start with `0 A` and end with `0 e`, where the
   * slot holds `n`.
   */
  predicate ArgsBlockAt(r: seq<byte>, at: nat)
  {
    at + 5 <= |r| && r[at] == 0
    && var n := DecodeLe32(r, at + 1);
       4 <= n && at + 5 + n <= |r|
       && r[at + 5..at + 7] == OperationArgsHeader && r[at + 3 + n..at + 5 + n] == End
  }

  /** Appending after an argument block leaves it as it was. */
  lemma ArgsBlockKept(r: seq<byte>, r2: seq<byte>, at: nat)
    requires ArgsBlockAt(r, at) && Prefix(r, r2)
    ensures ArgsBlockAt(r2, at)
  {
    var n := DecodeLe32(r, at + 1);
    PrefixSlice(r, r2, at + 5, at + 7);
    PrefixSlice(r, r2, at + 3 + n, at + 5 + n);
    PrefixSlice(r, r2, at, at + 5);
    assert r2[at] == r2[at..at + 5][0];
    assert r2[at + 1..at + 5] == r2[at..at + 5][1..];
    assert r2[at + 1] == r2[at + 1..at + 5][0] && r2[at + 2] == r2[at + 1..at + 5][1];
    assert r2[at + 3] == r2[at + 1..at + 5][2] && r2[at + 4] == r2[at + 1..at + 5][3];
  }

  /** Five placeholder bytes, then `0 A`, the arguments and `0 e`, with the block's size in the slot. */
  function ArgsBlock(args: seq<TestOperatorArg>, res: seq<byte>): (r: seq<byte>)
    ensures Prefix(res, r) && |res| + 9 <= |r| && (|r| < TWO_32 ==> ArgsBlockAt(r, |res|))
  {
    var head := res + ([0, 0, 0, 0, 0] + OperationArgsHeader);
    var withArgs := OperatorArgsToBytes(args, head);
    var body := withArgs + End;
    PrefixAppend(withArgs, End);
    PrefixTrans(head, withArgs, body);
    ArgsPatch(res, head, body)
  }

  /** Back-patching the argument block's slot. */
  function ArgsPatch(res: seq<byte>, head: seq<byte>, body: seq<byte>): (r: seq<byte>)
    requires head == res + ([0, 0, 0, 0, 0] + OperationArgsHeader) && Prefix(head, body)
    requires |head| + 2 <= |body| && body[|body| - 2..] == End
    ensures Prefix(res, r) && |r| == |body| && (|r| < TWO_32 ==> ArgsBlockAt(r, |res|))
  {
    var start := |res| + 5;
    var r := WithUint32At(body, start - 4, U32(|body| - start));
    Patch(head, body, start - 4, U32(|body| - start));
    assert head[..start - 4][..|res|] == res;
    PrefixTrans(res, head[..start - 4], r);
    assert r[|res|] == head[..start - 4][|res|] == 0 by {
      PrefixSlice(head[..start - 4], r, |res|, |res| + 1);
    }
    assert r[start..start + 2] == OperationArgsHeader by {
      assert r[|head|..] == body[|head|..];
      PrefixSlice(head, body, start, start + 2);
      assert r[start..start + 2] == r[start..][..2];
    }
    assert U32(|body| - start) == |body| - start || |body| - start >= TWO_32;
    if |body| - start < TWO_32 then
      assert r[|r| - 2..] == body[|body| - 2..] by {
        assert r[|r| - 2..] == r[|head|..][|r| - 2 - |head|..];
      }
      r
    else
      r
  }

  /**
   * `testOperator.toBytes`: `0 o`, the kind (a query for the zero kind), `t`
   * iff there are arguments, the directive count, the name, the argument
   * block, the directives, the fields and `0 e`.
   */
  function OperatorToBytes(o: TestOperator): (r: seq<byte>)
    ensures 7 + |o.name| <= |r|
    ensures Prefix([0, ActionOperator, if o.kind == 0 then OperatorQuery else o.kind,
                    if |o.args| > 0 then True else False, (|o.directives| % 256) as byte] + o.name, r)
    ensures |o.args| > 0 && |r| < TWO_32 ==> ArgsBlockAt(r, 5 + |o.name|)
    ensures r[|r| - 2..] == End
  {
    var kind := if o.kind == 0 then OperatorQuery else o.kind;
    var head := [0, ActionOperator, kind, if |o.args| > 0 then True else False, (|o.directives| % 256) as byte] + o.name;
    var withArgs := if |o.args| > 0 then ArgsBlock(o.args, head) else head;
    var withDirectives := DirectivesToBytes(o.directives, withArgs);
    var withFields := FieldsToBytes(o.fields, withDirectives);
    var r := withFields + End;
    PrefixAppend(withFields, End);
    PrefixTrans(withDirectives, withFields, r);
    PrefixTrans(withArgs, withDirectives, r);
    assert Prefix(head, withArgs) by {
      if |o.args| == 0 {
        PrefixAppend(head, []);
      }
    }
    PrefixTrans(head, withArgs, r);
    assert |o.args| > 0 && |r| < TWO_32 ==> ArgsBlockAt(r, |head|) by {
      if |o.args| > 0 && |r| < TWO_32 {
        ArgsBlockKept(withArgs, r, |head|);
      }
    }
    r
  }

  /** `testFragment.toBytes`: `0 F`, the name, `0`, the type condition, the fields and `0 e`. */
  function FragmentToBytes(f: TestFragment): (r: seq<byte>)
    ensures Prefix(FragmentHeader + f.name + [0] + f.on, r)
    ensures r[|r| - 2..] == End
    ensures f.fields == [] ==> r == FragmentHeader + f.name + [0] + f.on + End
  {
    var head := FragmentHeader + f.name + [0] + f.on;
    var withFields := FieldsToBytes(f.fields, head);
    var r := withFields + End;
    PrefixAppend(withFields, End);
    PrefixTrans(head, withFields, r);
    r
  }
}
