/**
 * Enums (enums.go): a Go type with a string or integer underlying kind,
 * registered with a map from GraphQL enum value names to the Go values
 * they stand for.
 */
module Enums {
  import opened Wrappers
  import opened Bytes
  import opened Kinds
  import opened SchemaNames

  /** A Go value an enum key stands for: its kind and its integer or string contents. */
  datatype EnumValue = IntValue(i: int) | UintValue(u: nat) | StringValue(s: seq<byte>)

  /** `enumEntry`: a key and the value it stands for. */
  datatype EnumEntry = EnumEntry(key: seq<byte>, value: EnumValue)

  /**
   * `enum`: the content type, its kind and name, the entries in the order
   * the map handed them out, and the names the `__Type` introspection lists,
   * sorted.
   */
  datatype Enum = Enum(contentType: GoType, contentKind: Kind, typeName: seq<byte>, entries: seq<EnumEntry>, valueNames: seq<seq<byte>>)

  /** `validEnumType`: the integer kinds (without `uintptr`) and string. */
  predicate ValidEnumType(t: GoType)
  {
    match t.kind
    case Int => true
    case Int8 => true
    case Int16 => true
    case Int32 => true
    case Int64 => true
    case Uint => true
    case Uint8 => true
    case Uint16 => true
    case Uint32 => true
    case Uint64 => true
    case String => true
    case _ => false
  }

  /** The kinds an enum may have are exactly the kinds an `ID` field may have. */
  lemma EnumKindsAreIdKinds(t: GoType)
    ensures ValidEnumType(t) <==> CheckValidIDKind(t.kind).None?
    ensures ValidEnumType(t) <==> t.kind == String || IsSignedInt(t.kind) || IsUnsignedInt(t.kind)
  {
  }

  // ---------------------------------------------------------------- sorting the value names

  /** Go's `<` on strings: byte-wise lexicographic order. */
  ghost predicate Less(a: seq<byte>, b: seq<byte>)
  {
    (|a| < |b| && a == b[..|a|]) || (exists k :: LessAt(a, b, k))
  }

  /** `a` and `b` agree before `k`, and `a[k] < b[k]`. */
  predicate LessAt(a: seq<byte>, b: seq<byte>, k: int)
  {
    0 <= k < |a| && k < |b| && a[..k] == b[..k] && a[k] < b[k]
  }

  /** The comparison the sort runs: which of two different strings comes first. */
  function Compare(a: seq<byte>, b: seq<byte>): (r: bool)
    ensures r <==> Less(a, b)
    decreases |a|
  {
    if |a| == 0 then |b| > 0
    else if |b| == 0 then false
    else if a[0] != b[0] then
      assert LessAt(a, b, 0) <==> a[0] < b[0];
      if a[0] < b[0] then true
      else
        assert !Less(a, b) by {
          forall k | 0 < k < |a| && k < |b| ensures a[..k][0] == a[0] && b[..k][0] == b[0] {
          }
        }
        false
    else
      var r := Compare(a[1..], b[1..]);
      LessTail(a, b);
      r
  }

  /** Two strings with the same first byte compare like their tails. */
  lemma LessTail(a: seq<byte>, b: seq<byte>)
    requires |a| > 0 && |b| > 0 && a[0] == b[0]
    ensures Less(a, b) <==> Less(a[1..], b[1..])
  {
    if Less(a[1..], b[1..]) {
      if exists k :: LessAt(a[1..], b[1..], k) {
        var k :| LessAt(a[1..], b[1..], k);
        assert a[..k + 1] == [a[0]] + a[1..][..k];
        assert b[..k + 1] == [b[0]] + b[1..][..k];
        assert LessAt(a, b, k + 1);
      } else {
        assert a[..|a|] == [a[0]] + a[1..];
        assert b[..|a|] == [b[0]] + b[1..][..|a| - 1];
      }
    }
    if Less(a, b) {
      if exists k :: LessAt(a, b, k) {
        var k :| LessAt(a, b, k);
        assert k != 0;
        assert a[1..][..k - 1] == a[..k][1..];
        assert b[1..][..k - 1] == b[..k][1..];
        assert LessAt(a[1..], b[1..], k - 1);
      } else {
        assert a[1..] == b[..|a|][1..] == b[1..][..|a| - 1];
      }
    }
  }

  /** No string comes before itself. */
  lemma LessIrreflexive(a: seq<byte>)
    ensures !Less(a, a)
  {
  }

  ghost predicate Sorted(names: seq<seq<byte>>)
  {
    forall i, j :: 0 <= i < j < |names| ==> !Less(names[j], names[i])
  }

  /** `n` put into the sorted `names` before the first name it is less than. */
  function InsertName(n: seq<byte>, names: seq<seq<byte>>): (r: seq<seq<byte>>)
    ensures multiset(r) == multiset(names) + multiset{n}
    ensures |r| == |names| + 1
  {
    if |names| == 0 then [n]
    else if Compare(n, names[0]) then [n] + names
    else
      assert names == [names[0]] + names[1..];
      [names[0]] + InsertName(n, names[1..])
  }

  /**
   * The order `sort.Slice` leaves the introspection values in: sorted by
   * name. The keys of a map are distinct, so any correct sort gives this
   * order; insertion sort is the reference.
   */
  function SortNames(names: seq<seq<byte>>): (r: seq<seq<byte>>)
    ensures multiset(r) == multiset(names) && |r| == |names|
  {
    if |names| == 0 then []
    else
      assert names == [names[0]] + names[1..];
      InsertName(names[0], SortNames(names[1..]))
  }

  /** Inserting into a sorted sequence keeps it sorted. */
  lemma {:induction false} InsertSorted(n: seq<byte>, names: seq<seq<byte>>)
    requires Sorted(names)
    ensures Sorted(InsertName(n, names))
  {
    if |names| > 0 && Compare(n, names[0]) {
      var r := [n] + names;
      forall i, j | 0 <= i < j < |r| ensures !Less(r[j], r[i]) {
        if i == 0 {
          assert r[j] == names[j - 1];
          if Less(names[j - 1], n) {
            LessTrans(names[j - 1], n, names[0]);
            if j - 1 == 0 {
              LessIrreflexive(names[0]);
            }
          }
        } else {
          assert r[i] == names[i - 1] && r[j] == names[j - 1];
        }
      }
    } else if |names| > 0 {
      var rest := InsertName(n, names[1..]);
      InsertSorted(n, names[1..]);
      var r := [names[0]] + rest;
      forall i, j | 0 <= i < j < |r| ensures !Less(r[j], r[i]) {
        if i == 0 {
          assert r[j] in multiset(rest);
          assert r[j] in multiset(names[1..]) + multiset{n};
          if r[j] != n {
            var m :| 0 <= m < |names[1..]| && names[1..][m] == r[j];
            assert r[j] == names[m + 1];
          }
        } else {
          assert r[i] == rest[i - 1] && r[j] == rest[j - 1];
        }
      }
    }
  }

  /** For non-empty strings: the first bytes decide, or they are equal and the tails decide. */
  lemma LessCons(a: seq<byte>, b: seq<byte>)
    requires |a| > 0 && |b| > 0
    ensures Less(a, b) <==> a[0] < b[0] || (a[0] == b[0] && Less(a[1..], b[1..]))
  {
    assert Compare(a, b) == if a[0] != b[0] then a[0] < b[0] else Compare(a[1..], b[1..]);
  }

  /** The order is transitive. */
  lemma {:induction false} LessTrans(a: seq<byte>, b: seq<byte>, c: seq<byte>)
    requires Less(a, b) && Less(b, c)
    ensures Less(a, c)
    decreases |a|
  {
    assert Compare(b, c) && Compare(a, b);
    if |a| > 0 {
      LessCons(a, b);
      LessCons(b, c);
      LessCons(a, c);
      if a[0] == b[0] && b[0] == c[0] {
        LessTrans(a[1..], b[1..], c[1..]);
      }
    }
  }

  /** Two different strings compare one way or the other, and never both ways. */
  lemma LessTotal(a: seq<byte>, b: seq<byte>)
    ensures !Less(a, b) && a != b ==> Less(b, a)
    ensures Less(a, b) ==> !Less(b, a)
    decreases |a|
  {
    if |a| > 0 && |b| > 0 && a[0] == b[0] {
      LessTail(a, b);
      LessTail(b, a);
      LessTotal(a[1..], b[1..]);
      if a[1..] == b[1..] {
        assert a == [a[0]] + a[1..] && b == [b[0]] + b[1..];
      }
    } else if |a| > 0 && |b| > 0 {
      assert Compare(a, b) == (a[0] < b[0]);
      assert Compare(b, a) == (b[0] < a[0]);
    } else {
      assert Compare(a, b) == (|a| == 0 && |b| > 0);
      assert Compare(b, a) == (|b| == 0 && |a| > 0);
    }
  }

  /** The reference sort sorts. */
  lemma {:induction false} SortNamesSorted(names: seq<seq<byte>>)
    ensures Sorted(SortNames(names))
  {
    if |names| > 0 {
      SortNamesSorted(names[1..]);
      InsertSorted(names[0], SortNames(names[1..]));
    }
  }

  // ---------------------------------------------------------------- registerEnumCheck

  /**
   * The argument of `RegisterEnum`, an `interface{}`: nil, a value that is
   * not a map (with whether `reflect` finds it zero and, for the kinds
   * that can be nil, nil), or a map, possibly a nil one, from keys of one
   * Go type to values of one Go type.
   */
  datatype EnumMapInput =
    | NilInput
    | OtherValue(t: GoType, isZero: bool, isNil: bool)
    | MapValue(isNilMap: bool, keyType: GoType, contentType: GoType, contents: map<seq<byte>, EnumValue>)

  /** The kinds whose values `reflect.Value.IsNil` accepts; it panics on any other. */
  predicate NilAble(k: Kind)
  {
    k == Chan || k == Func || k == Interface || k == Map || k == Ptr || k == Slice || k == UnsafePointer
  }

  /** The outcome of the first checks of `registerEnumCheck`: a panic, the invalid-type error, or a map to look into. */
  datatype InputCheck = InputPanics | InputInvalid | InputIsMap

  /**
   * Lines 75-84 as written: `enumMap == nil || IsZero() || IsNil()`, then
   * the kind test. A non-zero value of a kind `IsNil` does not accept (an
   * `int` other than 0, a non-empty string) makes `IsNil` panic before the
   * kind test can report it.
   */
  function CheckInputAsWritten(input: EnumMapInput): InputCheck
  {
    match input
    case NilInput => InputInvalid
    case OtherValue(t, isZero, isNil) =>
      if isZero then InputInvalid
      else if !NilAble(t.kind) then InputPanics
      else InputInvalid
    case MapValue(isNilMap, _, _, _) => if isNilMap then InputInvalid else InputIsMap
  }

  /** `RegisterEnum(5)` panics inside `reflect` instead of returning the invalid-type error. */
  lemma NonMapInputPanics()
    ensures CheckInputAsWritten(OtherValue(GoType(Int, [], [], None), false, false)) == InputPanics
  {
  }

  /** The first checks as evidently intended: anything but a non-nil map is the invalid-type error. */
  function CheckInput(input: EnumMapInput): (r: InputCheck)
    ensures r != InputPanics
    ensures r == InputIsMap <==> input.MapValue? && !input.isNilMap
  {
    if input.MapValue? && !input.isNilMap then InputIsMap else InputInvalid
  }

  /** The two agree on every input the code as written does not panic on. */
  lemma CheckInputAgrees(input: EnumMapInput)
    ensures CheckInputAsWritten(input) != InputPanics ==> CheckInputAsWritten(input) == CheckInput(input)
  {
  }

  /** The predeclared `string`; a defined string type such as `type K string` has a package path. */
  predicate IsPlainString(t: GoType)
  {
    t.kind == String && t.pkgPath == []
  }

  /**
   * Line 111 as written: `k.Interface().(string)` asserts the key's dynamic
   * type, so it yields the key only for the predeclared `string` and
   * panics (`None`) for a defined type of kind string, which line 85 lets
   * through.
   */
  function KeyStringAsWritten(keyType: GoType, key: seq<byte>): Option<seq<byte>>
  {
    if IsPlainString(keyType) then Some(key) else None
  }

  /** The key as evidently intended, `k.String()`: the key's text for any key type of kind string. */
  function KeyString(keyType: GoType, key: seq<byte>): (r: Option<seq<byte>>)
    ensures keyType.kind == String ==> r == Some(key)
  {
    if keyType.kind == String then Some(key) else None
  }

  /** Wherever the as-written assertion does not panic, it agrees with `k.String()`. */
  lemma KeyStringAgrees(keyType: GoType, key: seq<byte>)
    ensures KeyStringAsWritten(keyType, key).Some? ==> KeyStringAsWritten(keyType, key) == KeyString(keyType, key)
  {
  }

  /**
   * `RegisterEnum(map[K]Animal{"a": 1})` with `type K string` and `type Animal int`
   * passes every check up to the key loop, whose first key then panics as written.
   */
  lemma NamedStringKeyPanics()
    ensures var k := GoType(String, Str("K"), Str("zoo"), None);
      var input := MapValue(false, k, GoType(Int, Str("Animal"), Str("zoo"), None), map[Str("a") := IntValue(1)]);
      Registrable(input) && KeyStringAsWritten(k, Str("a")).None? && KeyString(k, Str("a")) == Some(Str("a"))
  {
    var input := MapValue(false, GoType(String, Str("K"), Str("zoo"), None), GoType(Int, Str("Animal"), Str("zoo"), None), map[Str("a") := IntValue(1)]);
    assert input.contents.Keys == {Str("a")};
    assert IsQlName(Str("a"));
  }

  /** Why `registerEnumCheck` refused its input. */
  datatype EnumError =
    | InvalidInputType(shown: seq<byte>)
    | NotAGlobalType
    | EmptyKey
    | InvalidKey(key: seq<byte>)

  /** The message of each error; the first quotes the input as `%+v` shows it. */
  function EnumErrorText(e: EnumError): seq<byte>
  {
    match e
    case InvalidInputType(shown) => Str("RegisterEnum input must be of type map[string]CustomType(int..|uint..|string) as input, ") + shown + Str(" given")
    case NotAGlobalType => Str("RegisterEnum input map value must have a global custom type value (type Animals string) or (type Rules uint64)")
    case EmptyKey => Str("RegisterEnum input map cannot contain empty keys")
    case InvalidKey(key) => Str("RegisterEnum map key must start with an alphabetic character (lower or upper) followed by the same or a \"_\", key given: ") + key
  }

  /** What `registerEnumCheck` returns: an enum, nothing (for an empty map), or an error. */
  datatype CheckResult = Checked(e: Enum) | NothingToRegister | CheckError(err: EnumError)

  /** A non-nil map from strings to a string or integer type. */
  predicate WellTyped(input: EnumMapInput)
  {
    input.MapValue? && !input.isNilMap && input.keyType.kind == String && ValidEnumType(input.contentType)
  }

  /** The map's keys as a set. */
  function Keys(m: map<seq<byte>, EnumValue>): set<seq<byte>>
  {
    m.Keys
  }

  /** The entries are the map's key/value pairs, each once. */
  predicate EntriesOf(entries: seq<EnumEntry>, m: map<seq<byte>, EnumValue>)
  {
    |entries| == |m|
    && (forall i :: 0 <= i < |entries| ==> entries[i].key in m && m[entries[i].key] == entries[i].value)
    && (forall i, j :: 0 <= i < j < |entries| ==> entries[i].key != entries[j].key)
  }

  function EntryKeys(entries: seq<EnumEntry>): (r: seq<seq<byte>>)
    ensures |r| == |entries| && forall i :: 0 <= i < |entries| ==> r[i] == entries[i].key
  {
    seq(|entries|, i requires 0 <= i < |entries| => entries[i].key)
  }

  /** The enum registered for a map input: its type, the map's entries, and their names sorted. */
  ghost predicate EnumOf(e: Enum, input: EnumMapInput)
  {
    input.MapValue?
    && e.contentType == input.contentType && e.contentKind == input.contentType.kind
    && e.typeName == input.contentType.name && EntriesOf(e.entries, input.contents)
    && e.valueNames == SortNames(EntryKeys(e.entries)) && Sorted(e.valueNames)
  }

  /** Whether the input passes every check of `registerEnumCheck` and yields an enum. */
  predicate Registrable(input: EnumMapInput)
  {
    WellTyped(input) && IsNamed(input.contentType) && |input.contents| > 0 && forall k :: k in input.contents ==> IsQlName(k)
  }

  /**
   * `registerEnumCheck`: the input must be a map from strings to a named
   * string or integer type; an empty map registers nothing; each key must
   * be non-empty and a valid name. The map's iteration order is not
   * specified, so `:|` leaves the order of the entries open; the value
   * names are sorted afterwards.
   */
  method RegisterEnumCheck(input: EnumMapInput, shown: seq<byte>) returns (r: CheckResult)
    ensures r == CheckError(InvalidInputType(shown)) <==> !WellTyped(input)
    ensures WellTyped(input) ==> (r == CheckError(NotAGlobalType) <==> !IsNamed(input.contentType))
    ensures r.NothingToRegister? <==> WellTyped(input) && IsNamed(input.contentType) && |input.contents| == 0
    ensures r.CheckError? && r.err.EmptyKey? ==> input.MapValue? && [] in input.contents
    ensures r.CheckError? && r.err.InvalidKey? ==> input.MapValue? && r.err.key in input.contents && r.err.key != [] && !IsQlName(r.err.key)
    ensures r.Checked? <==>
      WellTyped(input) && IsNamed(input.contentType) && |input.contents| > 0 && forall k :: k in input.contents ==> IsQlName(k)
    ensures r.Checked? ==> EnumOf(r.e, input)
  {
    if CheckInput(input) == InputInvalid {
      return CheckError(InvalidInputType(shown));
    }
    if input.keyType.kind != String {
      return CheckError(InvalidInputType(shown));
    }
    var contentType := input.contentType;
    if !ValidEnumType(contentType) {
      return CheckError(InvalidInputType(shown));
    }
    if contentType.pkgPath == [] || contentType.name == [] {
      return CheckError(NotAGlobalType);
    }
    if |input.contents| == 0 {
      return NothingToRegister;
    }
    var entries, err := CollectEntries(input.contents);
    if err.Some? {
      return CheckError(err.value);
    }
    var names := EntryKeys(entries);
    var sorted := SortNames(names);
    SortNamesSorted(names);
    return Checked(Enum(contentType, contentType.kind, contentType.name, entries, sorted));
  }

  /**
   * The key loop of `registerEnumCheck`: every key, in the map's
   * unspecified order, must be non-empty and a valid name; the entries
   * collected are then the map's key/value pairs.
   */
  method CollectEntries(m: map<seq<byte>, EnumValue>) returns (entries: seq<EnumEntry>, err: Option<EnumError>)
    ensures err.None? <==> forall k :: k in m ==> IsQlName(k)
    ensures err.None? ==> EntriesOf(entries, m)
    ensures err.Some? ==> err.value.EmptyKey? || err.value.InvalidKey?
    ensures err == Some(EmptyKey) ==> [] in m
    ensures err.Some? && err.value.InvalidKey? ==> err.value.key in m && err.value.key != [] && !IsQlName(err.value.key)
  {
    entries := [];
    var remaining := m.Keys;
    while remaining != {}
      invariant remaining <= m.Keys
      invariant |entries| + |remaining| == |m|
      invariant forall i :: 0 <= i < |entries| ==> entries[i].key in m && entries[i].key !in remaining && m[entries[i].key] == entries[i].value
      invariant forall i, j :: 0 <= i < j < |entries| ==> entries[i].key != entries[j].key
      invariant forall i :: 0 <= i < |entries| ==> IsQlName(entries[i].key)
      invariant forall k :: k in m && k !in remaining ==> exists i :: 0 <= i < |entries| && entries[i].key == k
      decreases |remaining|
    {
      var keyStr :| keyStr in remaining;
      if keyStr == [] {
        return [], Some(EmptyKey);
      }
      var nameErr := ValidGraphQlName(keyStr);
      if nameErr.Some? {
        return [], Some(InvalidKey(keyStr));
      }
      ghost var before := entries;
      entries := entries + [EnumEntry(keyStr, m[keyStr])];
      remaining := remaining - {keyStr};
      forall k | k in m && k !in remaining ensures exists i :: 0 <= i < |entries| && entries[i].key == k {
        if k == keyStr {
          assert entries[|entries| - 1].key == k;
        } else {
          var i :| 0 <= i < |before| && before[i].key == k;
          assert entries[i].key == k;
        }
      }
    }
    forall k | k in m ensures IsQlName(k) {
      var i :| 0 <= i < |entries| && entries[i].key == k;
    }
    err := None;
  }

  // ---------------------------------------------------------------- the schema's enums

  const ParsedMsg: seq<byte> := Str("(*graphql.Schema).RegisterEnum() cannot be ran after (*graphql.Schema).Parse()")

  /** The enum part of `Schema`: whether `Parse` has run, and the enums registered so far. */
  class EnumSchema {
    var parsed: bool
    var definedEnums: seq<Enum>

    constructor ()
      ensures !parsed && definedEnums == []
    {
      parsed := false;
      definedEnums := [];
    }

    /**
     * `getEnum`: the index of the first registered enum with the type's
     * name, or -1 when there is none or the type is unnamed or of a kind no
     * enum has.
     */
    method GetEnum(t: GoType) returns (idx: int, e: Option<Enum>)
      ensures !IsNamed(t) || !ValidEnumType(t) ==> idx == -1 && e.None?
      ensures idx == -1 <==> e.None?
      ensures IsNamed(t) && ValidEnumType(t) ==>
        (idx == -1 <==> forall i :: 0 <= i < |definedEnums| ==> definedEnums[i].typeName != t.name)
      ensures idx != -1 ==>
        0 <= idx < |definedEnums| && e == Some(definedEnums[idx]) && definedEnums[idx].typeName == t.name
        && forall i :: 0 <= i < idx ==> definedEnums[i].typeName != t.name
    {
      if |t.pkgPath| == 0 || |t.name| == 0 || !ValidEnumType(t) {
        return -1, None;
      }
      var i := 0;
      while i < |definedEnums|
        invariant 0 <= i <= |definedEnums|
        invariant forall j :: 0 <= j < i ==> definedEnums[j].typeName != t.name
      {
        if definedEnums[i].typeName == t.name {
          return i, Some(definedEnums[i]);
        }
        i := i + 1;
      }
      return -1, None;
    }

    /**
     * `RegisterEnum`: refused after `Parse`; otherwise checks the map and,
     * when it yields an enum, appends it.
     */
    method RegisterEnum(input: EnumMapInput, shown: seq<byte>) returns (added: bool, err: Option<seq<byte>>)
      modifies this
      ensures parsed == old(parsed)
      ensures old(parsed) ==> !added && err == Some(ParsedMsg) && definedEnums == old(definedEnums)
      ensures added ==> err.None? && exists e :: definedEnums == old(definedEnums) + [e] && EnumOf(e, input)
      ensures !added ==> definedEnums == old(definedEnums)
      ensures !old(parsed) ==> (added <==> Registrable(input))
      ensures !old(parsed) && WellTyped(input) && IsNamed(input.contentType) && |input.contents| == 0 ==> !added && err.None?
      ensures !old(parsed) && !added && !(WellTyped(input) && IsNamed(input.contentType) && |input.contents| == 0) ==> err.Some?
      ensures !old(parsed) && !WellTyped(input) ==> err == Some(EnumErrorText(InvalidInputType(shown)))
      ensures !old(parsed) && WellTyped(input) && !IsNamed(input.contentType) ==> err == Some(EnumErrorText(NotAGlobalType))
    {
      if parsed {
        return false, Some(ParsedMsg);
      }
      var r := RegisterEnumCheck(input, shown);
      if r.CheckError? {
        return false, Some(EnumErrorText(r.err));
      }
      if r.NothingToRegister? {
        return false, None;
      }
      definedEnums := definedEnums + [r.e];
      return true, None;
    }
  }
}
