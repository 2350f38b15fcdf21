/**
 * The interface registry (interfaces.go): which named structs implement
 * which named interfaces, kept in two tables. A `panic` of the source is a
 * returned message here; every panic comes before the tables change.
 * Whether a struct implements an interface is `reflect`'s method-set test,
 * a parameter of the model.
 */
module Interfaces {
  import opened Wrappers
  import opened Bytes
  import opened Kinds

  /** `implementationMap` and `structImplementsMap`. */
  datatype Tables = Tables(implementationMap: map<seq<byte>, seq<GoType>>, structImplementsMap: map<seq<byte>, seq<GoType>>)

  /** The list under `k`, empty when there is none (what indexing a Go map gives). */
  function Get(m: map<seq<byte>, seq<GoType>>, k: seq<byte>): seq<GoType>
  {
    if k in m then m[k] else []
  }

  /** Whether `list` holds a type with the same name and package path as `t`. */
  predicate HasType(list: seq<GoType>, t: GoType)
  {
    exists i :: 0 <= i < |list| && list[i].name == t.name && list[i].pkgPath == t.pkgPath
  }

  /**
   * What a call that does not panic leaves: nothing new when the struct is
   * already listed for the interface's name; otherwise the struct appended
   * under the interface's name and the interface under the struct's name.
   */
  function Registered(tables: Tables, typ: GoType, iface: GoType): (r: Tables)
    ensures HasType(Get(r.implementationMap, iface.name), typ)
  {
    if HasType(Get(tables.implementationMap, iface.name), typ) then tables
    else
      var list := Get(tables.implementationMap, iface.name) + [typ];
      assert list[|list| - 1] == typ;
      Tables(tables.implementationMap[iface.name := list],
             tables.structImplementsMap[typ.name := Get(tables.structImplementsMap, typ.name) + [iface]])
  }

  /** Registering the same struct for the same interface a second time changes nothing. */
  lemma RegisterIdempotent(tables: Tables, typ: GoType, iface: GoType)
    ensures Registered(Registered(tables, typ, iface), typ, iface) == Registered(tables, typ, iface)
  {
  }

  /** No list of `implementationMap` names the same struct twice. */
  ghost predicate NoDuplicates(tables: Tables)
  {
    forall k, i, j :: k in tables.implementationMap && 0 <= i < j < |tables.implementationMap[k]| ==>
      var list := tables.implementationMap[k];
      list[i].name != list[j].name || list[i].pkgPath != list[j].pkgPath
  }

  /** Registration never lists a struct twice for one interface name. */
  lemma RegisterKeepsNoDuplicates(tables: Tables, typ: GoType, iface: GoType)
    requires NoDuplicates(tables)
    ensures NoDuplicates(Registered(tables, typ, iface))
  {
    var old_ := Get(tables.implementationMap, iface.name);
    if !HasType(old_, typ) {
      var r := Registered(tables, typ, iface);
      var list := old_ + [typ];
      forall k: seq<byte>, i: int, j: int | k in r.implementationMap && 0 <= i < j < |r.implementationMap[k]|
        ensures r.implementationMap[k][i].name != r.implementationMap[k][j].name || r.implementationMap[k][i].pkgPath != r.implementationMap[k][j].pkgPath
      {
        if k == iface.name && j == |list| - 1 {
          assert list[i] == old_[i];
        }
      }
    }
  }

  // ---------------------------------------------------------------- the panic messages

  const NilInterfaceMsg: seq<byte> := Str("interfaceValue cannot be nil")
  const NotInterfacePointerMsg: seq<byte> := Str("interfaceValue should be a pointer to a interface")
  const InlineInterfaceMsg: seq<byte> := Str("interfaceValue should be a pointer to a named interface, not a inline interface")
  const NilTypeMsg: seq<byte> := Str("typeValue cannot be nil")
  const NotStructMsg: seq<byte> := Str("typeValue must be a struct")
  const InlineStructMsg: seq<byte> := Str("typeName should is not allowed to be a inline struct")
  const DoesNotImplement: seq<byte> := Str(" does not implement ")

  /** `path.Name`, how a named type is spelt in Go. */
  function QualifiedName(t: GoType): seq<byte>
  {
    t.pkgPath + ['.' as byte] + t.name
  }

  /** The message for a struct that does not implement the interface, as written: the package path where the struct's name belongs. */
  function NotImplementedMsgAsWritten(typ: GoType, iface: GoType): (m: seq<byte>)
    ensures var p := |typ.pkgPath|;
      |m| == 2 * p + 1 + |DoesNotImplement| + |QualifiedName(iface)|
      && m[..p] == typ.pkgPath && m[p] == '.' as byte && m[p + 1..2 * p + 1] == typ.pkgPath
      && m[2 * p + 1..] == DoesNotImplement + QualifiedName(iface)
  {
    typ.pkgPath + ['.' as byte] + typ.pkgPath + DoesNotImplement + QualifiedName(iface)
  }

  /** The message as evidently intended: it names the struct and the interface. */
  function NotImplementedMsg(typ: GoType, iface: GoType): (m: seq<byte>)
    ensures |QualifiedName(typ)| <= |m| && m[..|QualifiedName(typ)|] == QualifiedName(typ)
    ensures |QualifiedName(iface)| <= |m| && m[|m| - |QualifiedName(iface)|..] == QualifiedName(iface)
  {
    var m := QualifiedName(typ) + DoesNotImplement + QualifiedName(iface);
    assert m[..|QualifiedName(typ)|] == QualifiedName(typ);
    assert m[|m| - |QualifiedName(iface)|..] == QualifiedName(iface);
    m
  }

  /** For a struct `Foo` in package `pkg`, the message as written names `pkg.pkg`, not `pkg.Foo`. */
  lemma NotImplementedMsgLosesName(iface: GoType)
    ensures var typ := GoType(Struct, Str("Foo"), Str("pkg"), None);
      var m := NotImplementedMsgAsWritten(typ, iface);
      |QualifiedName(typ)| <= |m| && m[..|QualifiedName(typ)|] != QualifiedName(typ)
  {
    var typ := GoType(Struct, Str("Foo"), Str("pkg"), None);
    var m := NotImplementedMsgAsWritten(typ, iface);
    assert m[4] == 'p' as byte;
    assert QualifiedName(typ)[4] == 'F' as byte;
    assert m[..|QualifiedName(typ)|][4] != QualifiedName(typ)[4];
  }

  /** The checks `Implements` makes before it touches the tables, in its order: the first failure panics. */
  function ImplementsProblem(interfaceValue: Option<GoType>, typeValue: Option<GoType>, implements: (GoType, GoType) -> bool): (p: Option<seq<byte>>)
    ensures p.None? <==>
      interfaceValue.Some? && interfaceValue.value.kind == Ptr && interfaceValue.value.elem.Some?
      && interfaceValue.value.elem.value.kind == Interface && IsNamed(interfaceValue.value.elem.value)
      && typeValue.Some? && typeValue.value.kind == Struct && IsNamed(typeValue.value)
      && implements(typeValue.value, interfaceValue.value.elem.value)
  {
    if interfaceValue.None? then Some(NilInterfaceMsg)
    else if interfaceValue.value.kind != Ptr then Some(NotInterfacePointerMsg)
    else if interfaceValue.value.elem.None? || interfaceValue.value.elem.value.kind != Interface then Some(NotInterfacePointerMsg)
    else
      var iface := interfaceValue.value.elem.value;
      if iface.name == [] || iface.pkgPath == [] then Some(InlineInterfaceMsg)
      else if typeValue.None? then Some(NilTypeMsg)
      else if typeValue.value.kind != Struct then Some(NotStructMsg)
      else if typeValue.value.name == [] || typeValue.value.pkgPath == [] then Some(InlineStructMsg)
      else if !implements(typeValue.value, iface) then Some(NotImplementedMsg(typeValue.value, iface))
      else None
  }

  /** The registry's state. */
  class Registry {
    var implementationMap: map<seq<byte>, seq<GoType>>
    var structImplementsMap: map<seq<byte>, seq<GoType>>

    constructor ()
      ensures implementationMap == map[] && structImplementsMap == map[]
    {
      implementationMap := map[];
      structImplementsMap := map[];
    }

    function State(): Tables
      reads this
    {
      Tables(implementationMap, structImplementsMap)
    }

    /**
     * `Implements(interfaceValue, typeValue)`: `interfaceValue` is a pointer
     * to a named interface, `typeValue` a named struct that implements it.
     * Returns true unless it panics.
     */
    method Implements(interfaceValue: Option<GoType>, typeValue: Option<GoType>, implements: (GoType, GoType) -> bool)
      returns (ok: bool, panicMsg: Option<seq<byte>>)
      modifies this
      ensures panicMsg == ImplementsProblem(interfaceValue, typeValue, implements)
      ensures ok <==> panicMsg.None?
      ensures panicMsg.Some? ==> State() == old(State())
      ensures panicMsg.None? ==> State() == Registered(old(State()), typeValue.value, interfaceValue.value.elem.value)
    {
      panicMsg := ImplementsProblem(interfaceValue, typeValue, implements);
      if panicMsg.Some? {
        return false, panicMsg;
      }
      var interfaceType := interfaceValue.value.elem.value;
      var typeType := typeValue.value;
      var typesThatImplementInterf: seq<GoType>;
      if interfaceType.name !in implementationMap {
        typesThatImplementInterf := [];
      } else {
        typesThatImplementInterf := implementationMap[interfaceType.name];
        var i := 0;
        while i < |typesThatImplementInterf|
          invariant 0 <= i <= |typesThatImplementInterf|
          invariant forall j :: 0 <= j < i ==> typesThatImplementInterf[j].name != typeType.name || typesThatImplementInterf[j].pkgPath != typeType.pkgPath
        {
          var t := typesThatImplementInterf[i];
          if t.name == typeType.name && t.pkgPath == typeType.pkgPath {
            return true, None;
          }
          i := i + 1;
        }
      }
      implementationMap := implementationMap[interfaceType.name := typesThatImplementInterf + [typeType]];
      structImplementsMap := structImplementsMap[typeType.name := Get(structImplementsMap, typeType.name) + [interfaceType]];
      return true, None;
    }
  }
}
