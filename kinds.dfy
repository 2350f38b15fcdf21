/**
 * The part of Go's run-time type information the schema helpers look at:
 * a type's kind, its name and its package path (`reflect.Kind`,
 * `Type.Name()`, `Type.PkgPath()`, `Type.Elem()`).
 */
module Kinds {
  import opened Wrappers
  import opened Bytes

  /** `reflect.Kind`, in the order of its constants. */
  datatype Kind =
    | Invalid | Bool | Int | Int8 | Int16 | Int32 | Int64
    | Uint | Uint8 | Uint16 | Uint32 | Uint64 | Uintptr
    | Float32 | Float64 | Complex64 | Complex128
    | Array | Chan | Func | Interface | Map | Ptr | Slice | String | Struct
    | UnsafePointer

  /** The signed integer kinds. */
  predicate IsSignedInt(k: Kind)
  {
    k == Int || k == Int8 || k == Int16 || k == Int32 || k == Int64
  }

  /** The unsigned integer kinds, without `uintptr`. */
  predicate IsUnsignedInt(k: Kind)
  {
    k == Uint || k == Uint8 || k == Uint16 || k == Uint32 || k == Uint64
  }

  /** `Kind.String()`: the lower-case name `reflect` gives each kind. */
  function KindName(k: Kind): (r: seq<byte>)
    ensures |r| > 0
  {
    match k
    case Invalid => Str("invalid")
    case Bool => Str("bool")
    case Int => Str("int")
    case Int8 => Str("int8")
    case Int16 => Str("int16")
    case Int32 => Str("int32")
    case Int64 => Str("int64")
    case Uint => Str("uint")
    case Uint8 => Str("uint8")
    case Uint16 => Str("uint16")
    case Uint32 => Str("uint32")
    case Uint64 => Str("uint64")
    case Uintptr => Str("uintptr")
    case Float32 => Str("float32")
    case Float64 => Str("float64")
    case Complex64 => Str("complex64")
    case Complex128 => Str("complex128")
    case Array => Str("array")
    case Chan => Str("chan")
    case Func => Str("func")
    case Interface => Str("interface")
    case Map => Str("map")
    case Ptr => Str("ptr")
    case Slice => Str("slice")
    case String => Str("string")
    case Struct => Str("struct")
    case UnsafePointer => Str("unsafe.Pointer")
  }

  /**
   * A `reflect.Type`: its kind, name and package path (both empty for an
   * unnamed type), and for a pointer, map or slice the element type.
   */
  datatype GoType = GoType(kind: Kind, name: seq<byte>, pkgPath: seq<byte>, elem: Option<GoType>)

  /** A type declared at package level: it has a name and a package path. */
  predicate IsNamed(t: GoType)
  {
    |t.name| > 0 && |t.pkgPath| > 0
  }
}
