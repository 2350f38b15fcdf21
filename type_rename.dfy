/**
 * Renaming the schema type of a named struct (type_rename.go): the table
 * `renamedTypes` maps a struct's Go name to the name the schema shows. A
 * `log.Panicf` of the source is a returned message here; every panic comes
 * before the table changes.
 */
module TypeRename {
  import opened Wrappers
  import opened Bytes
  import opened Kinds
  import opened SchemaNames

  /** Whether the caller passed `force` with `true` first: then the new name is not checked. */
  predicate Forced(force: seq<bool>)
  {
    |force| > 0 && force[0]
  }

  /** The message when the new name is not a valid name. */
  function InvalidRenameMsg(t: GoType, newName: seq<byte>): seq<byte>
  {
    Str("GraphQl cannot rename typeof of ") + KindName(t.kind) + Str(" with name ") + t.name
    + Str(" to ") + newName + Str(", err: ") + InvalidNameMsg
  }

  /** The checks `TypeRename` makes, in its order: the first that fails panics with its message. */
  function RenameProblem(t: GoType, newName: seq<byte>, force: seq<bool>): (p: Option<seq<byte>>)
    ensures p.None? <==>
      |t.name| > 0 && t.kind == Struct && TrimSpace(newName) != []
      && (Forced(force) || IsQlName(TrimSpace(newName)))
  {
    if t.name == [] then Some(Str("GraphQl Can only rename struct type with type name\n"))
    else if t.kind != Struct then
      Some(Str("GraphQl Cannot rename type of ") + KindName(t.kind) + Str(" with name: ") + t.name
        + Str(" and package: ") + t.pkgPath + Str(", can only rename Structs\n"))
    else
      var trimmed := TrimSpace(newName);
      if trimmed == [] then
        Some(Str("GraphQl cannot rename to empty string on type: ") + t.pkgPath + Str(" ") + t.name + Str("\n"))
      else if !Forced(force) && !IsQlName(trimmed) then Some(InvalidRenameMsg(t, trimmed))
      else None
  }

  /** A name `TypeRename` returned is accepted again as it stands, and renames to itself. */
  lemma RenameResultStable(t: GoType, newName: seq<byte>, force: seq<bool>)
    requires RenameProblem(t, newName, force).None?
    ensures TrimSpace(TrimSpace(newName)) == TrimSpace(newName)
    ensures RenameProblem(t, TrimSpace(newName), force).None?
  {
    TrimSpaceIdempotent(newName);
  }

  /** The renamed types. */
  class TypeRenames {
    var renamedTypes: map<seq<byte>, seq<byte>>

    constructor ()
      ensures renamedTypes == map[]
    {
      renamedTypes := map[];
    }

    /**
     * `TypeRename(type_, newName, force...)`: a named struct's schema name
     * becomes `newName` without surrounding white space, which must be a valid
     * name unless `force` says otherwise. Returns the name it stored.
     */
    method Rename(t: GoType, newName: seq<byte>, force: seq<bool>) returns (r: seq<byte>, panicMsg: Option<seq<byte>>)
      modifies this
      ensures panicMsg == RenameProblem(t, newName, force)
      ensures panicMsg.Some? ==> renamedTypes == old(renamedTypes)
      ensures panicMsg.None? ==> r == TrimSpace(newName) && renamedTypes == old(renamedTypes)[t.name := r]
      ensures panicMsg.None? ==> |r| > 0 && !IsSpace(r[0]) && !IsSpace(r[|r| - 1])
      ensures panicMsg.None? && !Forced(force) ==> IsQlName(r)
    {
      r := [];
      if t.name == [] {
        return r, Some(Str("GraphQl Can only rename struct type with type name\n"));
      }
      if t.kind != Struct {
        return r, Some(Str("GraphQl Cannot rename type of ") + KindName(t.kind) + Str(" with name: ") + t.name
          + Str(" and package: ") + t.pkgPath + Str(", can only rename Structs\n"));
      }
      var name := TrimSpace(newName);
      if |name| == 0 {
        return r, Some(Str("GraphQl cannot rename to empty string on type: ") + t.pkgPath + Str(" ") + t.name + Str("\n"));
      }
      if |force| == 0 || !force[0] {
        var err := ValidGraphQlName(name);
        if err.Some? {
          return r, Some(Str("GraphQl cannot rename typeof of ") + KindName(t.kind) + Str(" with name ") + t.name
            + Str(" to ") + name + Str(", err: ") + err.value);
        }
      }
      renamedTypes := renamedTypes[t.name := name];
      return name, None;
    }
  }
}
