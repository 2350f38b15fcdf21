/**
 * Directives (directives.go): the registry of directives by the locations
 * they may be used at, the checks a directive passes before it is
 * registered, and the built-in `@skip` and `@include`. A `panic` of the
 * source is a returned message here; what was updated before it stays
 * updated.
 */
module Directives {
  import opened Wrappers
  import opened Bytes
  import EncodeString

  /** `DirectiveLocation`, a `uint8`. */
  newtype Location = x: int | 0 <= x < 256

  const FieldLocation: Location := 0
  const FragmentLocation: Location := 1
  const FragmentInlineLocation: Location := 2

  const UnknownLocationLabel: seq<byte> := Str("<UNKNOWN DIRECTIVE LOCATION>")

  /** `DirectiveLocation.String`: a label for each of the three locations, one shared label for any other value. */
  function LocationString(l: Location): (r: seq<byte>)
    ensures r == UnknownLocationLabel <==> l > FragmentInlineLocation
  {
    if l == FieldLocation then Str("<DirectiveLocationField>")
    else if l == FragmentLocation then Str("<DirectiveLocationFragment>")
    else if l == FragmentInlineLocation then Str("<DirectiveLocationFragmentInline>")
    else UnknownLocationLabel
  }

  /** The three known locations have three different labels. */
  lemma LocationLabelsDiffer(a: Location, b: Location)
    requires a <= FragmentInlineLocation && b <= FragmentInlineLocation && a != b
    ensures LocationString(a) != LocationString(b)
  {
    var la := LocationString(a);
    var lb := LocationString(b);
    assert |Str("<DirectiveLocationField>")| == 24;
    assert |Str("<DirectiveLocationFragment>")| == 27;
    assert |Str("<DirectiveLocationFragmentInline>")| == 33;
    assert |la| != |lb|;
  }

  /** `DirectiveModdifier`: whether to skip the field or fragment. */
  datatype Modifier = Modifier(skip: bool)

  /**
   * `Directive`: its name, its locations (`None` for a nil slice), its
   * method (`None` for nil) and its description. The `Method` is modelled as
   * taking the `If` argument both built-ins have.
   */
  datatype Directive = Directive(name: seq<byte>, where: Option<seq<Location>>, handler: Option<bool -> Modifier>, description: seq<byte>)

  // ---------------------------------------------------------------- checkDirective

  /** The bytes a directive name may consist of: `[0-9A-Za-z_]`. */
  predicate IsDirectiveChar(c: byte)
  {
    '0' as byte <= c <= '9' as byte || 'A' as byte <= c <= 'Z' as byte || 'a' as byte <= c <= 'z' as byte || c == '_' as byte
  }

  /** The index of the first byte of `name` that may not appear in a directive name, or `|name|`. */
  function FirstBadChar(name: seq<byte>, i: nat): (r: nat)
    requires i <= |name|
    ensures i <= r <= |name| && (r < |name| ==> !IsDirectiveChar(name[r]))
    ensures forall j :: i <= j < r ==> IsDirectiveChar(name[j])
    decreases |name| - i
  {
    if i == |name| || !IsDirectiveChar(name[i]) then i else FirstBadChar(name, i + 1)
  }

  /** Everything `checkDirective` demands. */
  predicate ValidDirective(d: Directive)
  {
    |d.name| > 0 && (forall i :: 0 <= i < |d.name| ==> IsDirectiveChar(d.name[i])) && d.where.Some? && d.handler.Some?
  }

  const EmptyNameMsg: seq<byte> := Str("cannot register directive with empty name")
  const NotAllowedMsg: seq<byte> := Str(" is not allowed as directive name")
  const WhereMsg: seq<byte> := Str("Where must be defined")
  const MethodMsg: seq<byte> := Str("Method must be defined")

  /**
   * `string(char) + " in " + name + ...` for the rune at `name[i]`: the rune's
   * UTF-8 bytes, or U+FFFD for a byte that does not start a valid sequence.
   */
  function BadCharMsg(name: seq<byte>, i: nat): seq<byte>
    requires i < |name|
  {
    EncodeString.SanitizedToken(name, i).0 + Str(" in ") + name + NotAllowedMsg
  }

  /**
   * `checkDirective`: the name must be non-empty and made of `[0-9A-Za-z_]`,
   * and `Where` and `Method` must be set; the first failed check panics.
   * The loop walks runes; every rune before the first bad one is one ASCII
   * byte, so it stops at the same place as a walk over bytes.
   */
  method CheckDirective(d: Directive) returns (panicMsg: Option<seq<byte>>)
    ensures panicMsg.None? <==> ValidDirective(d)
    ensures |d.name| == 0 ==> panicMsg == Some(EmptyNameMsg)
    ensures 0 < |d.name| && FirstBadChar(d.name, 0) < |d.name| ==> panicMsg == Some(BadCharMsg(d.name, FirstBadChar(d.name, 0)))
    ensures 0 < |d.name| && FirstBadChar(d.name, 0) == |d.name| && d.where.None? ==> panicMsg == Some(WhereMsg)
    ensures 0 < |d.name| && FirstBadChar(d.name, 0) == |d.name| && d.where.Some? && d.handler.None? ==> panicMsg == Some(MethodMsg)
  {
    if |d.name| == 0 {
      return Some(EmptyNameMsg);
    }
    var i := 0;
    while i < |d.name|
      invariant 0 <= i <= |d.name|
      invariant FirstBadChar(d.name, 0) == FirstBadChar(d.name, i)
    {
      var c := d.name[i];
      if '0' as byte <= c <= '9' as byte || 'A' as byte <= c <= 'Z' as byte || 'a' as byte <= c <= 'z' as byte || c == '_' as byte {
        i := i + 1;
        continue;
      }
      return Some(BadCharMsg(d.name, i));
    }
    if d.where.None? {
      return Some(WhereMsg);
    }
    if d.handler.None? {
      return Some(MethodMsg);
    }
    return None;
  }

  // ---------------------------------------------------------------- the registry

  /** No location lists two directives with the same name. */
  ghost predicate UniqueNames(defined: map<Location, seq<Directive>>)
  {
    forall l, i, j :: l in defined && 0 <= i < j < |defined[l]| ==> defined[l][i].name != defined[l][j].name
  }

  /** Whether `list` has a directive named `name`. */
  predicate HasName(list: seq<Directive>, name: seq<byte>)
  {
    exists i :: 0 <= i < |list| && list[i].name == name
  }

  /** The list at `l`, empty when there is none. */
  function At(defined: map<Location, seq<Directive>>, l: Location): seq<Directive>
  {
    if l in defined then defined[l] else []
  }

  const DuplicatePrefix: seq<byte> := Str("you cannot have duplicated directive names in ")
  const WithName: seq<byte> := Str(" with name ")

  function DuplicateMsg(l: Location, name: seq<byte>): seq<byte>
  {
    DuplicatePrefix + LocationString(l) + WithName + name
  }

  /**
   * The loop of `RegisterDirective` over `locs`: the table it leaves and the
   * panic message, if a location already has a directive of that name.
   */
  function RegisterAt(defined: map<Location, seq<Directive>>, d: Directive, locs: seq<Location>): (map<Location, seq<Directive>>, Option<seq<byte>>)
    decreases |locs|
  {
    if |locs| == 0 then (defined, None)
    else if HasName(At(defined, locs[0]), d.name) then (defined, Some(DuplicateMsg(locs[0], d.name)))
    else RegisterAt(defined[locs[0] := At(defined, locs[0]) + [d]], d, locs[1..])
  }

  /** The locations in `locs` are all different. */
  predicate Distinct(locs: seq<Location>)
  {
    forall i, j :: 0 <= i < j < |locs| ==> locs[i] != locs[j]
  }

  /** A list is `Distinct` exactly when its head is not in its tail and the tail is `Distinct`. */
  lemma DistinctTail(locs: seq<Location>)
    requires |locs| > 0
    ensures Distinct(locs) <==> locs[0] !in locs[1..] && Distinct(locs[1..])
  {
    if locs[0] in locs[1..] {
      var k :| 0 <= k < |locs[1..]| && locs[1..][k] == locs[0];
      assert locs[k + 1] == locs[0];
    }
    if locs[0] !in locs[1..] && Distinct(locs[1..]) {
      forall i, j | 0 <= i < j < |locs| ensures locs[i] != locs[j] {
        if i > 0 {
          assert locs[i] == locs[1..][i - 1] && locs[j] == locs[1..][j - 1];
        } else {
          assert locs[j] in locs[1..];
        }
      }
    }
    if Distinct(locs) {
      forall i, j | 0 <= i < j < |locs[1..]| ensures locs[1..][i] != locs[1..][j] {
        assert locs[1..][i] == locs[i + 1] && locs[1..][j] == locs[j + 1];
      }
    }
  }

  /**
   * Registration succeeds exactly when no listed location already has a
   * directive of that name and no location is listed twice; it then adds
   * the directive at the end of each listed location and changes nothing
   * else.
   */
  lemma {:induction false} RegisterOutcome(defined: map<Location, seq<Directive>>, d: Directive, locs: seq<Location>)
    ensures var (after, panicMsg) := RegisterAt(defined, d, locs);
      (panicMsg.None? <==> Distinct(locs) && forall l :: l in locs ==> !HasName(At(defined, l), d.name))
      && (panicMsg.None? ==> forall l :: At(after, l) == if l in locs then At(defined, l) + [d] else At(defined, l))
      && (forall l :: l !in locs ==> At(after, l) == At(defined, l) && (l in after <==> l in defined))
  {
    RegisterSucceeds(defined, d, locs);
    RegisterAdds(defined, d, locs);
    RegisterFrame(defined, d, locs);
  }

  /** Adding `d` at `l` gives `l` a directive of that name and leaves every other location alone. */
  lemma AddAt(defined: map<Location, seq<Directive>>, d: Directive, l0: Location)
    ensures var next := defined[l0 := At(defined, l0) + [d]];
      HasName(At(next, l0), d.name) && At(next, l0) == At(defined, l0) + [d]
      && forall l :: l != l0 ==> At(next, l) == At(defined, l) && (l in next <==> l in defined)
  {
    var next := defined[l0 := At(defined, l0) + [d]];
    assert At(next, l0)[|At(defined, l0)|].name == d.name;
  }

  /** The split of a nonempty list into its head and its tail, for membership. */
  lemma InHeadOrTail(locs: seq<Location>)
    requires |locs| > 0
    ensures forall l :: l in locs <==> l == locs[0] || l in locs[1..]
  {
    assert locs == [locs[0]] + locs[1..];
  }

  /** Registration succeeds exactly when the locations are distinct and none already has the name. */
  lemma {:induction false} RegisterSucceeds(defined: map<Location, seq<Directive>>, d: Directive, locs: seq<Location>)
    ensures RegisterAt(defined, d, locs).1.None? <==> Distinct(locs) && forall l :: l in locs ==> !HasName(At(defined, l), d.name)
    decreases |locs|
  {
    if |locs| > 0 {
      var l0 := locs[0];
      InHeadOrTail(locs);
      if !HasName(At(defined, l0), d.name) {
        var next := defined[l0 := At(defined, l0) + [d]];
        RegisterSucceeds(next, d, locs[1..]);
        AddAt(defined, d, l0);
        DistinctTail(locs);
      }
    }
  }

  /** A registration that succeeds adds `d` at the end of each listed location's list. */
  lemma {:induction false} RegisterAdds(defined: map<Location, seq<Directive>>, d: Directive, locs: seq<Location>)
    ensures var (after, panicMsg) := RegisterAt(defined, d, locs);
      panicMsg.None? ==> forall l :: At(after, l) == if l in locs then At(defined, l) + [d] else At(defined, l)
    decreases |locs|
  {
    if |locs| > 0 {
      var l0 := locs[0];
      InHeadOrTail(locs);
      if !HasName(At(defined, l0), d.name) {
        var next := defined[l0 := At(defined, l0) + [d]];
        RegisterAdds(next, d, locs[1..]);
        RegisterSucceeds(next, d, locs[1..]);
        AddAt(defined, d, l0);
      }
    }
  }

  /** Registration never touches a location it is not given. */
  lemma {:induction false} RegisterFrame(defined: map<Location, seq<Directive>>, d: Directive, locs: seq<Location>)
    ensures var after := RegisterAt(defined, d, locs).0;
      forall l :: l !in locs ==> At(after, l) == At(defined, l) && (l in after <==> l in defined)
    decreases |locs|
  {
    if |locs| > 0 {
      var l0 := locs[0];
      InHeadOrTail(locs);
      if !HasName(At(defined, l0), d.name) {
        var next := defined[l0 := At(defined, l0) + [d]];
        RegisterFrame(next, d, locs[1..]);
        AddAt(defined, d, l0);
      }
    }
  }


  /** Registering keeps every location free of duplicate names, whether or not it panics. */
  lemma {:induction false} RegisterKeepsUnique(defined: map<Location, seq<Directive>>, d: Directive, locs: seq<Location>)
    requires UniqueNames(defined)
    ensures UniqueNames(RegisterAt(defined, d, locs).0)
    decreases |locs|
  {
    if |locs| > 0 && !HasName(At(defined, locs[0]), d.name) {
      var l0 := locs[0];
      var list: seq<Directive> := At(defined, l0) + [d];
      var next: map<Location, seq<Directive>> := defined[l0 := list];
      forall l: Location, i: int, j: int | l in next && 0 <= i < j < |next[l]| ensures next[l][i].name != next[l][j].name {
        if l == l0 && j == |list| - 1 {
          assert list[i] == At(defined, l0)[i];
        }
      }
      RegisterKeepsUnique(next, d, locs[1..]);
    }
  }

  /** The registry: `definedDirectives`. */
  class DirectiveRegistry {
    var defined: map<Location, seq<Directive>>

    /** The package's initialisation: an empty table, then `@skip` and `@include`. */
    constructor ()
      ensures defined == BuiltinTable()
    {
      defined := map[];
      new;
      var ok, panicMsg := RegisterDirective(SkipDirective);
      ok, panicMsg := RegisterDirective(IncludeDirective);
      BuiltinsRegister();
    }

    /**
     * `RegisterDirective`: check the directive, then for each location in
     * `Where` panic if the name is taken there, and append it otherwise.
     */
    method RegisterDirective(d: Directive) returns (ok: bool, panicMsg: Option<seq<byte>>)
      modifies this
      ensures ok <==> panicMsg.None?
      ensures !ValidDirective(d) ==> panicMsg.Some? && defined == old(defined)
      ensures ValidDirective(d) ==> (defined, panicMsg) == RegisterAt(old(defined), d, d.where.value)
    {
      panicMsg := CheckDirective(d);
      if panicMsg.Some? {
        return false, panicMsg;
      }
      var where := d.where.value;
      var k := 0;
      while k < |where|
        invariant 0 <= k <= |where|
        invariant RegisterAt(old(defined), d, where) == RegisterAt(defined, d, where[k..])
      {
        var location := where[k];
        var taken := AddAt(location, d);
        if taken {
          return false, Some(DuplicateMsg(location, d.name));
        }
        assert where[k..][1..] == where[k + 1..];
        k := k + 1;
      }
      return true, None;
    }

    /**
     * One round of the loop of `RegisterDirective`: look for the name among
     * the directives at `location`, and append `d` there when it is not
     * taken.
     */
    method AddAt(location: Location, d: Directive) returns (taken: bool)
      modifies this
      ensures taken <==> HasName(At(old(defined), location), d.name)
      ensures taken ==> defined == old(defined)
      ensures !taken ==> defined == old(defined)[location := At(old(defined), location) + [d]]
    {
      var forLocation: seq<Directive>;
      if location !in defined {
        forLocation := [];
      } else {
        forLocation := defined[location];
        var j := 0;
        while j < |forLocation|
          invariant 0 <= j <= |forLocation|
          invariant forall m :: 0 <= m < j ==> forLocation[m].name != d.name
        {
          if d.name == forLocation[j].name {
            return true;
          }
          j := j + 1;
        }
      }
      defined := defined[location := forLocation + [d]];
      return false;
    }
  }

  // ---------------------------------------------------------------- skip and include

  const AllLocations: seq<Location> := [FieldLocation, FragmentLocation, FragmentInlineLocation]

  /** `@skip(if:)`: skip when `if` is true. */
  const SkipDirective: Directive := Directive(Str("skip"), Some(AllLocations), Some((b: bool) => Modifier(b)),
    Str("Directs the executor to skip this field or fragment when the `if` argument is true."))

  /** `@include(if:)`: skip when `if` is false. */
  const IncludeDirective: Directive := Directive(Str("include"), Some(AllLocations), Some((b: bool) => Modifier(!b)),
    Str("Directs the executor to include this field or fragment only when the `if` argument is true."))

  /** The table after the package's initialisation: `@skip` then `@include` at each of the three locations. */
  function BuiltinTable(): map<Location, seq<Directive>>
  {
    map[FieldLocation := [SkipDirective, IncludeDirective],
        FragmentLocation := [SkipDirective, IncludeDirective],
        FragmentInlineLocation := [SkipDirective, IncludeDirective]]
  }

  /** For every value of `if`, exactly one of the two built-ins skips. */
  lemma SkipIncludeOpposite(b: bool)
    ensures SkipDirective.handler.value(b).skip == b
    ensures IncludeDirective.handler.value(b).skip == !b
  {
  }

  /** The table after `@skip` alone. */
  function SkipTable(): map<Location, seq<Directive>>
  {
    map[FieldLocation := [SkipDirective], FragmentLocation := [SkipDirective], FragmentInlineLocation := [SkipDirective]]
  }

  /** `@skip` registers without a panic into an empty table. */
  lemma SkipRegisters()
    ensures RegisterAt(map[], SkipDirective, AllLocations) == (SkipTable(), None)
  {
    var d := SkipDirective;
    var m1 := map[FieldLocation := [d]];
    var m2 := m1[FragmentLocation := [d]];
    assert AllLocations[0] == FieldLocation && AllLocations[1..][0] == FragmentLocation;
    assert At(map[], FieldLocation) == [] && !HasName([], d.name);
    var e: map<Location, seq<Directive>> := map[];
    assert At(e, FieldLocation) + [d] == [d];
    assert e[FieldLocation := [d]] == m1;
    assert RegisterAt(map[], d, AllLocations) == RegisterAt(m1, d, AllLocations[1..]);
    assert RegisterAt(m1, d, AllLocations[1..]) == RegisterAt(m2, d, AllLocations[2..]);
    assert RegisterAt(m2, d, AllLocations[2..]) == RegisterAt(m2[FragmentInlineLocation := [d]], d, []);
  }

  /** `@include` registers without a panic after `@skip`: the names differ. */
  lemma IncludeRegisters()
    ensures RegisterAt(SkipTable(), IncludeDirective, AllLocations) == (BuiltinTable(), None)
  {
    var s := SkipDirective;
    var d := IncludeDirective;
    assert |s.name| == 4 && |d.name| == 7;
    assert !HasName([s], d.name);
    var m0 := SkipTable();
    var m1 := m0[FieldLocation := [s, d]];
    var m2 := m1[FragmentLocation := [s, d]];
    assert At(m0, FieldLocation) == [s] && At(m0, FieldLocation) + [d] == [s, d];
    assert At(m1, FragmentLocation) == [s] && At(m1, FragmentLocation) + [d] == [s, d];
    assert At(m2, FragmentInlineLocation) == [s] && At(m2, FragmentInlineLocation) + [d] == [s, d];
    assert RegisterAt(m0, d, AllLocations) == RegisterAt(m1, d, AllLocations[1..]);
    assert RegisterAt(m1, d, AllLocations[1..]) == RegisterAt(m2, d, AllLocations[2..]);
    assert RegisterAt(m2, d, AllLocations[2..]) == RegisterAt(m2[FragmentInlineLocation := [s, d]], d, []);
    assert m2[FragmentInlineLocation := [s, d]] == BuiltinTable();
  }

  /** Both built-ins are valid and register without a panic, into the table `BuiltinTable` describes. */
  lemma BuiltinsRegister()
    ensures ValidDirective(SkipDirective) && ValidDirective(IncludeDirective)
    ensures RegisterAt(RegisterAt(map[], SkipDirective, AllLocations).0, IncludeDirective, AllLocations) == (BuiltinTable(), None)
  {
    SkipRegisters();
    IncludeRegisters();
  }
}
