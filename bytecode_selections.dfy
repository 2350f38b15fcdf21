/**
 * Selection sets of the query-to-bytecode parser (bytecode/bytecode.go:402-606):
 * fields with their alias, name hash, directives, arguments and nested
 * selection set, fragment spreads and inline fragments.
 */
module BytecodeSelections {
  import opened Bytes
  import opened Errors
  import opened BytecodeInstructions
  import opened BytecodeLexer
  import opened BytecodeValues
  import opened BytecodeParser

  // ---------------------------------------------------------------- selection sets

  /**
   * `parseSelectionSet` (bytecode.go:402-606), with `charNr` after the `{`.
   * A result that is not critical may still come with new errors, because
   * an inline fragment ignores the result of its own selection set
   * (bytecode.go:480).
   */
  function ParseSelectionSet(e: Env, s: PState): (r: Step)
    requires Bounded(e, s)
    ensures StepOk(e, s, r) && (!r.crit ==> s.charNr < r.st.charNr <= |e.query|)
    decreases |e.query| + 3 - s.charNr, 3
  {
    var p := MightIgnore(e.query, s.charNr);
    var s0 := s.(charNr := p.charNr);
    if p.eof then EOF(e, s0)
    else if p.c == '}' as byte then Step(Advance(s0, 1), false)
    else Selections(e, s0)
  }

  /** The loop of `parseSelectionSet` from one selection on, with `charNr` on its first byte. */
  function Selections(e: Env, s: PState): (r: Step)
    requires s.charNr < |e.query|
    ensures StepOk(e, s, r) && (!r.crit ==> s.charNr < r.st.charNr <= |e.query|)
    decreases |e.query| + 3 - s.charNr, 2
  {
    var item := Selection(e, s);
    if item.crit then item
    else
      var rest := SelectionNext(e, item.st);
      KeepsTrans(e, s, item.st, rest.st, |s.res|, |item.st.res|);
      rest
  }

  /** What follows a selection: an optional `,`, then `}` or the next selection. */
  function SelectionNext(e: Env, t: PState): (r: Step)
    requires t.charNr < |e.query|
    ensures StepOk(e, t, r) && (!r.crit ==> t.charNr < r.st.charNr <= |e.query|)
    decreases |e.query| + 3 - t.charNr, 3
  {
    var p := AfterComma(e.query, Peek(e.query[t.charNr], false, t.charNr));
    var t0 := t.(charNr := p.charNr);
    if p.eof then EOF(e, t0)
    else if p.c == '}' as byte then Step(Advance(t0, 1), false)
    else Selections(e, t0)
  }

  /**
   * One selection, with `charNr` on its first byte: a field, or, when no
   * name starts here, the field header is taken back and a `...` spread is
   * parsed in its place.
   */
  function Selection(e: Env, s: PState): (r: Step)
    requires s.charNr < |e.query|
    ensures StepOk(e, s, r)
    ensures !r.crit ==> s.charNr < r.st.charNr < |e.query|
    decreases |e.query| + 3 - s.charNr, 1
  {
    var at := |s.res|;
    var s1 := Append(s, FieldHeader + [0]);
    AppendKeeps(e, s, FieldHeader + [0]);
    var nm := ParseAndWriteName(e, s1);
    KeepsTrans(e, s, s1, nm.st, at, |s1.res|);
    if nm.crit then Step(nm.st, true)
    else if nm.n == 0 then
      var s2 := nm.st.(res := nm.st.res[..|nm.st.res| - 12]);
      assert s2.res == s.res;
      SpreadOrFail(e, s2)
    else
      var s2 := nm.st.(res := nm.st.res[at + 11 := nm.n as byte]);
      SetKeeps(e, s, nm.st, at, at + 11, nm.n as byte);
      var f := FieldRest(e, s2, at);
      KeepsTrans(e, s, s2, f.st, at, at);
      f
  }

  /** When no field name starts a selection: a `...` spread, or the error the parser gives up with. */
  function SpreadOrFail(e: Env, s: PState): (r: Step)
    requires s.charNr < |e.query|
    ensures StepOk(e, s, r)
    ensures !r.crit ==> s.charNr < r.st.charNr < |e.query|
    decreases |e.query| + 3 - s.charNr, 0
  {
    var m := Matches(e.query, s.charNr, [Str("...")]);
    if m.0 == 0 then Spread(e, s.(charNr := m.1))
    else Fail(e, s, ExpectedSelection(e.query[s.charNr]))
  }

  // ---------------------------------------------------------------- fields

  /** After the first name of a field (`at` is its `0 f`): an optional `: target`, then the name hash. */
  function FieldRest(e: Env, t: PState, at: nat): (r: Step)
    requires t.charNr < |e.query| && at + 13 <= |t.res| && t.res[at + 11] as nat == |t.res| - (at + 12)
    ensures Keeps(e, t, r.st, at) && (r.crit ==> |r.st.errors| > |t.errors|)
    ensures !r.crit ==> t.charNr <= r.st.charNr < |e.query|
    decreases |e.query| + 3 - t.charNr, 8
  {
    var p := MightIgnore(e.query, t.charNr);
    var t0 := t.(charNr := p.charNr);
    if p.eof then EOF(e, t0)
    else
      var t1 := Append(t0, [0]);
      AppendKeeps(e, t0, [0]);
      KeepsLess(e, t0, t1, |t.res|, at);
      if p.c == ':' as byte then
        var a := FieldAlias(e, Advance(t1, 1), at);
        KeepsTrans(e, t, Advance(t1, 1), a.st, at, at);
        a
      else
        var n1 := t1.res[at + 11] as nat;
        var t2 := t1.(res := WithUint32At(t1.res, at + 7, e.hasher(t1.res[at + 12..at + 12 + n1])));
        WriteKeeps(e, t, t1, at, at + 7, e.hasher(t1.res[at + 12..at + 12 + n1]));
        var b := FieldBody(e, t2, at);
        KeepsTrans(e, t, t2, b.st, at, at + 2);
        b
  }

  /** The target name of an aliased field, with `charNr` after the `:` and the target's length byte last in `Res`. */
  function FieldAlias(e: Env, t: PState, at: nat): (r: Step)
    requires 0 < t.charNr <= |e.query| && at + 14 <= |t.res| && t.res[at + 11] as nat == |t.res| - (at + 13)
    ensures Keeps(e, t, r.st, at) && (r.crit ==> |r.st.errors| > |t.errors|)
    ensures !r.crit ==> t.charNr <= r.st.charNr < |e.query|
    decreases |e.query| + 3 - t.charNr, 8
  {
    var p := MightIgnore(e.query, t.charNr);
    var t0 := t.(charNr := p.charNr);
    if p.eof then EOF(e, t0)
    else AliasTargetRead(e, t, at, ParseAndWriteName(e, t0))
  }

  /** The aliased field once `parseAndWriteName` has been called for the target name (its outcome is `nm`). */
  function AliasTargetRead(e: Env, t: PState, at: nat, nm: CountStep): (r: Step)
    requires 0 < t.charNr <= |e.query| && at + 14 <= |t.res| && t.res[at + 11] as nat == |t.res| - (at + 13)
    requires Keeps(e, t, nm.st, |t.res|) && (nm.crit ==> |nm.st.errors| > |t.errors|) && nm.n <= 255
    requires !nm.crit ==> nm.st.charNr < |e.query| && |nm.st.res| == |t.res| + nm.n
    ensures Keeps(e, t, r.st, at) && (r.crit ==> |r.st.errors| > |t.errors|)
    ensures !r.crit ==> t.charNr <= r.st.charNr < |e.query|
    decreases |e.query| + 3 - t.charNr, 7
  {
    var lenAt := |t.res| - 1;
    KeepsLess(e, t, nm.st, |t.res|, at);
    if nm.crit then Step(nm.st, true)
    else if nm.n == 0 then Fail(e, nm.st, ExpectedAliasName)
    else
      SetKeeps(e, t, nm.st, at, lenAt, nm.n as byte);
      var t1 := nm.st.(res := nm.st.res[lenAt := nm.n as byte]);
      var h := AliasHash(e, t1, at, lenAt);
      KeepsTrans(e, t, t1, h.st, at, at);
      h
  }

  /** After the target name of an aliased field: the hash of the target, then the directives. */
  function AliasHash(e: Env, t: PState, at: nat, lenAt: nat): (r: Step)
    requires t.charNr < |e.query| && at + 13 <= lenAt < |t.res| && lenAt + 1 + t.res[lenAt] as nat == |t.res|
    ensures Keeps(e, t, r.st, at) && (r.crit ==> |r.st.errors| > |t.errors|)
    ensures !r.crit ==> t.charNr <= r.st.charNr < |e.query|
    decreases |e.query| + 3 - t.charNr, 6
  {
    var p := MightIgnore(e.query, t.charNr);
    var t2 := t.(charNr := p.charNr);
    if p.eof then EOF(e, t2)
    else
      var v := e.hasher(t2.res[lenAt + 1..]);
      WriteKeeps(e, t, t2, at, at + 7, v);
      var t3 := t2.(res := WithUint32At(t2.res, at + 7, v));
      var b := FieldBody(e, t3, at);
      KeepsTrans(e, t, t3, b.st, at, at + 2);
      b
  }

  /** The directives of a field; their count goes to the header. */
  function FieldBody(e: Env, t: PState, at: nat): (r: Step)
    requires t.charNr < |e.query| && at + 13 <= |t.res|
    ensures Keeps(e, t, r.st, at + 2) && (r.crit ==> |r.st.errors| > |t.errors|)
    ensures !r.crit ==> t.charNr <= r.st.charNr < |e.query|
    decreases |e.query| + 3 - t.charNr, 5
  {
    if e.query[t.charNr] == '@' as byte then
      var d := ParseDirectives(e, t);
      KeepsLess(e, t, d.st, |t.res|, at + 2);
      SetKeeps(e, t, d.st, at + 2, at + 2, d.n as byte);
      var t1 := d.st.(res := d.st.res[at + 2 := d.n as byte]);
      if d.crit then Step(t1, true)
      else
        var a := FieldArgs(e, t1, at);
        KeepsTrans(e, t, t1, a.st, at + 2, at + 2);
        a
    else FieldArgs(e, t, at)
  }

  /** The `(...)` arguments of a field, if any. */
  function FieldArgs(e: Env, t: PState, at: nat): (r: Step)
    requires t.charNr < |e.query| && at + 13 <= |t.res|
    ensures Keeps(e, t, r.st, at + 2) && (r.crit ==> |r.st.errors| > |t.errors|)
    ensures !r.crit ==> t.charNr <= r.st.charNr < |e.query|
    decreases |e.query| + 3 - t.charNr, 4
  {
    if e.query[t.charNr] == '(' as byte then FieldParen(e, t, at)
    else FieldSelection(e, t, at)
  }

  /** The `(` of a field's arguments, with `charNr` on it. */
  function FieldParen(e: Env, t: PState, at: nat): (r: Step)
    requires t.charNr < |e.query| && at + 13 <= |t.res|
    ensures Keeps(e, t, r.st, at + 2) && (r.crit ==> |r.st.errors| > |t.errors|)
    ensures !r.crit ==> t.charNr <= r.st.charNr < |e.query|
    decreases |e.query| + 3 - t.charNr, 3
  {
    var p := MightIgnore(e.query, t.charNr + 1);
    var t2 := t.(charNr := p.charNr);
    if p.eof then EOF(e, t2)
    else
      var a := FieldArguments(e, t2, at);
      KeepsTrans(e, t, t2, a.st, |t.res|, at + 2);
      a
  }

  /** The assignments of a field's arguments, with `charNr` on the first one; the sub-selections follow. */
  function FieldArguments(e: Env, t: PState, at: nat): (r: Step)
    requires t.charNr < |e.query| && at + 13 <= |t.res|
    ensures Keeps(e, t, r.st, at + 2) && (r.crit ==> |r.st.errors| > |t.errors|)
    ensures !r.crit ==> t.charNr <= r.st.charNr < |e.query|
    decreases |e.query| + 3 - t.charNr, 3
  {
    var a := ParseAssignmentSet(e, t, ')' as byte);
    KeepsLess(e, t, a.st, |t.res|, at + 2);
    if a.crit then a
    else
      var p := MightIgnore(e.query, a.st.charNr);
      var t3 := a.st.(charNr := p.charNr);
      if p.eof then EOF(e, t3)
      else
        var f := FieldSelection(e, t3, at);
        KeepsTrans(e, t, t3, f.st, at + 2, at + 2);
        f
  }

  /** The `{...}` sub-selections of a field. */
  function FieldSelection(e: Env, t: PState, at: nat): (r: Step)
    requires t.charNr < |e.query| && at + 13 <= |t.res|
    ensures Keeps(e, t, r.st, at + 2) && (r.crit ==> |r.st.errors| > |t.errors|)
    ensures !r.crit ==> t.charNr <= r.st.charNr < |e.query|
    decreases |e.query| + 3 - t.charNr, 2
  {
    if e.query[t.charNr] == '{' as byte then
      var t1 := Advance(t, 1);
      var sel := ParseSelectionSet(e, t1);
      KeepsTrans(e, t, t1, sel.st, |t.res|, |t.res|);
      KeepsLess(e, t, sel.st, |t.res|, at + 2);
      if sel.crit then sel
      else
        var p := MightIgnore(e.query, sel.st.charNr);
        var t2 := sel.st.(charNr := p.charNr);
        if p.eof then EOF(e, t2)
        else
          var f := FieldEnd(e, t2, at);
          KeepsTrans(e, t, t2, f.st, at + 2, at + 2);
          f
    else FieldEnd(e, t, at)
  }

  /** `instructionEnd` and the field's length, counted from after its header. */
  function FieldEnd(e: Env, t: PState, at: nat): (r: Step)
    requires t.charNr < |e.query| && at + 13 <= |t.res|
    ensures Keeps(e, t, r.st, at + 2) && !r.crit && r.st.charNr == t.charNr && r.st.errors == t.errors
  {
    AppendKeeps(e, t, End);
    KeepsLess(e, t, Append(t, End), |t.res|, at + 2);
    WriteKeeps(e, t, Append(t, End), at + 2, at + 3, U32(|t.res| + 2 - (at + 11)));
    Step(t.(res := WithUint32At(t.res + End, at + 3, U32(|t.res| + 2 - (at + 11)))), false)
  }

  // ---------------------------------------------------------------- fragment spreads

  /** A fragment spread, with `charNr` after its `...`: `...Name` or `... on Type {...}`. */
  function Spread(e: Env, s: PState): (r: Step)
    requires Bounded(e, s)
    ensures StepOk(e, s, r)
    ensures !r.crit ==> s.charNr < r.st.charNr < |e.query|
    decreases |e.query| + 3 - s.charNr, 6
  {
    var p := MightIgnore(e.query, s.charNr);
    var s0 := s.(charNr := p.charNr);
    if p.eof then EOF(e, s0)
    else
      var w := MatchesWord(e.query, s0.charNr, [Str("on")]);
      if w.0 == 0 then
        var p2 := MightIgnore(e.query, w.1);
        var s1 := s.(charNr := p2.charNr);
        if p2.eof then EOF(e, s1)
        else SpreadName(e, s1, true)
      else SpreadName(e, s0, false)
  }

  /** The header, name and directives of a spread; `isInline` for `... on Type`. */
  function SpreadName(e: Env, s: PState, isInline: bool): (r: Step)
    requires s.charNr < |e.query|
    ensures StepOk(e, s, r)
    ensures !r.crit ==> s.charNr < r.st.charNr < |e.query|
    decreases |e.query| + 3 - s.charNr, 5
  {
    var at := |s.res|;
    var s1 := Append(s, SpreadHeader(isInline));
    AppendKeeps(e, s, SpreadHeader(isInline));
    var nm := ParseAndWriteName(e, s1);
    KeepsTrans(e, s, s1, nm.st, at, |s1.res|);
    if nm.crit then Step(nm.st, true)
    else
      var p := MightIgnore(e.query, nm.st.charNr);
      var t := nm.st.(charNr := p.charNr);
      if p.eof then EOF(e, t)
      else if nm.n == 0 then
        Fail(e, t, if isInline then ExpectedFragmentTypeName(p.c) else ExpectedFragmentName(p.c))
      else
        var b := SpreadBody(e, t, at, isInline);
        KeepsTrans(e, s, t, b.st, at, at);
        b
  }

  /** The directives of a spread, with `charNr` after its name; their count goes to the header. */
  function SpreadBody(e: Env, t: PState, at: nat, isInline: bool): (r: Step)
    requires t.charNr < |e.query| && at + 9 <= |t.res|
    ensures Keeps(e, t, r.st, at) && (r.crit ==> |r.st.errors| > |t.errors|)
    ensures !r.crit ==> t.charNr <= r.st.charNr < |e.query|
    decreases |e.query| + 3 - t.charNr, 4
  {
    if e.query[t.charNr] == '@' as byte then
      var d := ParseDirectives(e, t);
      KeepsLess(e, t, d.st, |t.res|, at + 3);
      SetKeeps(e, t, d.st, at + 3, at + 3, d.n as byte);
      var t1 := d.st.(res := d.st.res[at + 3 := d.n as byte]);
      KeepsLess(e, t, t1, at + 3, at);
      if d.crit then Step(t1, true)
      else
        var tl := SpreadTail(e, t1, at, isInline);
        KeepsTrans(e, t, t1, tl.st, at, at + 4);
        tl
    else
      var tl := SpreadTail(e, t, at, isInline);
      KeepsLess(e, t, tl.st, at + 4, at);
      tl
  }

  /** The selection set of an inline fragment, and the spread's length. */
  function SpreadTail(e: Env, t: PState, at: nat, isInline: bool): (r: Step)
    requires t.charNr < |e.query| && at + 9 <= |t.res|
    ensures Keeps(e, t, r.st, at + 4) && (r.crit ==> |r.st.errors| > |t.errors|)
    ensures !r.crit ==> t.charNr <= r.st.charNr < |e.query|
    decreases |e.query| + 3 - t.charNr, 3
  {
    var c := e.query[t.charNr];
    if !isInline then SpreadLength(e, t, t, at)
    else if c != '{' as byte then Fail(e, t, ExpectedInlineSelectionSet(c))
    else InlineSelection(e, t, at)
  }

  /** The `{...}` of an inline fragment, with `charNr` on the `{`, then the spread's length. */
  function InlineSelection(e: Env, t: PState, at: nat): (r: Step)
    requires t.charNr < |e.query| && at + 9 <= |t.res|
    ensures Keeps(e, t, r.st, at + 4) && (r.crit ==> |r.st.errors| > |t.errors|)
    ensures !r.crit ==> t.charNr <= r.st.charNr < |e.query|
    decreases |e.query| + 3 - t.charNr, 2
  {
    var t1 := Advance(t, 1);
    var sel := ParseSelectionSet(e, t1);
    KeepsTrans(e, t, t1, sel.st, |t.res|, |t.res|);
    var t2 := Append(sel.st, End);
    AppendKeeps(e, sel.st, End);
    KeepsTrans(e, t, sel.st, t2, |t.res|, |sel.st.res|);
    var p := MightIgnore(e.query, t2.charNr);
    var t3 := t2.(charNr := p.charNr);
    if p.eof then EOF(e, t3)
    else
      KeepsLess(e, t, t3, |t.res|, at + 4);
      SpreadLength(e, t, t3, at)
  }

  /** `Res` at `at + 4` set to the number of bytes after the spread's 8-byte header. */
  function SpreadLength(e: Env, t: PState, u: PState, at: nat): (r: Step)
    requires Keeps(e, t, u, at + 4) && at + 8 <= |u.res|
    ensures Keeps(e, t, r.st, at + 4) && !r.crit && r.st.charNr == u.charNr
    ensures r.st.res == WithUint32At(u.res, at + 4, U32(|u.res| - (at + 8)))
  {
    WriteKeeps(e, t, u, at + 4, at + 4, U32(|u.res| - (at + 8)));
    Step(u.(res := WithUint32At(u.res, at + 4, U32(|u.res| - (at + 8)))), false)
  }
}
