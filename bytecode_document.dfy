/**
 * The top level of the query-to-bytecode parser (bytecode/bytecode.go:24-198):
 * a document is a sequence of operations and fragment definitions, parsed
 * one after the other until the end of the input or a critical error.
 */
module BytecodeDocument {
  import opened Wrappers
  import opened Bytes
  import opened Errors
  import opened BytecodeInstructions
  import opened BytecodeLexer
  import opened BytecodeParser
  import opened BytecodeSelections

  /**
   * What one definition keeps: it moves forward, keeps the bytes and the
   * errors already there, and may add fragment locations after the ones
   * already there. Unlike the steps inside a definition, it may move `TargetIdx`.
   */
  predicate Grows(e: Env, s: PState, t: PState)
  {
    s.charNr <= t.charNr <= |e.query| + 3
    && |s.res| <= |t.res| && t.res[..|s.res|] == s.res
    && |s.errors| <= |t.errors| && t.errors[..|s.errors|] == s.errors
    && |s.fragLocs| <= |t.fragLocs| && t.fragLocs[..|s.fragLocs|] == s.fragLocs
  }

  /** The step after one operation or fragment: it stopped, or it went forward. */
  predicate DefinitionOk(e: Env, s: PState, r: Step)
  {
    Grows(e, s, r.st) && (!r.crit ==> s.charNr < r.st.charNr)
    && (r.crit ==> r.st.charNr >= |e.query| || |r.st.errors| > |s.errors|)
  }

  lemma KeepsGrows(e: Env, s: PState, t: PState)
    requires Keeps(e, s, t, |s.res|)
    ensures Grows(e, s, t)
  {
    assert t.fragLocs[..|s.fragLocs|] == s.fragLocs;
  }

  lemma GrowsTrans(e: Env, a: PState, b: PState, c: PState)
    requires Grows(e, a, b) && Grows(e, b, c)
    ensures Grows(e, a, c)
  {
    assert c.res[..|a.res|] == c.res[..|b.res|][..|a.res|];
    assert c.errors[..|a.errors|] == c.errors[..|b.errors|][..|a.errors|];
    assert c.fragLocs[..|a.fragLocs|] == c.fragLocs[..|b.fragLocs|][..|a.fragLocs|];
  }

  /** Keeping the bytes of `s` across a change of `TargetIdx` in between. */
  lemma GrowsThrough(e: Env, s: PState, m: PState, u: PState, x: int)
    requires Keeps(e, s, m, |s.res|) && Keeps(e, m.(targetIdx := x), u, |s.res|)
    ensures Grows(e, s, u)
  {
    assert u.res[..|s.res|] == s.res;
    assert u.errors[..|s.errors|] == u.errors[..|m.errors|][..|s.errors|];
  }

  // ---------------------------------------------------------------- definitions

  /**
   * `parseOperatorOrFragment` (bytecode.go:52-198); the result's `crit` is
   * its `stop`. The end of the input stops the parse without an error.
   * Without a target, an operation takes `TargetIdx` before anything else
   * is read from it.
   */
  function ParseOperatorOrFragment(e: Env, s: PState): (r: Step)
    requires Bounded(e, s)
    ensures DefinitionOk(e, s, r)
  {
    var p := MightIgnore(e.query, s.charNr);
    var s0 := s.(charNr := p.charNr);
    var target := if e.hasTarget then s.targetIdx else |s.res|;
    if p.eof then Step(s0, true)
    else if p.c == '{' as byte then
      var s0t := s0.(targetIdx := target);
      var s1 := Append(s0t, OperationHeader(OperatorQuery));
      var r := DefinitionBody(e, s1);
      AppendKeeps(e, s0t, OperationHeader(OperatorQuery));
      KeepsTrans(e, s0t, s1, r.st, |s0t.res|, |s1.res|);
      GrowsThrough(e, s, s0, r.st, s1.targetIdx);
      r
    else
      var m := Matches(e.query, p.charNr, OperationKeywords);
      if m.0 != -1 then Operation(e, s0.(charNr := m.1, targetIdx := target), OperationKind(m.0))
      else FragmentOrFail(e, s0)
  }

  /** `query`, `mutation` and `subscription`, in the order `matches` is given them. */
  const OperationKeywords: seq<seq<byte>> := [Str("query"), Str("mutation"), Str("subscription")]

  /** The operation kind of the keyword `OperationKeywords[i]`. */
  function OperationKind(i: int): (k: byte)
    ensures k in {OperatorQuery, OperatorMutation, OperatorSubscription}
  {
    if i == 0 then OperatorQuery else if i == 1 then OperatorMutation else OperatorSubscription
  }

  /** `fragment`, or the error for a definition that starts with anything else. */
  function FragmentOrFail(e: Env, s: PState): (r: Step)
    requires s.charNr < |e.query|
    ensures DefinitionOk(e, s, r) && (r.crit ==> |r.st.errors| > |s.errors|)
    ensures r.st.fragLocs != s.fragLocs <==> MatchIndex(e.query, s.charNr, [Str("fragment")]) != -1
    ensures r.st.fragLocs != s.fragLocs ==>
      r.st.fragLocs == s.fragLocs + [|s.res| + 1] && FragmentAt(r.st.res, |s.res| + 1)
      && (!r.crit ==> NamedAt(r.st.res, |s.res| + 1))
  {
    var f := Matches(e.query, s.charNr, [Str("fragment")]);
    if f.0 != -1 then Fragment(e, s.(charNr := f.1))
    else
      KeepsGrows(e, s, Fail(e, s, ExpectedOperation(e.query[s.charNr])).st);
      Fail(e, s, ExpectedOperation(e.query[s.charNr]))
  }

  /** The selection set of a definition, with `charNr` on its `{`, and the `0 e` that closes the definition. */
  function DefinitionBody(e: Env, s: PState): (r: Step)
    requires s.charNr < |e.query|
    ensures StepOk(e, s, r) && (!r.crit ==> s.charNr < r.st.charNr)
  {
    var sel := ParseSelectionSet(e, Advance(s, 1));
    KeepsTrans(e, s, Advance(s, 1), sel.st, |s.res|, |s.res|);
    if sel.crit then sel
    else
      AppendKeeps(e, sel.st, End);
      KeepsTrans(e, s, sel.st, Append(sel.st, End), |s.res|, |sel.st.res|);
      Step(Append(sel.st, End), false)
  }

  /**
   * A query, mutation or subscription after its keyword: the header, the
   * name, and `TargetIdx` when the name is the target.
   */
  function Operation(e: Env, s: PState, kind: byte): (r: Step)
    requires Bounded(e, s)
    ensures DefinitionOk(e, s, r) && r.st.fragLocs == s.fragLocs
    ensures HeaderAt(r.st.res, |s.res|, kind)
    ensures TargetNamed(e, MightIgnore(e.query, s.charNr).charNr) ==> r.st.targetIdx == |s.res|
    ensures !TargetNamed(e, MightIgnore(e.query, s.charNr).charNr) ==> r.st.targetIdx == s.targetIdx
  {
    var at := |s.res|;
    var s1 := Append(s, OperationHeader(kind));
    var p := MightIgnore(e.query, s1.charNr);
    var s2 := s1.(charNr := p.charNr);
    AppendKeeps(e, s, OperationHeader(kind));
    if p.eof then
      FailKeeps(e, s, s2, at, UnexpectedEnd);
      KeepsGrows(e, s, EOF(e, s2).st);
      EOF(e, s2)
    else
      OperationName(e, s, s2, kind)
  }

  /** The name of an operation whose header `s2` ends with, then the rest of it. */
  function OperationName(e: Env, s: PState, s2: PState, kind: byte): (r: Step)
    requires Keeps(e, s, s2, |s.res|) && s2.res == s.res + OperationHeader(kind) && s2.charNr < |e.query|
    ensures DefinitionOk(e, s, r) && r.st.fragLocs == s.fragLocs
    ensures HeaderAt(r.st.res, |s.res|, kind)
    ensures TargetNamed(e, s2.charNr) ==> r.st.targetIdx == |s.res|
    ensures !TargetNamed(e, s2.charNr) ==> r.st.targetIdx == s.targetIdx
  {
    var at := |s.res|;
    var nm := ParseAndWriteName(e, s2);
    KeepsTrans(e, s, s2, nm.st, at, |s2.res|);
    var r := OperationNamed(e, s, nm, at);
    HeaderKept(s2.res, nm.st.res, r.st.res, at, kind);
    assert TargetNamed(e, s2.charNr) <==> Chosen(e, nm, at) by {
      if e.hasTarget {
        NameChosen(e, s2, nm, at);
      }
    }
    r
  }

  /** There is a target and the query names it at `k`. */
  predicate TargetNamed(e: Env, k: nat)
  {
    e.hasTarget && NamesAt(e.query, k, e.target)
  }

  /** `res` holds the `0 o kind` that starts an operation record at `at`. */
  predicate HeaderAt(res: seq<byte>, at: int, kind: byte)
  {
    0 <= at && at + 3 <= |res| && res[at] == 0 && res[at + 1] == ActionOperator && res[at + 2] == kind
  }

  lemma HeaderKept(x: seq<byte>, y: seq<byte>, z: seq<byte>, at: nat, kind: byte)
    requires at + 5 <= |x| && x[at..at + 5] == OperationHeader(kind)
    requires at + 5 <= |y| && y[..at + 5] == x[..at + 5]
    requires at + 3 <= |z| && z[..at + 3] == y[..at + 3]
    ensures HeaderAt(z, at, kind)
  {
    assert z[at] == y[..at + 3][at] && z[at + 1] == y[..at + 3][at + 1] && z[at + 2] == y[..at + 3][at + 2];
    assert y[at] == x[..at + 5][at] && y[at + 1] == x[..at + 5][at + 1] && y[at + 2] == x[..at + 5][at + 2];
    assert x[at] == x[at..at + 5][0] && x[at + 1] == x[at..at + 5][1] && x[at + 2] == x[at..at + 5][2];
  }

  /** Sequences with a common prefix agree on every slice inside it. */
  lemma SliceOfPrefix(x: seq<byte>, y: seq<byte>, i: nat, n: nat)
    requires i <= n <= |x| && n <= |y| && x[..n] == y[..n]
    ensures x[i..n] == y[i..n]
  {
    assert x[i..n] == x[..n][i..];
    assert y[i..n] == y[..n][i..];
  }

  /** After the name of an operation whose header is at `at`: `TargetIdx`, then the arguments and the rest. */
  function OperationNamed(e: Env, s: PState, nm: CountStep, at: nat): (r: Step)
    requires at == |s.res| && at + 5 <= |nm.st.res| && Keeps(e, s, nm.st, at)
    requires nm.crit ==> |nm.st.errors| > |s.errors|
    ensures DefinitionOk(e, s, r) && r.st.fragLocs == s.fragLocs
    ensures at + 3 <= |r.st.res| && r.st.res[..at + 3] == nm.st.res[..at + 3]
    ensures Chosen(e, nm, at) ==> r.st.targetIdx == at
    ensures !Chosen(e, nm, at) ==> r.st.targetIdx == s.targetIdx
  {
    if nm.crit then
      KeepsGrows(e, s, nm.st);
      Step(nm.st, true)
    else
      if Chosen(e, nm, at) then
        var r := OperationArgs(e, nm.st.(targetIdx := at), at);
        KeepsLess(e, nm.st.(targetIdx := at), r.st, at + 3, at);
        GrowsThrough(e, s, nm.st, r.st, at);
        r
      else
        var r := OperationArgs(e, nm.st, at);
        KeepsLess(e, nm.st, r.st, at + 3, at);
        KeepsTrans(e, s, nm.st, r.st, at, at);
        KeepsGrows(e, s, r.st);
        r
  }

  /** The operation whose name `nm` is the one asked for: `TargetIdx` moves to its header. */
  predicate Chosen(e: Env, nm: CountStep, at: nat)
    requires at + 5 <= |nm.st.res|
  {
    !nm.crit && nm.n > 0 && e.hasTarget && nm.st.res[at + 5..] == e.target
  }

  /**
   * The query holds exactly `name` at `k`: a whole name, shorter than the
   * 255 bytes at which a name is an error, with more input after it.
   */
  predicate NamesAt(q: seq<byte>, k: nat, name: seq<byte>)
  {
    IsName(name) && |name| < 255 && k + |name| < |q|
    && q[k..k + |name|] == name && !IsNameChar(q[k + |name|])
  }

  /** The name `parseAndWriteName` copied after an operation header is the target exactly when the query names it. */
  lemma NameChosen(e: Env, s2: PState, nm: CountStep, at: nat)
    requires Bounded(e, s2) && |s2.res| == at + 5 && e.hasTarget && nm == ParseAndWriteName(e, s2)
    ensures Chosen(e, nm, at) <==> NamesAt(e.query, s2.charNr, e.target)
  {
    NameMatch(e, s2, nm, at);
  }

  lemma NameMatch(e: Env, s2: PState, nm: CountStep, at: nat)
    requires |s2.res| == at + 5 && e.hasTarget && at + 5 <= |nm.st.res|
    requires var k := s2.charNr; var q := e.query;
      nm.n <= 255 && (nm.crit <==> nm.n == 255 || k + nm.n >= |q|)
      && (nm.n > 0 ==> k + nm.n <= |q| && nm.st.res == s2.res + q[k..k + nm.n] && IsName(q[k..k + nm.n]))
      && (!nm.crit && nm.n > 0 ==> !IsNameChar(q[k + nm.n]))
      && (!nm.crit && nm.n == 0 ==> !IsNameStart(q[k]))
    ensures Chosen(e, nm, at) <==> NamesAt(e.query, s2.charNr, e.target)
  {
    var k := s2.charNr;
    if Chosen(e, nm, at) {
      assert nm.st.res[at + 5..] == e.query[k..k + nm.n];
    } else if NamesAt(e.query, k, e.target) {
      NameExact(e.query, k, nm.n, e.target);
    }
  }

  /**
   * When the query holds a whole name at `k` and the name-copying loop read
   * `n` bytes there (stopping at a non-name byte, at 255 bytes or at the
   * end of input), it read exactly that name.
   */
  lemma NameExact(q: seq<byte>, k: nat, n: nat, name: seq<byte>)
    requires NamesAt(q, k, name)
    requires n > 0 ==> k + n <= |q| && IsName(q[k..k + n])
    requires n == 0 ==> !IsNameStart(q[k])
    requires n > 0 && n < 255 && k + n < |q| ==> !IsNameChar(q[k + n])
    requires n <= 255
    ensures n == |name|
  {
    assert q[k] == name[0];
    if 0 < n < |name| {
      SliceIndex(q, k, k + |name|, k + n);
      assert false;
    }
  }

  lemma SliceIndex(q: seq<byte>, lo: int, hi: int, i: int)
    requires 0 <= lo <= i < hi <= |q|
    ensures q[lo..hi][i - lo] == q[i]
  {
  }

  /**
   * The optional `(...)` arguments of an operation whose header is at `at`:
   * the flag at `at + 3` becomes `t`, five bytes follow (`0` and the
   * uint32 length of the arguments), then the arguments.
   */
  function OperationArgs(e: Env, t: PState, at: nat): (r: Step)
    requires Bounded(e, t) && at + 5 <= |t.res|
    ensures Keeps(e, t, r.st, at + 3) && (r.crit ==> |r.st.errors| > |t.errors|)
    ensures !r.crit ==> t.charNr < r.st.charNr
    ensures ArgsFlagAt(r.st.res, at, OpensArgs(e.query, t.charNr), t.res[at + 3])
  {
    var p := MightIgnore(e.query, t.charNr);
    var t0 := t.(charNr := p.charNr);
    if p.eof then
      FailKeeps(e, t, t0, at + 3, UnexpectedEnd);
      EOF(e, t0)
    else if p.c == '(' as byte then
      var t2 := ArgsStart(t0, at);
      assert Keeps(e, t, t2, at + 3) by {
        assert t2.res[..at + 3] == t.res[..at + 3];
      }
      var a := ParseOperatorArguments(e, t2);
      var r := ArgsEnd(e, t, t2, a, at);
      assert ArgsFlagAt(r.st.res, at, true, t.res[at + 3]);
      r
    else
      var r := OperationDirectives(e, t0, at);
      FlagSurvives(t0.res, r.st.res, at, ParseDirectives(e, t0).n);
      assert ArgsFlagAt(r.st.res, at, false, t.res[at + 3]);
      r
  }

  /** The next significant byte after `c` opens the operation's arguments. */
  predicate OpensArgs(q: seq<byte>, c: nat)
    requires c <= |q| + 3
  {
    var p := MightIgnore(q, c);
    !p.eof && p.c == '(' as byte
  }

  /** The flag byte of an operation record: `t` when it has arguments, otherwise what it was. */
  predicate ArgsFlagAt(res: seq<byte>, at: int, opens: bool, before: byte)
  {
    0 <= at && at + 4 <= |res| && res[at + 3] == (if opens then True else before)
  }

  /**
   * The state `parseOperatorArguments` starts from: the flag at `at + 3`
   * set to `t`, the `0` and the four bytes of the length slot appended, and
   * `charNr` past the `(`.
   */
  function ArgsStart(t0: PState, at: nat): (t2: PState)
    requires at + 5 <= |t0.res|
    ensures t2.res == t0.res[at + 3 := True] + [0, 0, 0, 0, 0] && t2.charNr == t0.charNr + 1
    ensures t2.errors == t0.errors && t2.fragLocs == t0.fragLocs && t2.targetIdx == t0.targetIdx
  {
    Advance(Append(SetByte(t0, at + 3, True), [0, 0, 0, 0, 0]), 1)
  }

  /**
   * After the arguments of an operation: their length goes into the slot
   * before them, then the directives. The flag stays as it was set.
   */
  function ArgsEnd(e: Env, t: PState, t2: PState, a: Step, at: nat): (r: Step)
    requires Keeps(e, t, t2, at + 3) && at + 5 <= |t.res| && |t.res| + 5 <= |t2.res|
    requires t.charNr < t2.charNr
    requires StepOk(e, t2, a) && (!a.crit ==> a.st.errors == t2.errors && a.st.charNr > t2.charNr)
    ensures Keeps(e, t, r.st, at + 3) && (r.crit ==> |r.st.errors| > |t.errors|)
    ensures !r.crit ==> t.charNr < r.st.charNr
    ensures at + 4 <= |r.st.res| && r.st.res[at + 3] == t2.res[at + 3]
  {
    KeepsTrans(e, t, t2, a.st, at + 3, |t2.res|);
    KeptByte(e, t2, a.st, |t2.res|, at + 3);
    if a.crit then a
    else
      var endAt := |t2.res| - 4;
      var v := U32(|a.st.res| - |t2.res|);
      var t3 := a.st.(res := WithUint32At(a.st.res, endAt, v));
      WriteKeeps(e, t, a.st, at + 3, endAt, v);
      var r := OperationDirectives(e, t3, at);
      KeepsTrans(e, t, t3, r.st, at + 3, at + 3);
      FlagSurvives(t3.res, r.st.res, at, ParseDirectives(e, t3).n);
      r
  }

  /** Writing the directive count leaves the flag byte before it alone. */
  lemma FlagSurvives(t: seq<byte>, r: seq<byte>, at: nat, count: nat)
    requires DirectivesCounted(t, r, at, count)
    ensures r[at + 3] == t[at + 3]
  {
    assert r[at + 3] == r[..|t|][at + 3];
  }



  /**
   * The directives of an operation, their count at `at + 4`, and its
   * selection set. The count lands whether or not the directives parsed,
   * and nothing else of the record written so far changes.
   */
  function OperationDirectives(e: Env, t: PState, at: nat): (r: Step)
    requires Bounded(e, t) && at + 5 <= |t.res|
    ensures Keeps(e, t, r.st, at + 3) && (r.crit ==> |r.st.errors| > |t.errors|)
    ensures !r.crit ==> t.charNr < r.st.charNr
    ensures DirectivesCounted(t.res, r.st.res, at, ParseDirectives(e, t).n)
  {
    var d := ParseDirectives(e, t);
    KeepsLess(e, t, d.st, |t.res|, at + 3);
    DirectivesThen(e, t, d, at)
  }

  /** After the directives `d`: their count, then the selection set. */
  function DirectivesThen(e: Env, t: PState, d: CountStep, at: nat): (r: Step)
    requires Bounded(e, t) && at + 5 <= |t.res|
    requires CountOk(e, t, d) && d.n <= 255 && Keeps(e, t, d.st, at + 3)
    requires !d.crit ==> d.st.charNr < |e.query| && d.st.errors == t.errors
    ensures Keeps(e, t, r.st, at + 3) && (r.crit ==> |r.st.errors| > |t.errors|)
    ensures !r.crit ==> t.charNr < r.st.charNr
    ensures DirectivesCounted(t.res, r.st.res, at, d.n)
  {
    var t1 := SetByte(d.st, at + 4, d.n as byte);
    SetKeeps(e, t, d.st, at + 3, at + 4, d.n as byte);
    KeptBytesPrefix(e, t, d.st);
    if d.crit then
      CountWritten(t.res, d.st.res, t1.res, at, d.n);
      Step(t1, true)
    else if e.query[t1.charNr] != '{' as byte then
      FailKeeps(e, t, t1, at + 3, ExpectedSetOpener(e.query[t1.charNr]));
      CountWritten(t.res, d.st.res, t1.res, at, d.n);
      Fail(e, t1, ExpectedSetOpener(e.query[t1.charNr]))
    else
      var r := DefinitionBody(e, t1);
      KeepsTrans(e, t, t1, r.st, at + 3, |t1.res|);
      KeptBytesPrefix(e, t1, r.st);
      CountWritten(t.res, d.st.res, r.st.res, at, d.n);
      r
  }

  lemma KeptBytesPrefix(e: Env, s: PState, t: PState)
    requires Keeps(e, s, t, |s.res|)
    ensures t.res[..|s.res|] == s.res
  {
  }

  /**
   * What the directives leave in an operation record whose header is at
   * `at`: their count at `at + 4`, and every other byte that `t` held after
   * the header's kind unchanged (the argument flag and the argument length
   * among them).
   */
  predicate DirectivesCounted(t: seq<byte>, res: seq<byte>, at: int, count: nat)
  {
    0 <= at && at + 5 <= |t| <= |res| && count <= 255 && res[..|t|] == t[at + 4 := count as byte]
  }

  lemma CountWritten(t: seq<byte>, d: seq<byte>, r: seq<byte>, at: nat, count: nat)
    requires at + 5 <= |t| <= |d| && d[..|t|] == t && count <= 255
    requires r == d[at + 4 := count as byte] || (|d| <= |r| && r[..|d|] == d[at + 4 := count as byte])
    ensures DirectivesCounted(t, r, at, count)
  {
    var d1 := d[at + 4 := count as byte];
    assert r[..|d|] == d1 by {
      if r == d1 {
        assert r[..|d|] == r;
      }
    }
    assert r[..|t|] == r[..|d|][..|t|] == d1[..|t|];
  }



  /**
   * A fragment definition after `fragment`: its location (the index of its
   * `F`), `0 F`, the name, `0` and the type condition, then its selection set.
   */
  function Fragment(e: Env, s: PState): (r: Step)
    requires Bounded(e, s)
    ensures DefinitionOk(e, s, r) && (r.crit ==> |r.st.errors| > |s.errors|)
    ensures r.st.fragLocs == s.fragLocs + [|s.res| + 1] && FragmentAt(r.st.res, |s.res| + 1)
    ensures !r.crit ==> NamedAt(r.st.res, |s.res| + 1)
  {
    var s1 := Append(s.(fragLocs := s.fragLocs + [|s.res| + 1]), FragmentHeader);
    assert Grows(e, s, s1) by {
      assert s1.res[..|s.res|] == s.res;
      assert s1.errors[..|s.errors|] == s.errors;
      assert s1.fragLocs[..|s.fragLocs|] == s.fragLocs;
    }
    var p := MightIgnore(e.query, s1.charNr);
    var s2 := s1.(charNr := p.charNr);
    FragmentHeaderAt(s.res, s1.res);
    if p.eof then
      FailKeeps(e, s1, s2, |s1.res|, UnexpectedEnd);
      KeepsGrows(e, s1, EOF(e, s2).st);
      GrowsTrans(e, s, s1, EOF(e, s2).st);
      EOF(e, s2)
    else
      var nm := ParseAndWriteName(e, s2);
      var r := FragmentName(e, s2, nm);
      KeepsTrans(e, s1, s2, r.st, |s1.res|, |s1.res|);
      KeepsGrows(e, s1, r.st);
      GrowsTrans(e, s, s1, r.st);
      FragmentAtKept(s1.res, r.st.res, |s1.res|, |s.res| + 1);
      r
  }

  /** `res` holds the `0 F` of a fragment record, with the `F` at `loc`. */
  predicate FragmentAt(res: seq<byte>, loc: int)
  {
    1 <= loc < |res| && res[loc - 1] == 0 && res[loc] == ActionFragment
  }

  /** The byte after `loc` in `res` starts a name. */
  predicate NamedAt(res: seq<byte>, loc: int)
  {
    0 <= loc && loc + 1 < |res| && IsNameStart(res[loc + 1])
  }

  lemma FragmentHeaderAt(x: seq<byte>, y: seq<byte>)
    requires y == x + FragmentHeader
    ensures FragmentAt(y, |x| + 1)
  {
  }

  /** A fragment record inside a kept prefix stays where it is. */
  lemma FragmentAtKept(x: seq<byte>, y: seq<byte>, n: nat, loc: int)
    requires FragmentAt(x, loc) && loc < n <= |x| && n <= |y| && y[..n] == x[..n]
    ensures FragmentAt(y, loc)
  {
    assert y[loc] == y[..n][loc] && y[loc - 1] == y[..n][loc - 1];
  }

  /** After the name of a fragment: `on`, the type condition and the selection set. */
  function FragmentName(e: Env, s: PState, nm: CountStep): (r: Step)
    requires Bounded(e, s) && nm == ParseAndWriteName(e, s)
    ensures Keeps(e, s, r.st, |s.res|) && (r.crit ==> |r.st.errors| > |s.errors|)
    ensures !r.crit ==> s.charNr < r.st.charNr && |s.res| < |r.st.res| && IsNameStart(r.st.res[|s.res|])
  {
    if nm.crit then Step(nm.st, true)
    else if nm.n == 0 then
      FailKeeps(e, s, nm.st, |s.res|, ExpectedDefinitionName(e.query[nm.st.charNr]));
      Fail(e, nm.st, ExpectedDefinitionName(e.query[nm.st.charNr]))
    else
      var r := TypeCondition(e, nm.st);
      KeepsTrans(e, s, nm.st, r.st, |s.res|, |nm.st.res|);
      KeptByte(e, nm.st, r.st, |nm.st.res|, |s.res|);
      r
  }

  /**
   * `on Type` after a fragment's name, then the selection set. On success
   * the query held `on` and the record holds `0` and the type condition.
   */
  function TypeCondition(e: Env, t: PState): (r: Step)
    requires Bounded(e, t)
    ensures StepOk(e, t, r) && (!r.crit ==> t.charNr < r.st.charNr)
    ensures !r.crit ==> ConditionRead(e.query, t.charNr, r.st.res, |t.res|)
  {
    var p := MightIgnore(e.query, t.charNr).charNr;
    var k := OnKeyword(e, t, p);
    if k.crit then k
    else
      var t2 := t.(charNr := p + 2);
      assert k.st == t2 && |t2.res| == |t.res|;
      var r := TypeName(e, t, t2);
      if r.crit then r
      else
        ConditionReadIntro(e.query, t.charNr, p, MightIgnore(e.query, p + 2).charNr, r.st.res, |t.res|);
        r
  }

  /** The `on` keyword at `c`: on success the state moves past it and nothing else changes. */
  function OnKeyword(e: Env, t: PState, c: nat): (k: Step)
    requires t.charNr <= c <= |e.query| + 3
    ensures StepOk(e, t, k)
    ensures !k.crit ==> OnAt(e.query, c) && k.st == t.(charNr := c + 2)
  {
    var t0 := t.(charNr := c);
    if c >= |e.query| then EOF(e, t0)
    else if e.query[c] != 'o' as byte then Fail(e, t0, ExpectedOnKeyword(e.query[c]))
    else
      var t1 := Advance(t0, 1);
      if t1.charNr >= |e.query| then EOF(e, t1)
      else if e.query[t1.charNr] != 'n' as byte then Fail(e, t1, ExpectedOnKeyword(e.query[t1.charNr]))
      else Step(t.(charNr := c + 2), false)
  }

  /** The `on` and the name after it, put together as one reading of the query. */
  lemma ConditionReadIntro(q: seq<byte>, c: nat, p: nat, k: int, res: seq<byte>, at: int)
    requires c <= |q| + 3 && p == MightIgnore(q, c).charNr && OnAt(q, p)
    requires k == MightIgnore(q, p + 2).charNr && ConditionAt(q, k, res, at)
    ensures ConditionRead(q, c, res, at)
  {
  }

  /** The type condition of a fragment, with `charNr` after `on`, and the selection set. */
  function TypeName(e: Env, t: PState, t2: PState): (r: Step)
    requires Keeps(e, t, t2, |t.res|) && t2.errors == t.errors && t.charNr < t2.charNr
    ensures StepOk(e, t, r) && (!r.crit ==> t.charNr < r.st.charNr)
    ensures !r.crit ==> ConditionAt(e.query, MightIgnore(e.query, t2.charNr).charNr, r.st.res, |t2.res|)
  {
    var p2 := MightIgnore(e.query, t2.charNr);
    var t3 := t2.(charNr := p2.charNr);
    if p2.eof then
      FailKeeps(e, t, t3, |t.res|, UnexpectedEnd);
      EOF(e, t3)
    else
      AppendKeeps(e, t3, [0]);
      var nm := ParseAndWriteName(e, Append(t3, [0]));
      KeepsTrans(e, t, Append(t3, [0]), nm.st, |t.res|, |t.res| + 1);
      var r := ConditionName(e, t, nm);
      assert !r.crit ==> ConditionAt(e.query, p2.charNr, r.st.res, |t2.res|) by {
        NameCondition(e, Append(t3, [0]), t3.res, r.st.res);
      }
      r
  }

  /** A name read after the `0` of a type condition, kept by what follows, is the condition. */
  lemma NameCondition(e: Env, s: PState, base: seq<byte>, y: seq<byte>)
    requires Bounded(e, s) && s.res == base + [0]
    ensures var nm := ParseAndWriteName(e, s);
      !nm.crit && nm.n > 0 && |nm.st.res| <= |y| && y[..|nm.st.res|] == nm.st.res ==>
        ConditionAt(e.query, s.charNr, y, |base|)
  {
    var nm := ParseAndWriteName(e, s);
    NameLength(e, s);
    if !nm.crit && nm.n > 0 && |nm.st.res| <= |y| && y[..|nm.st.res|] == nm.st.res {
      ConditionKept(e.query, s.charNr, base, nm.st.res, y, nm.n);
    }
  }

  /** After the type condition's name `nm`: the selection set, or the error for a missing name or `{`. */
  function ConditionName(e: Env, t: PState, nm: CountStep): (r: Step)
    requires Keeps(e, t, nm.st, |t.res|) && t.charNr < nm.st.charNr
    requires nm.crit ==> |nm.st.errors| > |t.errors|
    requires !nm.crit ==> nm.st.charNr < |e.query|
    ensures StepOk(e, t, r) && (!r.crit ==> t.charNr < r.st.charNr)
    ensures !r.crit ==> !nm.crit && nm.n > 0 && |nm.st.res| <= |r.st.res| && r.st.res[..|nm.st.res|] == nm.st.res
  {
    if nm.crit then Step(nm.st, true)
    else if nm.n == 0 then
      FailKeeps(e, t, nm.st, |t.res|, ExpectedTypeTarget(e.query[nm.st.charNr]));
      Fail(e, nm.st, ExpectedTypeTarget(e.query[nm.st.charNr]))
    else
      var p3 := MightIgnore(e.query, nm.st.charNr);
      var t4 := nm.st.(charNr := p3.charNr);
      if p3.eof then
        FailKeeps(e, t, t4, |t.res|, UnexpectedEnd);
        EOF(e, t4)
      else if p3.c != '{' as byte then
        FailKeeps(e, t, t4, |t.res|, ExpectedSetOpener(p3.c));
        Fail(e, t4, ExpectedSetOpener(p3.c))
      else
        var r := DefinitionBody(e, t4);
        KeepsTrans(e, t, t4, r.st, |t.res|, |t4.res|);
        KeptBytesPrefix(e, t4, r.st);
        r
  }

  /** The query holds `on` at `i`. */
  predicate OnAt(q: seq<byte>, i: int)
  {
    0 <= i && i + 1 < |q| && q[i] == 'o' as byte && q[i + 1] == 'n' as byte
  }

  /**
   * The type condition read at `k` sits in `res` at `at`: a `0`, then the
   * whole name that starts at `k`, as many bytes as the name-copying loop
   * takes, ending before a byte that cannot continue a name.
   */
  predicate ConditionAt(q: seq<byte>, k: int, res: seq<byte>, at: int)
  {
    0 <= k < |q| && IsNameStart(q[k]) && 0 <= at < |res| && res[at] == 0
    && NameCopied(q, k, res, at + 1, NameRun(q, k, 1))
  }

  /** `res` holds the `n` bytes of the query from `k` at `from`, a name the copying loop ended before its 255-byte limit and the end of input. */
  predicate NameCopied(q: seq<byte>, k: int, res: seq<byte>, from: int, n: int)
  {
    0 <= k && 0 <= from && 0 <= n < 255 && k + n < |q| && from + n <= |res| && res[from..from + n] == q[k..k + n]
  }

  /** After a fragment's name, read from `c`: `on`, then the type condition written at `at`. */
  predicate ConditionRead(q: seq<byte>, c: nat, res: seq<byte>, at: int)
    requires c <= |q| + 3
  {
    var p := MightIgnore(q, c).charNr;
    OnAt(q, p) && ConditionAt(q, MightIgnore(q, p + 2).charNr, res, at)
  }

  /** How many bytes `parseAndWriteName` copies: the run the name-copying loop takes. */
  lemma NameLength(e: Env, s: PState)
    requires Bounded(e, s)
    ensures var nm := ParseAndWriteName(e, s);
      nm.n > 0 ==> s.charNr < |e.query| && IsNameStart(e.query[s.charNr]) && nm.n == NameRun(e.query, s.charNr, 1)
  {
  }

  lemma ConditionKept(q: seq<byte>, k: nat, base: seq<byte>, x: seq<byte>, y: seq<byte>, n: nat)
    requires k < |q| && IsNameStart(q[k]) && n == NameRun(q, k, 1) && n < 255 && k + n < |q|
    requires x == (base + [0]) + q[k..k + n]
    requires |x| <= |y| && y[..|x|] == x
    ensures ConditionAt(q, k, y, |base|)
  {
    var at := |base|;
    assert y[at] == y[..|x|][at] == x[at] == 0;
    NameKept(q, k, base, x, y, n);
  }

  lemma NameKept(q: seq<byte>, k: nat, base: seq<byte>, x: seq<byte>, y: seq<byte>, n: nat)
    requires n < 255 && k + n < |q|
    requires x == (base + [0]) + q[k..k + n]
    requires |x| <= |y| && y[..|x|] == x
    ensures NameCopied(q, k, y, |base| + 1, n)
  {
    var at := |base|;
    assert x[at + 1..] == q[k..k + n];
    assert y[at + 1..at + 1 + n] == y[..|x|][at + 1..];
  }
}
