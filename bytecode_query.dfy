/**
 * `ParseQueryToBytecode` (bytecode/bytecode.go:24-41) and what a whole parse
 * promises its readers: where `TargetIdx` points, and where the fragment
 * locations point (the resolver looks fragments up by them).
 */
module BytecodeQuery {
  import opened Wrappers
  import opened Bytes
  import opened BytecodeInstructions
  import opened BytecodeLexer
  import opened BytecodeDocument

  // ---------------------------------------------------------------- the parse

  /** The fixed inputs of a parse: a target counts only when it is given and not empty. */
  function NewEnv(query: seq<byte>, target: Option<seq<byte>>, hasher: seq<byte> -> u32): (e: Env)
    ensures e.query == query && e.hasher == hasher
    ensures e.hasTarget <==> target.Some? && |target.value| > 0
    ensures e.hasTarget ==> e.target == target.value
  {
    Env(query, if target.Some? then target.value else [], target.Some? && |target.value| > 0, hasher)
  }

  /** The state a parse starts from: `Res`, `FragmentLocations` and `Errors` emptied, `TargetIdx` -1. */
  const Start: PState := PState([], [], 0, [], -1)

  /** The loop of `ParseQueryToBytecode`: one definition after the other until one says stop. */
  function Document(e: Env, s: PState): (r: PState)
    requires Bounded(e, s)
    ensures Grows(e, s, r)
    ensures r.charNr >= |e.query| || |r.errors| > |s.errors|
    decreases |e.query| + 3 - s.charNr
  {
    var d := ParseOperatorOrFragment(e, s);
    if d.crit then d.st
    else
      var r := Document(e, d.st);
      GrowsTrans(e, s, d.st, r);
      r
  }

  /**
   * `ParseQueryToBytecode`: the parse stops at the end of the input or
   * with an error; `TargetIdx` is -1 or the start of an operation record;
   * every fragment location is the `F` of a fragment record, and when
   * there is no error a fragment name follows it.
   */
  function ParseQueryToBytecode(query: seq<byte>, target: Option<seq<byte>>, hasher: seq<byte> -> u32): (r: PState)
    ensures r.charNr >= |query| || |r.errors| > 0
    ensures TargetOk(r) && FragsOk(r)
    ensures |r.errors| == 0 ==> NamedFrags(r)
  {
    var e := NewEnv(query, target, hasher);
    DocumentTarget(e, Start);
    DocumentFrags(e, Start);
    Document(e, Start)
  }

  // ---------------------------------------------------------------- TargetIdx

  /** `TargetIdx` is -1 or the index of the `0 o kind` that starts an operation record. */
  predicate TargetOk(st: PState)
  {
    st.targetIdx == -1
    || (0 <= st.targetIdx && st.targetIdx + 3 <= |st.res|
        && st.res[st.targetIdx] == 0 && st.res[st.targetIdx + 1] == ActionOperator
        && st.res[st.targetIdx + 2] in {OperatorQuery, OperatorMutation, OperatorSubscription})
  }

  lemma TargetKept(s: PState, t: PState)
    requires TargetOk(s) && t.targetIdx == s.targetIdx && |s.res| <= |t.res| && t.res[..|s.res|] == s.res
    ensures TargetOk(t)
  {
    if s.targetIdx != -1 {
      var k := s.targetIdx;
      assert t.res[k] == t.res[..|s.res|][k] && t.res[k + 1] == t.res[..|s.res|][k + 1];
      assert t.res[k + 2] == t.res[..|s.res|][k + 2];
    }
  }

  /** The definition at `n` is an operation: `{` or one of the operation keywords. */
  predicate StartsOperation(q: seq<byte>, n: nat)
    requires n <= |q| + 3
  {
    var p := MightIgnore(q, n);
    !p.eof && (p.c == '{' as byte || MatchIndex(q, p.charNr, OperationKeywords) != -1)
  }

  /**
   * The definition at `n` is an operation introduced by a keyword whose
   * name, as written in the query, is exactly `target`.
   */
  predicate NamesTarget(q: seq<byte>, n: nat, target: seq<byte>)
    requires n <= |q| + 3
  {
    var p := MightIgnore(q, n);
    !p.eof && p.c != '{' as byte
    && var m := MatchIndex(q, p.charNr, OperationKeywords);
       m != -1
       && p.charNr + |OperationKeywords[m]| <= |q| + 3
       && NamesAt(q, MightIgnore(q, p.charNr + |OperationKeywords[m]|).charNr, target)
  }

  /**
   * One definition and `TargetIdx` (bytecode.go:58-94): it stays on an
   * operation record; only an operation moves it, to its own start; without
   * a target every operation takes it; with a target exactly the operation
   * named by the target does.
   */
  lemma StepTarget(e: Env, s: PState, r: Step)
    requires Bounded(e, s) && TargetOk(s) && r == ParseOperatorOrFragment(e, s)
    ensures TargetOk(r.st) && (r.st.targetIdx == s.targetIdx || r.st.targetIdx == |s.res|)
    ensures !StartsOperation(e.query, s.charNr) ==> r.st.targetIdx == s.targetIdx
    ensures !e.hasTarget && StartsOperation(e.query, s.charNr) ==> r.st.targetIdx == |s.res|
  {
    var p := MightIgnore(e.query, s.charNr);
    var s0 := s.(charNr := p.charNr);
    if p.eof {
    } else if p.c == '{' as byte {
      if e.hasTarget {
        var s1 := Append(s0, OperationHeader(OperatorQuery));
        TargetHeader(s, s1, OperatorQuery);
        TargetKept(s1, r.st);
      } else {
        var s1 := Append(s0.(targetIdx := |s.res|), OperationHeader(OperatorQuery));
        TargetHeader(s, s1, OperatorQuery);
        TargetKept(s1, r.st);
      }
    } else {
      var m := Matches(e.query, p.charNr, OperationKeywords);
      if m.0 != -1 {
        if e.hasTarget {
          KeywordTarget(e, s, s0.(charNr := m.1), OperationKind(m.0), r);
        } else {
          KeywordTarget(e, s, s0.(charNr := m.1, targetIdx := |s.res|), OperationKind(m.0), r);
        }
      } else {
        var f := Matches(e.query, p.charNr, [Str("fragment")]);
        if f.0 != -1 {
          FragmentTarget(e, s0.(charNr := f.1), r);
        }
        TargetKept(s, r.st);
      }
    }
  }

  /** With a target, exactly the operation that the target names takes `TargetIdx` (bytecode.go:58-94). */
  lemma StepTargetNamed(e: Env, s: PState, r: Step)
    requires Bounded(e, s) && TargetOk(s) && r == ParseOperatorOrFragment(e, s)
    ensures e.hasTarget ==> (r.st.targetIdx == |s.res| <==> NamesTarget(e.query, s.charNr, e.target))
  {
    var p := MightIgnore(e.query, s.charNr);
    var s0 := s.(charNr := p.charNr);
    if !e.hasTarget {
    } else if p.eof || p.c == '{' as byte {
      assert !NamesTarget(e.query, s.charNr, e.target);
      StepTarget(e, s, r);
    } else {
      var m := Matches(e.query, p.charNr, OperationKeywords);
      if m.0 != -1 {
        assert r == Operation(e, s0.(charNr := m.1), OperationKind(m.0));
        KeywordTarget(e, s, s0.(charNr := m.1), OperationKind(m.0), r);
        KeywordNamesTarget(e.query, s.charNr, e.target, p, m);
      } else {
        assert !NamesTarget(e.query, s.charNr, e.target);
        StepTarget(e, s, r);
      }
    }
  }

  /** `NamesTarget` after a keyword, in terms of the position `matches` returns. */
  lemma KeywordNamesTarget(q: seq<byte>, n: nat, target: seq<byte>, p: Peek, m: (int, nat))
    requires n <= |q| + 3 && p == MightIgnore(q, n) && !p.eof && p.c != '{' as byte
    requires m == Matches(q, p.charNr, OperationKeywords) && m.0 != -1
    ensures NamesTarget(q, n, target) <==> NamesAt(q, MightIgnore(q, m.1).charNr, target)
  {
  }

  /** The keyword branch of `StepTarget`: an operation ends on an operation record and takes `TargetIdx` as `Operation` says. */
  lemma KeywordTarget(e: Env, s: PState, s1: PState, kind: byte, r: Step)
    requires TargetOk(s) && s1.res == s.res && Bounded(e, s1)
    requires s1.targetIdx == if e.hasTarget then s.targetIdx else |s.res|
    requires HeaderAt(r.st.res, |s.res|, kind) && kind in {OperatorQuery, OperatorMutation, OperatorSubscription}
    requires |s.res| <= |r.st.res| && r.st.res[..|s.res|] == s.res
    requires TargetNamed(e, MightIgnore(e.query, s1.charNr).charNr) ==> r.st.targetIdx == |s.res|
    requires !TargetNamed(e, MightIgnore(e.query, s1.charNr).charNr) ==> r.st.targetIdx == s1.targetIdx
    ensures TargetOk(r.st) && (r.st.targetIdx == s.targetIdx || r.st.targetIdx == |s.res|)
    ensures !e.hasTarget ==> r.st.targetIdx == |s.res|
    ensures e.hasTarget ==> (r.st.targetIdx == |s.res| <==> TargetNamed(e, MightIgnore(e.query, s1.charNr).charNr))
  {
    if r.st.targetIdx != |s.res| {
      TargetKept(s, r.st);
    }
  }

  /** Appending an operation header keeps `TargetIdx` right, whether it points at the new header or before it. */
  lemma TargetHeader(s: PState, s1: PState, kind: byte)
    requires TargetOk(s) && s1.res == s.res + OperationHeader(kind)
    requires kind in {OperatorQuery, OperatorMutation, OperatorSubscription}
    requires s1.targetIdx == s.targetIdx || s1.targetIdx == |s.res|
    ensures TargetOk(s1)
  {
    if s1.targetIdx == s.targetIdx {
      TargetKept(s, s1);
    }
  }

  /** A fragment definition leaves `TargetIdx` alone. */
  lemma FragmentTarget(e: Env, s: PState, r: Step)
    requires Bounded(e, s) && r == Fragment(e, s)
    ensures r.st.targetIdx == s.targetIdx
  {
  }

  /** `TargetOk` holds for every state a parse goes through. */
  lemma {:induction false} DocumentTarget(e: Env, s: PState)
    requires Bounded(e, s) && TargetOk(s)
    ensures TargetOk(Document(e, s))
    decreases |e.query| + 3 - s.charNr
  {
    var d := ParseOperatorOrFragment(e, s);
    StepTarget(e, s, d);
    StepTargetNamed(e, s, d);
    if !d.crit {
      DocumentTarget(e, d.st);
    }
  }

  /** The definition at `n` takes `TargetIdx`: with a target the operation it names, otherwise any operation. */
  predicate Takes(e: Env, n: nat)
  {
    n <= |e.query| + 3 && (if e.hasTarget then NamesTarget(e.query, n, e.target) else StartsOperation(e.query, n))
  }

  /**
   * Where each definition of a parse from `s` begins: its position in the
   * query and the length of `Res` then, which is where its record starts.
   */
  function Definitions(e: Env, s: PState): (r: seq<(nat, nat)>)
    requires Bounded(e, s)
    ensures |r| > 0 && r[0] == (s.charNr, |s.res|)
    decreases |e.query| + 3 - s.charNr
  {
    var d := ParseOperatorOrFragment(e, s);
    [(s.charNr, |s.res|)] + (if d.crit then [] else Definitions(e, d.st))
  }

  /** Going through `defs` in order from `TargetIdx` `cur`, every definition that takes `TargetIdx` sets it to its record. */
  function LastTaken(e: Env, defs: seq<(nat, nat)>, cur: int): int
  {
    if defs == [] then cur
    else LastTaken(e, defs[1..], if Takes(e, defs[0].0) then defs[0].1 else cur)
  }

  /**
   * Over a whole parse, `TargetIdx` ends at the record of the last
   * definition that takes it: without a target the last operation, with a
   * target the last operation the target names, and where none does, where it started.
   */
  lemma {:induction false} DocumentTargetIdx(e: Env, s: PState)
    requires Bounded(e, s) && TargetOk(s)
    ensures Document(e, s).targetIdx == LastTaken(e, Definitions(e, s), s.targetIdx)
    decreases |e.query| + 3 - s.charNr
  {
    var d := ParseOperatorOrFragment(e, s);
    StepTarget(e, s, d);
    StepTargetNamed(e, s, d);
    assert d.st.targetIdx == if Takes(e, s.charNr) then |s.res| else s.targetIdx;
    if !d.crit {
      DocumentTargetIdx(e, d.st);
      assert Definitions(e, s)[1..] == Definitions(e, d.st);
    }
  }

  /**
   * `TargetIdx` after `ParseQueryToBytecode` (bytecode.go:58-94): the record
   * of the last operation (without a target) or of the last operation whose
   * name is the target, and -1 when there is none.
   */
  lemma QueryTargetIdx(query: seq<byte>, target: Option<seq<byte>>, hasher: seq<byte> -> u32)
    ensures var e := NewEnv(query, target, hasher);
      ParseQueryToBytecode(query, target, hasher).targetIdx == LastTaken(e, Definitions(e, Start), -1)
  {
    DocumentTargetIdx(NewEnv(query, target, hasher), Start);
  }

  // ---------------------------------------------------------------- fragment locations

  /** Every fragment location is the index of the `F` of a `0 F` in `Res`. */
  predicate FragsOk(st: PState)
  {
    forall i :: 0 <= i < |st.fragLocs| ==> FragmentAt(st.res, st.fragLocs[i])
  }

  /** Every fragment location is followed by the first byte of a name. */
  predicate NamedFrags(st: PState)
  {
    forall i :: 0 <= i < |st.fragLocs| ==> NamedAt(st.res, st.fragLocs[i])
  }

  /** The definition at `n` is a fragment: it starts with `fragment` and with none of the operation keywords. */
  predicate StartsFragment(q: seq<byte>, n: nat)
    requires n <= |q| + 3
  {
    var p := MightIgnore(q, n);
    !p.eof && p.c != '{' as byte && MatchIndex(q, p.charNr, OperationKeywords) == -1
    && MatchIndex(q, p.charNr, [Str("fragment")]) != -1
  }

  /**
   * One definition and `FragmentLocations` (bytecode.go:58-94, 129-131):
   * exactly a fragment definition adds a location, the index of its `F`
   * (`len(Res)+1` when it starts); once its name is parsed a name byte
   * follows, and a fragment cut short by a critical result always comes
   * with an error.
   */
  lemma StepFrags(e: Env, s: PState, r: Step)
    requires Bounded(e, s) && r == ParseOperatorOrFragment(e, s)
    ensures r.st.fragLocs != s.fragLocs <==> StartsFragment(e.query, s.charNr)
    ensures r.st.fragLocs != s.fragLocs ==>
      r.st.fragLocs == s.fragLocs + [|s.res| + 1] && FragmentAt(r.st.res, |s.res| + 1)
      && (!r.crit ==> NamedAt(r.st.res, |s.res| + 1))
      && (r.crit ==> |r.st.errors| > |s.errors|)
  {
    var p := MightIgnore(e.query, s.charNr);
    var s0 := s.(charNr := p.charNr);
    if p.eof {
    } else if p.c == '{' as byte {
    } else {
      var m := Matches(e.query, p.charNr, OperationKeywords);
      if m.0 == -1 {
        assert r == FragmentOrFail(e, s0);
      }
    }
  }

  /** A step that keeps `Res` as a prefix and at most adds one fragment record keeps `FragsOk` and `NamedFrags`. */
  lemma FragsStep(s: PState, t: PState, named: bool)
    requires FragsOk(s) && |s.res| <= |t.res| && t.res[..|s.res|] == s.res
    requires t.fragLocs == s.fragLocs
      || (t.fragLocs == s.fragLocs + [|s.res| + 1] && FragmentAt(t.res, |s.res| + 1) && (named ==> NamedAt(t.res, |s.res| + 1)))
    ensures FragsOk(t)
    ensures named && NamedFrags(s) ==> NamedFrags(t)
  {
    forall i | 0 <= i < |s.fragLocs|
      ensures FragmentAt(t.res, t.fragLocs[i]) && (named && NamedFrags(s) ==> NamedAt(t.res, t.fragLocs[i]))
    {
      var loc := s.fragLocs[i];
      assert t.fragLocs[i] == loc;
      FragmentAtKept(s.res, t.res, |s.res|, loc);
      if named && NamedFrags(s) {
        assert t.res[loc + 1] == t.res[..|s.res|][loc + 1];
      }
    }
  }

  /**
   * Over a whole parse, every fragment location is the `F` of a fragment
   * record, and when the parse added no error a name follows each of them.
   */
  lemma {:induction false} DocumentFrags(e: Env, s: PState)
    requires Bounded(e, s) && FragsOk(s)
    ensures FragsOk(Document(e, s))
    ensures NamedFrags(s) && |Document(e, s).errors| == |s.errors| ==> NamedFrags(Document(e, s))
    decreases |e.query| + 3 - s.charNr
  {
    var d := ParseOperatorOrFragment(e, s);
    StepFrags(e, s, d);
    var clean := |Document(e, s).errors| == |s.errors|;
    if d.crit {
      FragsStep(s, d.st, clean);
    } else {
      FragsStep(s, d.st, true);
      DocumentFrags(e, d.st);
    }
  }
}
