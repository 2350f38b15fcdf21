/**
 * The parser against the reference encoder on documents without fields or
 * spreads (bytecode/bytecode_test.go:54-90): the bytecode the parser leaves
 * in `Res` is what `testOperator.toBytes` builds for the same operation.
 */
module Agreement {
  import opened Wrappers
  import opened Bytes
  import opened BytecodeInstructions
  import opened BytecodeLexer
  import opened BytecodeParser
  import opened BytecodeSelections
  import opened BytecodeDocument
  import opened BytecodeQuery
  import opened TestingFramework

  /** The operation `testOperator{}` describes: an unnamed query without arguments, directives or fields. */
  const EmptyOperator: TestOperator := TestOperator(0, [], [], [], [])

  /** The end of the input stops the parse. */
  lemma EndStops(e: Env, s: PState)
    requires s.charNr == |e.query|
    ensures Document(e, s) == s
  {
    assert MightIgnore(e.query, s.charNr) == Peek(0, true, s.charNr);
  }

  /** `{}` parses into the bytecode of `testOperator{}` without errors. */
  lemma EmptyQueryAgrees(h: seq<byte> -> u32)
    ensures var r := ParseQueryToBytecode(Str("{}"), None, h);
      r.errors == [] && r.res == OperatorToBytes(EmptyOperator)
  {
    var q := Str("{}");
    assert q == ['{' as byte, '}' as byte];
    var e := NewEnv(q, None, h);
    assert MightIgnore(q, 0) == Peek('{' as byte, false, 0);
    assert MightIgnore(q, 1) == Peek('}' as byte, false, 1);
    var s1 := Append(Start.(targetIdx := 0), OperationHeader(OperatorQuery));
    assert ParseSelectionSet(e, Advance(s1, 1)) == Step(Advance(s1, 2), false);
    var d := Append(Advance(s1, 2), End);
    assert ParseOperatorOrFragment(e, Start) == Step(d, false);
    EndStops(e, d);
    assert OperatorToBytes(EmptyOperator) == OperationHeader(OperatorQuery) + End;
  }

  /** `query {}`, `mutation {}` and `subscription {}`: the keyword sets the kind. */
  function KeywordQuery(i: nat): seq<byte>
    requires i < 3
  {
    OperationKeywords[i] + Str(" {}")
  }

  /** The operation `testOperator{kind: ...}` describes. */
  function KindOperator(i: nat): TestOperator
    requires i < 3
  {
    TestOperator(if i == 0 then 0 else OperationKind(i), [], [], [], [])
  }

  /** A keyword followed by ` {}` is the unnamed operation of that kind. */
  lemma KeywordAgrees(h: seq<byte> -> u32, i: nat)
    requires i < 3
    ensures var r := ParseQueryToBytecode(KeywordQuery(i), None, h);
      r.errors == [] && r.res == OperatorToBytes(KindOperator(i))
  {
    var q := KeywordQuery(i);
    var e := NewEnv(q, None, h);
    var d := KeywordOperation(e, i);
    EndStops(e, d);
    KindBytes(i);
  }

  /** The bytes `testOperator{kind: ...}` encodes to. */
  lemma KindBytes(i: nat)
    requires i < 3
    ensures OperatorToBytes(KindOperator(i)) == OperationHeader(OperationKind(i)) + End
  {
  }

  /** The first definition of `KeywordQuery(i)`: its header and `0 e`. */
  lemma KeywordOperation(e: Env, i: nat) returns (d: PState)
    requires i < 3 && e.query == KeywordQuery(i) && !e.hasTarget
    ensures ParseOperatorOrFragment(e, Start) == Step(d, false)
    ensures d.charNr == |e.query| && d.errors == [] && d.res == OperationHeader(OperationKind(i)) + End
  {
    var q := e.query;
    var n := |OperationKeywords[i]|;
    var kind := OperationKind(i);
    var s := Start.(targetIdx := 0, charNr := n);
    var s2 := Append(s, OperationHeader(kind)).(charNr := n + 1);
    d := Append(s2.(charNr := n + 3), End);
    assert ParseOperatorOrFragment(e, Start) == Operation(e, s, kind) by {
      assert q[..n] == OperationKeywords[i];
      KeywordStart(e, i);
    }
    assert Operation(e, s, kind) == Step(d, false) by {
      assert q[n..] == Str(" {}");
      UnnamedOperation(e, s, kind);
    }
  }

  /** The first definition of `KeywordQuery(i)` is an operation of kind `i` after its keyword. */
  lemma KeywordStart(e: Env, i: nat)
    requires i < 3 && |OperationKeywords[i]| <= |e.query| && e.query[..|OperationKeywords[i]|] == OperationKeywords[i]
    requires !e.hasTarget
    ensures ParseOperatorOrFragment(e, Start) == Operation(e, Start.(targetIdx := 0, charNr := |OperationKeywords[i]|), OperationKind(i))
  {
    var q := e.query;
    var k := |OperationKeywords[i]|;
    assert q[0] in {'q' as byte, 'm' as byte, 's' as byte} by {
      assert q[0] == q[..k][0] == OperationKeywords[i][0];
    }
    assert MightIgnore(q, 0) == Peek(q[0], false, 0);
    assert Matches(q, 0, OperationKeywords) == (i, k) by {
      KeywordMatch(q, i);
    }
  }

  /** An operation whose keyword is followed by ` {}`: its header and `0 e`. */
  lemma UnnamedOperation(e: Env, s: PState, kind: byte)
    requires s.charNr + 3 == |e.query| && e.query[s.charNr..] == Str(" {}") && !e.hasTarget
    ensures var s2 := Append(s, OperationHeader(kind)).(charNr := s.charNr + 1);
      Operation(e, s, kind) == Step(Append(s2.(charNr := s.charNr + 3), End), false)
  {
    var q := e.query;
    var n := s.charNr;
    assert q[n] == q[n..][0] == ' ' as byte && q[n + 1] == q[n..][1] == '{' as byte;
    var s2 := Append(s, OperationHeader(kind)).(charNr := n + 1);
    assert MightIgnore(q, n) == Peek('{' as byte, false, n + 1) by {
      assert MightIgnore(q, n + 1) == Peek('{' as byte, false, n + 1);
    }
    assert ParseAndWriteName(e, s2) == CountStep(s2, 0, false);
    assert q[n + 1..] == Str("{}") by {
      assert q[n + 1..] == q[n..][1..];
    }
    EmptyBody(e, s2, |s.res|);
  }

  /**
   * The rest of an operation when only ignored tokens and `{}` are left: no
   * arguments and no directives (the count byte stays 0), an empty selection
   * set, `0 e`.
   */
  lemma EmptyBody(e: Env, t: PState, at: nat)
    requires 2 <= |e.query| && t.charNr <= |e.query| - 2 && e.query[|e.query| - 2..] == Str("{}")
    requires MightIgnore(e.query, t.charNr) == Peek('{' as byte, false, |e.query| - 2)
    requires at + 5 <= |t.res| && t.res[at + 4] == 0
    ensures OperationArgs(e, t, at) == Step(Append(t.(charNr := |e.query|), End), false)
  {
    var q := e.query;
    var n := |q| - 2;
    var t0 := t.(charNr := n);
    assert q[n] == q[n..][0] == '{' as byte && q[n + 1] == q[n..][1] == '}' as byte;
    assert MightIgnore(q, n) == Peek('{' as byte, false, n);
    assert MightIgnore(q, n + 1) == Peek('}' as byte, false, n + 1);
    assert ParseDirectives(e, t0) == CountStep(t0, 0, false) by {
      assert DirectivesLoop(e, t0, 0) == CountStep(t0, 0, false);
    }
    assert SetByte(t0, at + 4, 0) == t0 by {
      assert t0.res[at + 4 := 0] == t0.res;
    }
    assert ParseSelectionSet(e, t0.(charNr := n + 1)) == Step(t0.(charNr := n + 2), false);
  }

  /** `query banana {}`: the name follows the operation header. */
  lemma NamedAgrees(h: seq<byte> -> u32)
    ensures var r := ParseQueryToBytecode(Str("query banana {}"), None, h);
      r.errors == [] && r.res == OperatorToBytes(TestOperator(0, Str("banana"), [], [], []))
  {
    var q := Str("query banana {}");
    var e := NewEnv(q, None, h);
    assert q[..5] == OperationKeywords[0];
    KeywordStart(e, 0);
    var s := Start.(targetIdx := 0, charNr := 5);
    var s3 := NamedOperation(e, s);
    EndStops(e, s3);
    assert OperatorToBytes(TestOperator(0, Str("banana"), [], [], [])) == OperationHeader(OperatorQuery) + Str("banana") + End;
  }

  /** After `query` in `query banana {}`: the header, the name and `0 e`. */
  lemma NamedOperation(e: Env, s: PState) returns (d: PState)
    requires e.query == Str("query banana {}") && !e.hasTarget && s.charNr == 5 && s.res == [] && s.errors == []
    ensures Operation(e, s, OperatorQuery) == Step(d, false)
    ensures d.charNr == |e.query| && d.errors == [] && d.res == OperationHeader(OperatorQuery) + Str("banana") + End
  {
    var nm := BananaHeader(e, s);
    BananaTail(e.query);
    EmptyBody(e, nm.st, 0);
    d := Append(nm.st.(charNr := 15), End);
  }

  /** After `query` in `query banana {}`: the header and the name, then the arguments' part. */
  lemma BananaHeader(e: Env, s: PState) returns (nm: CountStep)
    requires e.query == Str("query banana {}") && !e.hasTarget && s.charNr == 5 && s.res == [] && s.errors == []
    ensures nm.st.charNr == 12 && nm.st.errors == [] && nm.st.res == OperationHeader(OperatorQuery) + Str("banana")
    ensures Operation(e, s, OperatorQuery) == OperationArgs(e, nm.st, 0)
  {
    var q := e.query;
    var s2 := Append(s, OperationHeader(OperatorQuery)).(charNr := 6);
    assert MightIgnore(q, 5) == Peek('b' as byte, false, 6) by {
      assert MightIgnore(q, 6) == Peek('b' as byte, false, 6);
    }
    nm := BananaName(e, s2);
    assert Operation(e, s, OperatorQuery) == OperationName(e, s, s2, OperatorQuery);
    assert OperationName(e, s, s2, OperatorQuery) == OperationNamed(e, s, nm, 0);
  }

  /** After `banana` one space is skipped, then `{}` ends the input. */
  lemma BananaTail(q: seq<byte>)
    requires q == Str("query banana {}")
    ensures MightIgnore(q, 12) == Peek('{' as byte, false, 13) && q[13..] == Str("{}")
  {
    assert q[12] == ' ' as byte && q[13] == '{' as byte;
    assert MightIgnore(q, 13) == Peek('{' as byte, false, 13);
  }

  /** `parseAndWriteName` at the `b` of `query banana {}` copies the six bytes of `banana`. */
  lemma BananaName(e: Env, s2: PState) returns (nm: CountStep)
    requires e.query == Str("query banana {}") && s2.charNr == 6 && Bounded(e, s2)
    ensures nm == ParseAndWriteName(e, s2)
    ensures !nm.crit && nm.n == 6 && nm.st.charNr == 12 && nm.st.errors == s2.errors
    ensures nm.st.res == s2.res + Str("banana")
  {
    var q := e.query;
    nm := ParseAndWriteName(e, s2);
    assert q[6..12] == Str("banana") && q[12] == ' ' as byte;
    assert IsNameStart(q[6]) && !IsNameChar(q[12]);
    assert NameRun(q, 6, 6) == 6;
    assert NameRun(q, 6, 4) == 6 by {
      assert NameRun(q, 6, 5) == 6;
    }
    assert NameRun(q, 6, 2) == 6 by {
      assert NameRun(q, 6, 3) == 6;
    }
    assert NameRun(q, 6, 1) == 6;
  }

  /** `query <name> {}`. */
  function NamedQuery(name: seq<byte>): seq<byte>
  {
    Str("query ") + name + Str(" {}")
  }

  /** `query <name> {}` parses into the bytecode of `testOperator{name: ...}` for every name of fewer than 255 bytes. */
  lemma NameAgrees(h: seq<byte> -> u32, name: seq<byte>)
    requires IsName(name) && |name| < 255
    ensures var r := ParseQueryToBytecode(NamedQuery(name), None, h);
      r.errors == [] && r.res == OperatorToBytes(TestOperator(0, name, [], [], []))
  {
    var q := NamedQuery(name);
    var e := NewEnv(q, None, h);
    assert q[..5] == OperationKeywords[0];
    KeywordStart(e, 0);
    var s := Start.(targetIdx := 0, charNr := 5);
    var d := NamedQueryOperation(e, s, name);
    EndStops(e, d);
    assert OperatorToBytes(TestOperator(0, name, [], [], [])) == OperationHeader(OperatorQuery) + name + End;
  }

  /** After `query` in `query <name> {}`: the header, the name and `0 e`. */
  lemma NamedQueryOperation(e: Env, s: PState, name: seq<byte>) returns (d: PState)
    requires e.query == NamedQuery(name) && IsName(name) && |name| < 255
    requires !e.hasTarget && s.charNr == 5 && s.res == [] && s.errors == []
    ensures Operation(e, s, OperatorQuery) == Step(d, false)
    ensures d.charNr == |e.query| && d.errors == [] && d.res == OperationHeader(OperatorQuery) + name + End
  {
    var nm := NamedHeader(e, s, name);
    NamedTail(e.query, name);
    EmptyBody(e, nm.st, 0);
    d := Append(nm.st.(charNr := |e.query|), End);
  }

  /** After `query` in `query <name> {}`: the header and the name, then the arguments' part. */
  lemma NamedHeader(e: Env, s: PState, name: seq<byte>) returns (nm: CountStep)
    requires e.query == NamedQuery(name) && IsName(name) && |name| < 255
    requires !e.hasTarget && s.charNr == 5 && s.res == [] && s.errors == []
    ensures nm.st.charNr == 6 + |name| && nm.st.errors == [] && nm.st.res == OperationHeader(OperatorQuery) + name
    ensures Operation(e, s, OperatorQuery) == OperationArgs(e, nm.st, 0)
  {
    var q := e.query;
    var s2 := Append(s, OperationHeader(OperatorQuery)).(charNr := 6);
    assert q[5] == ' ' as byte && q[6] == name[0];
    assert MightIgnore(q, 5) == Peek(name[0], false, 6) by {
      assert MightIgnore(q, 6) == Peek(name[0], false, 6);
    }
    nm := NameCopied(e, s2, name);
    assert Operation(e, s, OperatorQuery) == OperationName(e, s, s2, OperatorQuery);
    assert OperationName(e, s, s2, OperatorQuery) == OperationNamed(e, s, nm, 0);
  }

  /** After the name one space is skipped, then `{}` ends the input. */
  lemma NamedTail(q: seq<byte>, name: seq<byte>)
    requires q == NamedQuery(name)
    ensures MightIgnore(q, 6 + |name|) == Peek('{' as byte, false, 7 + |name|) && q[7 + |name|..] == Str("{}")
  {
    var k := 6 + |name|;
    assert q[k] == ' ' as byte && q[k + 1] == '{' as byte;
    assert MightIgnore(q, k + 1) == Peek('{' as byte, false, k + 1);
  }

  /** `parseAndWriteName` at the start of the name copies all of it and stops at the space after it. */
  lemma NameCopied(e: Env, s2: PState, name: seq<byte>) returns (nm: CountStep)
    requires e.query == NamedQuery(name) && IsName(name) && |name| < 255 && s2.charNr == 6 && Bounded(e, s2)
    ensures nm == ParseAndWriteName(e, s2)
    ensures !nm.crit && nm.n == |name| && nm.st.charNr == 6 + |name| && nm.st.errors == s2.errors
    ensures nm.st.res == s2.res + name
  {
    var q := e.query;
    var n := |name|;
    nm := ParseAndWriteName(e, s2);
    assert q[6..6 + n] == name && q[6 + n] == ' ' as byte;
    assert IsNameStart(q[6]) && !IsNameChar(q[6 + n]);
    assert forall k :: 6 < k < 6 + n ==> IsNameChar(q[k]) by {
      forall k | 6 < k < 6 + n
        ensures IsNameChar(q[k])
      {
        assert q[k] == name[k - 6];
      }
    }
    assert nm.n > 0;
    NameBytes(q, 6, nm.n);
  }

  /** Every byte after the first of a name read at `from` can continue a name. */
  lemma NameBytes(q: seq<byte>, from: nat, m: nat)
    requires from + m <= |q| && IsName(q[from..from + m])
    ensures forall k :: from < k < from + m ==> IsNameChar(q[k])
  {
    forall k | from < k < from + m
      ensures IsNameChar(q[k])
    {
      assert q[k] == q[from..from + m][k - from];
    }
  }

  /** `matches` picks keyword `i` at the start of `KeywordQuery(i)`. */
  lemma KeywordMatch(q: seq<byte>, i: nat)
    requires i < 3 && |OperationKeywords[i]| <= |q| && q[..|OperationKeywords[i]|] == OperationKeywords[i]
    ensures Matches(q, 0, OperationKeywords) == (i, |OperationKeywords[i]|)
  {
    var keys := OperationKeywords;
    assert OccursAt(q, 0, keys[i]);
    assert q[0] == q[..|keys[i]|][0];
    forall j | 0 <= j < 3 && j != i
      ensures !OccursAt(q, 0, keys[j])
    {
      assert q[0] == keys[i][0] != keys[j][0];
    }
  }
}
