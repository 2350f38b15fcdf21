/**
 * The structural part of the query-to-bytecode parser (bytecode/bytecode.go:24-608):
 * directives, type references, operation arguments, selection sets,
 * operations, fragments and the document loop.
 */
module BytecodeParser {
  import opened Bytes
  import opened Errors
  import opened Fnv
  import opened BytecodeInstructions
  import opened BytecodeLexer
  import opened BytecodeValues

  // ---------------------------------------------------------------- directives

  /**
   * `parseDirectives` (bytecode.go:299-340): the directives at one site
   * and how many there were. Each is `0 d f|t name`, with `t` when an
   * argument set follows it.
   */
  function ParseDirectives(e: Env, s: PState): (r: CountStep)
    requires Bounded(e, s)
    ensures CountOk(e, s, r) && r.n <= 255
    ensures !r.crit ==> r.st.charNr < |e.query| && e.query[r.st.charNr] != '@' as byte && r.st.errors == s.errors
  {
    DirectivesLoop(e, s, 0)
  }

  /**
   * The loop of `parseDirectives` once `amount` directives are read. It stops
   * right here with the too-many error exactly when a 256th directive starts.
   */
  function DirectivesLoop(e: Env, s: PState, amount: nat): (r: CountStep)
    requires Bounded(e, s) && amount <= 255
    ensures CountOk(e, s, r) && amount <= r.n <= 255
    ensures !r.crit ==> r.st.charNr < |e.query| && e.query[r.st.charNr] != '@' as byte && r.st.errors == s.errors
    ensures var p := MightIgnore(e.query, s.charNr);
      (!p.eof && p.c == '@' as byte && amount == 255)
      <==> r == CountStep(Err(e, s.(charNr := p.charNr), TooManyDirectives), 255, true)
    decreases |e.query| + 3 - s.charNr
  {
    var p := MightIgnore(e.query, s.charNr);
    var s0 := s.(charNr := p.charNr);
    if p.eof then CountStep(UnexpectedEOF(e, s0), amount, true)
    else if p.c != '@' as byte then CountStep(s0, amount, false)
    else if amount == 255 then CountStep(Err(e, s0, TooManyDirectives), amount, true)
    else
      var r := Directive(e, Advance(s0, 1));
      if r.crit then CountStep(r.st, amount + 1, true)
      else
        var rest := DirectivesLoop(e, r.st, amount + 1);
        KeepsTrans(e, s, r.st, rest.st, |s.res|, |r.st.res|);
        rest
  }

  /** One directive after its `@`: its name and optional argument set. */
  function Directive(e: Env, s: PState): (r: Step)
    requires 0 < s.charNr <= |e.query|
    ensures StepOk(e, s, r) && (!r.crit ==> r.st.charNr > s.charNr && r.st.errors == s.errors)
  {
    var s1 := Append(s, DirectiveHeader);
    AppendKeeps(e, s, DirectiveHeader);
    var nm := ParseAndWriteName(e, s1);
    KeepsTrans(e, s, s1, nm.st, |s.res|, |s1.res|);
    if nm.crit then Step(nm.st, true)
    else
      var r := DirectiveAfterName(e, nm.st, nm.n, |s1.res| - 1);
      KeepsTrans(e, s, nm.st, r.st, |s.res|, |s1.res| - 1);
      r
  }

  /** What follows a directive's name: an error when the name is empty, else the optional argument set. */
  function DirectiveAfterName(e: Env, s: PState, nameLen: nat, flagAt: nat): (r: Step)
    requires s.charNr < |e.query| && flagAt < |s.res|
    ensures Keeps(e, s, r.st, flagAt) && (r.crit ==> |r.st.errors| > |s.errors|)
    ensures !r.crit ==> nameLen > 0 && r.st.charNr >= s.charNr && r.st.errors == s.errors
  {
    if nameLen == 0 then
      FailKeeps(e, s, s, flagAt, ExpectedDirectiveName(e.query[s.charNr]));
      Fail(e, s, ExpectedDirectiveName(e.query[s.charNr]))
    else DirectiveArguments(e, s, flagAt)
  }

  /** The optional argument set after a directive name; `flagAt` is the flag that says there is one. */
  function DirectiveArguments(e: Env, s: PState, flagAt: nat): (r: Step)
    requires s.charNr < |e.query| && flagAt < |s.res|
    ensures Keeps(e, s, r.st, flagAt) && (r.crit ==> |r.st.errors| > |s.errors|)
    ensures !r.crit ==> r.st.charNr >= s.charNr && r.st.errors == s.errors
  {
    var p := MightIgnore(e.query, s.charNr);
    var s2 := s.(charNr := p.charNr);
    if p.eof then EOF(e, s2)
    else if p.c != '(' as byte then Step(s2, false)
    else
      var s3 := Advance(SetByte(s2, flagAt, True), 1);
      var a := ParseAssignmentSet(e, s3, ')' as byte);
      KeepsTrans(e, s3, s3, a.st, |s3.res|, |s3.res|);
      assert Keeps(e, s, s3, flagAt);
      KeepsTrans(e, s, s3, a.st, flagAt, |s3.res|);
      a
  }

  // ---------------------------------------------------------------- type references

  /**
   * The bytes of a type reference: `n name` or `N name` (non-null) for a
   * named type, `l T` or `L T` (non-null) for a list of `T`.
   */
  predicate IsTypeEncoding(b: seq<byte>)
  {
    |b| >= 2
    && ((b[0] in {'n' as byte, 'N' as byte} && IsName(b[1..]))
        || (b[0] in {'l' as byte, 'L' as byte} && IsTypeEncoding(b[1..])))
  }

  /**
   * `parseGraphqlTypeName` (bytecode.go:342-400), with `charNr` on its
   * first byte: `[T]` and `T` with an optional `!`, written as a type
   * encoding.
   */
  function ParseTypeName(e: Env, s: PState): (r: Step)
    requires s.charNr < |e.query|
    ensures StepOk(e, s, r)
    ensures !r.crit ==> r.st.errors == s.errors && r.st.charNr <= |e.query| && IsTypeEncoding(r.st.res[|s.res|..])
    decreases |e.query| - s.charNr, 1
  {
    if e.query[s.charNr] == '[' as byte then ListType(e, s) else NamedType(e, s)
  }

  /** A list type `[T]`: `l` and the encoding of `T`. */
  function ListType(e: Env, s: PState): (r: Step)
    requires s.charNr < |e.query|
    ensures StepOk(e, s, r)
    ensures !r.crit ==> r.st.errors == s.errors && r.st.charNr <= |e.query| && IsTypeEncoding(r.st.res[|s.res|..])
    decreases |e.query| - s.charNr, 0
  {
    var s1 := Advance(Append(s, ['l' as byte]), 1);
    AppendKeeps(e, s, ['l' as byte]);
    var p := MightIgnore(e.query, s1.charNr);
    var s2 := s1.(charNr := p.charNr);
    if p.eof then EOF(e, s2)
    else
      var inner := ParseTypeName(e, s2);
      KeepsTrans(e, s, s2, inner.st, |s.res|, |s2.res|);
      if inner.crit then inner
      else
        KeptByte(e, s2, inner.st, |s2.res|, |s.res|);
        ListTypeEnd(e, s, inner.st)
  }

  /** A named type: `n name`, and `N` instead of `n` when a `!` follows. */
  function NamedType(e: Env, s: PState): (r: Step)
    requires s.charNr < |e.query|
    ensures StepOk(e, s, r)
    ensures !r.crit ==> r.st.errors == s.errors && r.st.charNr <= |e.query| && IsTypeEncoding(r.st.res[|s.res|..])
  {
    var at := |s.res|;
    var s1 := Append(s, ['n' as byte]);
    AppendKeeps(e, s, ['n' as byte]);
    var nm := ParseAndWriteName(e, s1);
    KeepsTrans(e, s, s1, nm.st, |s.res|, |s1.res|);
    if nm.crit then Step(nm.st, true)
    else if nm.n == 0 then Fail(e, nm.st, InvalidTypenameChar(e.query[nm.st.charNr]))
    else
      assert nm.st.res == s.res + ['n' as byte] + e.query[s.charNr..s.charNr + nm.n];
      assert nm.st.res[at..] == ['n' as byte] + e.query[s.charNr..s.charNr + nm.n];
      assert IsTypeEncoding(nm.st.res[at..]) by {
        assert nm.st.res[at..][1..] == e.query[s.charNr..s.charNr + nm.n];
      }
      NonNull(e, s, nm.st, 'N' as byte)
  }

  /** An optional `!` after a type: it turns the type's mark at `|s.res|` into `mark`. */
  function NonNull(e: Env, s: PState, t: PState, mark: byte): (r: Step)
    requires Keeps(e, s, t, |s.res|) && t.errors == s.errors && t.charNr <= |e.query|
    requires |t.res| > |s.res| && IsTypeEncoding(t.res[|s.res|..])
    requires (t.res[|s.res|] in {'n' as byte, 'N' as byte} && mark in {'n' as byte, 'N' as byte})
          || (t.res[|s.res|] in {'l' as byte, 'L' as byte} && mark in {'l' as byte, 'L' as byte})
    ensures StepOk(e, s, r)
    ensures !r.crit ==> r.st.errors == s.errors && r.st.charNr <= |e.query| && IsTypeEncoding(r.st.res[|s.res|..])
  {
    var at := |s.res|;
    var p := MightIgnore(e.query, t.charNr);
    var t1 := t.(charNr := p.charNr);
    if p.eof then EOF(e, t1)
    else if p.c == '!' as byte then
      var t2 := SetByte(t1, at, mark);
      TypeMark(t1.res[at..], mark);
      assert t2.res[at..] == [mark] + t1.res[at..][1..];
      Step(Advance(t2, 1), false)
    else Step(t1, false)
  }

  /** Changing the non-null mark of a type encoding keeps it a type encoding. */
  lemma TypeMark(b: seq<byte>, m: byte)
    requires IsTypeEncoding(b)
    requires (b[0] in {'n' as byte, 'N' as byte} && m in {'n' as byte, 'N' as byte})
          || (b[0] in {'l' as byte, 'L' as byte} && m in {'l' as byte, 'L' as byte})
    ensures IsTypeEncoding([m] + b[1..])
  {
    assert ([m] + b[1..])[1..] == b[1..];
  }

  /** After the element type of a list type: `]` and an optional `!`. */
  function ListTypeEnd(e: Env, s: PState, t: PState): (r: Step)
    requires |t.res| > |s.res| + 1 && t.res[|s.res|] == 'l' as byte && IsTypeEncoding(t.res[|s.res| + 1..])
    requires Keeps(e, s, t, |s.res|) && t.errors == s.errors && t.charNr <= |e.query|
    ensures StepOk(e, s, r)
    ensures !r.crit ==> r.st.errors == s.errors && r.st.charNr <= |e.query| && IsTypeEncoding(r.st.res[|s.res|..])
  {
    var at := |s.res|;
    assert t.res[at..][1..] == t.res[at + 1..];
    assert IsTypeEncoding(t.res[at..]);
    var p := MightIgnore(e.query, t.charNr);
    var t1 := t.(charNr := p.charNr);
    if p.eof then EOF(e, t1)
    else if p.c != ']' as byte then Fail(e, t1, ExpectedListClosure(p.c))
    else
      var t2 := Advance(t1, 1);
      if t2.charNr >= |e.query| then EOF(e, t2)
      else if e.query[t2.charNr] == '!' as byte then
        var t3 := SetByte(t2, at, 'L' as byte);
        TypeMark(t2.res[at..], 'L' as byte);
        assert t3.res[at..] == ['L' as byte] + t2.res[at..][1..];
        Step(Advance(t3, 1), false)
      else Step(t2, false)
  }

  // ---------------------------------------------------------------- operation arguments

  /**
   * `parseOperatorArguments` (bytecode.go:200-232), with `charNr` after the
   * `(`: `0 A`, one record per `$name: Type [= default]`, `0 e`.
   */
  function ParseOperatorArguments(e: Env, s: PState): (r: Step)
    requires 0 < s.charNr <= |e.query|
    ensures StepOk(e, s, r) && (!r.crit ==> r.st.errors == s.errors && r.st.charNr > s.charNr)
  {
    var s1 := Append(s, OperationArgsHeader);
    AppendKeeps(e, s, OperationArgsHeader);
    var r := ArgumentsLoop(e, s1);
    KeepsTrans(e, s, s1, r.st, |s.res|, |s1.res|);
    r
  }

  /** What the loop of `parseOperatorArguments` promises: on success no new error, progress, and `0 e` last. */
  predicate ArgumentsDone(e: Env, s: PState, r: Step)
  {
    StepOk(e, s, r)
    && (!r.crit ==> r.st.errors == s.errors && r.st.charNr > s.charNr && |r.st.res| >= 2 && r.st.res[|r.st.res| - 2..] == End)
  }

  /** The loop of `parseOperatorArguments`. */
  function ArgumentsLoop(e: Env, s: PState): (r: Step)
    requires Bounded(e, s)
    ensures ArgumentsDone(e, s, r)
    decreases |e.query| + 3 - s.charNr
  {
    var p := AfterComma(e.query, MightIgnore(e.query, s.charNr));
    var s0 := s.(charNr := p.charNr);
    if p.eof then EOF(e, s0)
    else if p.c == ')' as byte then
      AppendKeeps(e, Advance(s0, 1), End);
      Step(Append(Advance(s0, 1), End), false)
    else if p.c != '$' as byte then Fail(e, s0, ExpectedDollar(p.c))
    else
      var a := ParseOperatorArgument(e, Advance(s0, 1));
      if a.crit then a
      else
        var rest := ArgumentsLoop(e, a.st);
        KeepsTrans(e, s, a.st, rest.st, |s.res|, |a.st.res|);
        rest
  }

  /** An operation argument record starts at `at` and ends with `res`; its length counts from the `a` on. */
  predicate ArgumentRecord(res: seq<byte>, at: nat)
  {
    at + 7 <= |res| && res[at] == 0 && res[at + 1] == ActionOperatorArg
    && DecodeLe32(res, at + 2) == U32(|res| - (at + 1))
  }

  /**
   * The record's body up to its default flag: after the header and length
   * slot at `at`, the argument's name, `0`, a type encoding of `tyLen`
   * bytes and `0`.
   */
  predicate ArgumentHead(res: seq<byte>, at: nat, name: seq<byte>, tyLen: nat)
  {
    var z := at + 6 + |name|;
    z + tyLen + 2 <= |res| && res[at + 6..z] == name && IsName(name) && res[z] == 0
    && IsTypeEncoding(res[z + 1..z + 1 + tyLen]) && res[z + 1 + tyLen] == 0
  }

  /** The whole body: the head and the default flag, `t` before a default value, or `f` as the record's last byte. */
  predicate ArgumentFields(res: seq<byte>, at: nat, name: seq<byte>, tyLen: nat)
  {
    var f := at + 8 + |name| + tyLen;
    ArgumentHead(res, at, name, tyLen) && f < |res| && (res[f] == True || (res[f] == False && |res| == f + 1))
  }

  /** The index of the first `0` at or after `i`, or `|res|`. */
  function ZeroFrom(res: seq<byte>, i: nat): (j: nat)
    requires i <= |res|
    ensures i <= j <= |res| && (j < |res| ==> res[j] == 0)
    ensures forall k :: i <= k < j ==> res[k] != 0
    decreases |res| - i
  {
    if i == |res| || res[i] == 0 then i else ZeroFrom(res, i + 1)
  }

  /** The name of the argument record at `at`, read back up to the `0` that ends it. */
  function ArgName(res: seq<byte>, at: nat): seq<byte>
    requires at + 6 <= |res|
  {
    res[at + 6..ZeroFrom(res, at + 6)]
  }

  /** The length of the record's type encoding, read back up to the `0` that ends it. */
  function ArgTypeLen(res: seq<byte>, at: nat): nat
    requires at + 6 <= |res|
  {
    var z := ZeroFrom(res, at + 6);
    if z < |res| then ZeroFrom(res, z + 1) - (z + 1) else 0
  }

  /** The record at `at` reads back as a name, a type encoding and a default flag. */
  predicate ArgumentLaidOut(res: seq<byte>, at: nat)
  {
    at + 6 <= |res| && ArgumentFields(res, at, ArgName(res, at), ArgTypeLen(res, at))
  }

  /** A type encoding holds no `0` byte. */
  lemma {:induction false} TypeEncodingNoZero(b: seq<byte>)
    requires IsTypeEncoding(b)
    ensures forall k :: 0 <= k < |b| ==> b[k] != 0
  {
    if b[0] in {'l' as byte, 'L' as byte} {
      TypeEncodingNoZero(b[1..]);
      assert forall k :: 1 <= k < |b| ==> b[k] == b[1..][k - 1];
    }
  }

  /** `ZeroFrom` finds the `0` after a run of non-zero bytes. */
  lemma {:induction false} ZeroAfterRun(res: seq<byte>, i: nat, j: nat)
    requires i <= j < |res| && res[j] == 0 && forall k :: i <= k < j ==> res[k] != 0
    ensures ZeroFrom(res, i) == j
    decreases j - i
  {
    if i < j {
      ZeroAfterRun(res, i + 1, j);
    }
  }

  /** The fields a record was written with are the ones it reads back as. */
  lemma FieldsReadBack(res: seq<byte>, at: nat, name: seq<byte>, tyLen: nat)
    requires ArgumentFields(res, at, name, tyLen)
    ensures ArgName(res, at) == name && ArgTypeLen(res, at) == tyLen && ArgumentLaidOut(res, at)
  {
    var z := at + 6 + |name|;
    assert forall k :: at + 6 <= k < z ==> res[k] == name[k - (at + 6)];
    ZeroAfterRun(res, at + 6, z);
    var ty := res[z + 1..z + 1 + tyLen];
    TypeEncodingNoZero(ty);
    assert forall k :: z + 1 <= k < z + 1 + tyLen ==> res[k] == ty[k - (z + 1)];
    ZeroAfterRun(res, z + 1, z + 1 + tyLen);
  }

  /** The head depends only on the bytes from the name to the flag. */
  lemma HeadKept(res: seq<byte>, res2: seq<byte>, at: nat, name: seq<byte>, tyLen: nat)
    requires ArgumentHead(res, at, name, tyLen) && at + 8 + |name| + tyLen <= |res2|
    requires forall i :: at + 6 <= i < at + 8 + |name| + tyLen ==> res2[i] == res[i]
    ensures ArgumentHead(res2, at, name, tyLen)
  {
    var z := at + 6 + |name|;
    assert res2[at + 6..z] == res[at + 6..z];
    assert res2[z + 1..z + 1 + tyLen] == res[z + 1..z + 1 + tyLen];
    assert res2[z] == res[z] && res2[z + 1 + tyLen] == res[z + 1 + tyLen];
  }

  /** Appending a type encoding and `0` after `name 0` completes the head. */
  lemma HeadAfterType(before: seq<byte>, after: seq<byte>, at: nat, name: seq<byte>)
    requires |before| == at + 7 + |name| && before[at + 6..at + 6 + |name|] == name && IsName(name) && before[at + 6 + |name|] == 0
    requires |after| >= |before| && (forall i :: 0 <= i < |before| ==> after[i] == before[i])
    requires IsTypeEncoding(after[|before|..])
    ensures ArgumentHead(after + [0], at, name, |after| - |before|)
  {
    var z := at + 6 + |name|;
    var r := after + [0];
    assert r[at + 6..z] == before[at + 6..z];
    assert r[z + 1..|after|] == after[|before|..];
  }

  /**
   * What `parseOperatorArgument` promises: on success it added no error,
   * moved on, and wrote a record that reads back as the name that follows
   * the `$`, a type encoding and a default flag.
   */
  predicate ArgumentStep(e: Env, s: PState, r: Step)
  {
    StepOk(e, s, r)
    && (!r.crit ==>
          r.st.errors == s.errors && r.st.charNr > s.charNr
          && ArgumentRecord(r.st.res, |s.res|) && ArgumentLaidOut(r.st.res, |s.res|)
          && var name := ArgName(r.st.res, |s.res|);
             s.charNr + |name| <= |e.query| && e.query[s.charNr..s.charNr + |name|] == name)
  }

  /** What the parts after the name promise: the record reads back with `name` as its name. */
  predicate ArgumentTail(e: Env, s: PState, r: Step, name: seq<byte>)
  {
    StepOk(e, s, r)
    && (!r.crit ==>
          r.st.errors == s.errors && r.st.charNr > s.charNr
          && ArgumentRecord(r.st.res, |s.res|) && ArgumentLaidOut(r.st.res, |s.res|) && ArgName(r.st.res, |s.res|) == name)
  }

  /**
   * `parseOperatorArgument` (bytecode.go:234-297), with `charNr` after the
   * `$`: `0 a len(4) name 0 type 0 t|f [default]`, the name being the one
   * that follows the `$`.
   */
  function ParseOperatorArgument(e: Env, s: PState): (r: Step)
    requires 0 < s.charNr <= |e.query|
    ensures ArgumentStep(e, s, r)
  {
    AppendKeeps(e, s, OperationArgHeader);
    ArgumentName(e, s, Append(s, OperationArgHeader))
  }

  /** The argument's name, read at `s.charNr` once `s1` has the record's header. */
  function ArgumentName(e: Env, s: PState, s1: PState): (r: Step)
    requires 0 < s.charNr <= |e.query| && s1 == Append(s, OperationArgHeader) && Keeps(e, s, s1, |s.res|)
    ensures ArgumentStep(e, s, r)
  {
    var at := |s.res|;
    var nm := ParseAndWriteName(e, s1);
    KeepsTrans(e, s, s1, nm.st, |s.res|, |s1.res|);
    KeptByte(e, s1, nm.st, |s1.res|, at);
    KeptByte(e, s1, nm.st, |s1.res|, at + 1);
    if nm.crit then Step(nm.st, true)
    else if nm.n == 0 then Fail(e, nm.st, ExpectedArgumentName(e.query[nm.st.charNr]))
    else
      var name := e.query[s.charNr..s.charNr + nm.n];
      NameAfterHeader(s.res, nm.st.res, name);
      ArgumentColon(e, s, nm.st, name)
  }

  /** The name written after the header is the record's tail. */
  lemma NameAfterHeader(before: seq<byte>, after: seq<byte>, name: seq<byte>)
    requires after == before + OperationArgHeader + name
    ensures |after| == |before| + 6 + |name| && after[|before| + 6..] == name
  {
  }

  /** The `:` after an argument's name; `t` has the name, read at `s.charNr`, last. */
  function ArgumentColon(e: Env, s: PState, t: PState, name: seq<byte>): (r: Step)
    requires Extends(e, s, t) && |t.res| == |s.res| + 6 + |name| && t.res[|s.res|] == 0 && t.res[|s.res| + 1] == ActionOperatorArg
    requires t.res[|s.res| + 6..] == name && IsName(name) && t.errors == s.errors && s.charNr < t.charNr < |e.query|
    requires s.charNr + |name| <= |e.query| && e.query[s.charNr..s.charNr + |name|] == name
    ensures ArgumentStep(e, s, r)
  {
    var p := MightIgnore(e.query, t.charNr);
    var t2 := t.(charNr := p.charNr);
    if p.eof then EOF(e, t2)
    else if p.c != ':' as byte then Fail(e, t2, ExpectedArgumentColon(e.query[t2.charNr]))
    else ArgumentType(e, s, Advance(t2, 1), name)
  }

  /** The `: Type` part of an argument, with `charNr` after the `:`; `t` has the argument's name last. */
  function ArgumentType(e: Env, s: PState, t: PState, name: seq<byte>): (r: Step)
    requires Extends(e, s, t) && |t.res| == |s.res| + 6 + |name| && t.res[|s.res|] == 0 && t.res[|s.res| + 1] == ActionOperatorArg
    requires t.res[|s.res| + 6..] == name && IsName(name)
    requires t.errors == s.errors && s.charNr < t.charNr <= |e.query|
    ensures ArgumentTail(e, s, r, name)
  {
    var at := |s.res|;
    var t1 := Append(t, [0]);
    AppendKeeps(e, t, [0]);
    KeepsTrans(e, s, t, t1, at, |t.res|);
    var p := MightIgnore(e.query, t1.charNr);
    var t2 := t1.(charNr := p.charNr);
    if p.eof then EOF(e, t2)
    else
      var ty := ParseTypeName(e, t2);
      KeepsTrans(e, s, t2, ty.st, at, |t2.res|);
      if ty.crit then ty
      else
        var tyLen := |ty.st.res| - |t2.res|;
        var t3 := Append(ty.st, [0]);
        AppendKeeps(e, ty.st, [0]);
        KeepsTrans(e, s, ty.st, t3, at, |ty.st.res|);
        KeptByte(e, t2, t3, |t2.res|, at);
        KeptByte(e, t2, t3, |t2.res|, at + 1);
        KeptBytes(e, t2, ty.st, |t2.res|);
        HeadAfterType(t2.res, ty.st.res, at, name);
        ArgumentDefault(e, s, t3, name, tyLen)
  }

  /** The `= value` default of an argument, or the flag saying there is none; `t` ends with the head. */
  function ArgumentDefault(e: Env, s: PState, t: PState, name: seq<byte>, tyLen: nat): (r: Step)
    requires Extends(e, s, t) && |t.res| == |s.res| + 8 + |name| + tyLen && t.res[|s.res|] == 0 && t.res[|s.res| + 1] == ActionOperatorArg
    requires ArgumentHead(t.res, |s.res|, name, tyLen)
    requires t.errors == s.errors && s.charNr < t.charNr <= |e.query|
    ensures ArgumentTail(e, s, r, name)
  {
    var at := |s.res|;
    var p := MightIgnore(e.query, t.charNr);
    var t0 := t.(charNr := p.charNr);
    if p.eof then EOF(e, t0)
    else if p.c == '=' as byte then
      var t1 := Advance(Append(t0, [True]), 1);
      AppendKeeps(e, t0, [True]);
      var p2 := MightIgnore(e.query, t1.charNr);
      var t2 := t1.(charNr := p2.charNr);
      if p2.eof then EOF(e, t2)
      else
        var v := ParseInputValue(e, t2);
        KeepsTrans(e, t, t2, v.st, |t.res|, |t2.res|);
        KeptByte(e, t, v.st, |t.res|, at);
        KeptByte(e, t, v.st, |t.res|, at + 1);
        KeptByte(e, t2, v.st, |t2.res|, |t.res|);
        KeepsTrans(e, s, t, v.st, at, |t.res|);
        if v.crit then v
        else
          KeptBytes(e, t, v.st, |t.res|);
          HeadKept(t.res, v.st.res, at, name, tyLen);
          DefaultEnd(e, s, v.st, name, tyLen)
    else
      var t1 := Append(t0, [False]);
      AppendKeeps(e, t0, [False]);
      KeptByte(e, t, t1, |t.res|, at);
      KeptByte(e, t, t1, |t.res|, at + 1);
      KeepsTrans(e, s, t, t1, at, |t.res|);
      HeadKept(t.res, t1.res, at, name, tyLen);
      DefaultEnd(e, s, t1, name, tyLen)
  }

  /** `writeUint32(uint32(endOfArgument-startOfArgument), argLengthLocation)`. */
  function DefaultEnd(e: Env, s: PState, t: PState, name: seq<byte>, tyLen: nat): (r: Step)
    requires Extends(e, s, t) && |t.res| >= |s.res| + 7 && t.res[|s.res|] == 0 && t.res[|s.res| + 1] == ActionOperatorArg
    requires ArgumentFields(t.res, |s.res|, name, tyLen)
    requires t.errors == s.errors && s.charNr < t.charNr
    ensures !r.crit && ArgumentTail(e, s, r, name)
  {
    var at := |s.res|;
    var t1 := WriteLengthAt(t, at + 2, at + 1);
    assert t1.res[..at] == t.res[..at];
    HeadKept(t.res, t1.res, at, name, tyLen);
    FieldsReadBack(t1.res, at, name, tyLen);
    Step(t1, false)
  }
}
