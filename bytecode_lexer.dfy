/**
 * The character-level part of the query-to-bytecode parser
 * (bytecode/bytecode.go): the parser state, ignored tokens, keyword matching,
 * error locations and names. Every function here models one `ParserCtx`
 * method as a function from the state before the call to the state after it.
 */
module BytecodeLexer {
  import opened Bytes
  import opened Errors
  import opened BytecodeInstructions

  /**
   * What stays fixed during one parse: the query text, the operation target
   * and the `Hasher` the caller gives the parser (FNV-1 in every caller).
   */
  datatype Env = Env(query: seq<byte>, target: seq<byte>, hasTarget: bool, hasher: seq<byte> -> u32)

  /** The fields of `ParserCtx` a parse updates. */
  datatype PState = PState(res: seq<byte>, fragLocs: seq<int>, charNr: nat, errors: seq<Error>, targetIdx: int)

  /** A state after a parsing method together with its `criticalErr` (or `stop`) result. */
  datatype Step = Step(st: PState, crit: bool)

  /** A state after a method that also returns a `uint8` count (name length, directive count). */
  datatype CountStep = CountStep(st: PState, n: nat, crit: bool)

  /** The result of `mightIgnoreNextTokens`: the next significant byte or end of input, and the new position. */
  datatype Peek = Peek(c: byte, eof: bool, charNr: nat)

  predicate IsLetter(c: byte) { 'a' as byte <= c <= 'z' as byte || 'A' as byte <= c <= 'Z' as byte }
  predicate IsDigit(c: byte) { '0' as byte <= c <= '9' as byte }
  predicate IsNameStart(c: byte) { IsLetter(c) || c == '_' as byte }
  predicate IsNameChar(c: byte) { IsNameStart(c) || IsDigit(c) }

  /** `isPunctuator` (bytecode.go:1096-1098). */
  predicate IsPunctuator(c: byte)
  {
    c in {'!' as byte, '$' as byte, '(' as byte, ')' as byte, '.' as byte, ':' as byte, '=' as byte,
          '@' as byte, '[' as byte, ']' as byte, '{' as byte, '|' as byte, '}' as byte}
  }

  /** The parse has not run past the end of the query by more than the `\u` escape can. */
  predicate Bounded(e: Env, s: PState) { s.charNr <= |e.query| + 3 }

  /**
   * What every parsing method keeps: it only moves forward, it never touches
   * bytes of `Res` or errors that were there when it was called, and it leaves
   * the fragment locations and the target index alone.
   */
  predicate Extends(e: Env, s: PState, t: PState)
  {
    Keeps(e, s, t, |s.res|)
  }

  /** `Extends`, except that only the first `keep` bytes of `Res` are promised to stay. */
  predicate Keeps(e: Env, s: PState, t: PState, keep: nat)
  {
    s.charNr <= t.charNr <= |e.query| + 3
    && keep <= |s.res| && keep <= |t.res| && t.res[..keep] == s.res[..keep]
    && |s.errors| <= |t.errors| && t.errors[..|s.errors|] == s.errors
    && t.fragLocs == s.fragLocs
    && t.targetIdx == s.targetIdx
  }

  /** `Extends`, and a critical result always comes with at least one new error. */
  predicate StepOk(e: Env, s: PState, r: Step)
  {
    Extends(e, s, r.st) && (r.crit ==> |r.st.errors| > |s.errors|)
  }

  predicate CountOk(e: Env, s: PState, r: CountStep)
  {
    Extends(e, s, r.st) && (r.crit ==> |r.st.errors| > |s.errors|)
  }

  /** Two calls in a row keep what both of them keep. */
  lemma KeepsTrans(e: Env, a: PState, b: PState, c: PState, k1: nat, k2: nat)
    requires Keeps(e, a, b, k1) && Keeps(e, b, c, k2)
    ensures Keeps(e, a, c, Min(k1, k2))
  {
    var k := Min(k1, k2);
    assert c.res[..k] == c.res[..k2][..k];
    assert b.res[..k] == b.res[..k2][..k] == b.res[..k1][..k];
    assert a.res[..k] == a.res[..k1][..k];
    assert c.errors[..|a.errors|] == c.errors[..|b.errors|][..|a.errors|];
  }

  // ---------------------------------------------------------------- state updates

  /** Appending keeps everything that was there. */
  lemma AppendKeeps(e: Env, s: PState, bytes: seq<byte>)
    requires Bounded(e, s)
    ensures Keeps(e, s, Append(s, bytes), |s.res|)
  {
    assert (s.res + bytes)[..|s.res|] == s.res;
  }

  /** A byte inside the kept prefix is unchanged. */
  lemma KeptByte(e: Env, s: PState, t: PState, keep: nat, i: nat)
    requires Keeps(e, s, t, keep) && i < keep
    ensures t.res[i] == s.res[i]
  {
    assert t.res[..keep][i] == s.res[..keep][i];
  }

  /** Every byte inside the kept prefix is unchanged. */
  lemma KeptBytes(e: Env, s: PState, t: PState, keep: nat)
    requires Keeps(e, s, t, keep)
    ensures forall i :: 0 <= i < keep ==> t.res[i] == s.res[i]
  {
    forall i | 0 <= i < keep
      ensures t.res[i] == s.res[i]
    {
      assert t.res[..keep][i] == s.res[..keep][i];
    }
  }

  /** Changing a byte at or after the kept prefix keeps it. */
  lemma SetKeeps(e: Env, s: PState, t: PState, keep: nat, at: nat, b: byte)
    requires Keeps(e, s, t, keep) && keep <= at < |t.res|
    ensures Keeps(e, s, t.(res := t.res[at := b]), keep)
  {
    assert t.res[at := b][..keep] == t.res[..keep];
  }

  /** Writing a 32-bit word at or after the kept prefix keeps it. */
  lemma WriteKeeps(e: Env, s: PState, t: PState, keep: nat, at: nat, v: u32)
    requires Keeps(e, s, t, keep) && keep <= at && at + 4 <= |t.res|
    ensures Keeps(e, s, t.(res := WithUint32At(t.res, at, v)), keep)
  {
    var r := WithUint32At(t.res, at, v);
    assert r[..keep] == r[..at][..keep];
    assert t.res[..keep] == t.res[..at][..keep];
  }

  /** Keeping a longer prefix keeps a shorter one. */
  lemma KeepsLess(e: Env, s: PState, t: PState, k1: nat, k2: nat)
    requires Keeps(e, s, t, k1) && k2 <= k1
    ensures Keeps(e, s, t, k2)
  {
    assert t.res[..k2] == t.res[..k1][..k2];
    assert s.res[..k2] == s.res[..k1][..k2];
  }

  function Append(s: PState, bytes: seq<byte>): (t: PState)
    ensures t.res == s.res + bytes && t.charNr == s.charNr && t.errors == s.errors
    ensures t.fragLocs == s.fragLocs && t.targetIdx == s.targetIdx
  {
    s.(res := s.res + bytes)
  }

  function SetByte(s: PState, at: nat, b: byte): (t: PState)
    requires at < |s.res|
    ensures |t.res| == |s.res| && t.res[at] == b && t.res[..at] == s.res[..at]
    ensures forall i :: 0 <= i < |s.res| && i != at ==> t.res[i] == s.res[i]
  {
    s.(res := s.res[at := b])
  }

  /** `writeUint32At(Res, at, v)`: the four bytes at `at` receive `v`. */
  function WriteWord(s: PState, at: nat, v: u32): (t: PState)
    requires at + 4 <= |s.res|
    ensures |t.res| == |s.res| && DecodeLe32(t.res, at) == v
    ensures forall i :: 0 <= i < |s.res| && !(at <= i < at + 4) ==> t.res[i] == s.res[i]
    ensures t.charNr == s.charNr && t.errors == s.errors && t.fragLocs == s.fragLocs && t.targetIdx == s.targetIdx
  {
    ReadAfterWrite(s.res, at, v);
    s.(res := WithUint32At(s.res, at, v))
  }

  /** `writeUint32(uint32(len(Res) - from), at)`: the slot at `at` receives the number of bytes from `from` on. */
  function WriteLengthAt(s: PState, at: nat, from: nat): (t: PState)
    requires at + 4 <= |s.res| && from <= |s.res|
    ensures |t.res| == |s.res| && DecodeLe32(t.res, at) == U32(|s.res| - from)
    ensures t.res[..at] == s.res[..at] && t.res[at + 4..] == s.res[at + 4..]
    ensures forall i :: 0 <= i < |s.res| && !(at <= i < at + 4) ==> t.res[i] == s.res[i]
    ensures t.charNr == s.charNr && t.errors == s.errors && t.fragLocs == s.fragLocs && t.targetIdx == s.targetIdx
  {
    ReadAfterWrite(s.res, at, U32(|s.res| - from));
    s.(res := WithUint32At(s.res, at, U32(|s.res| - from)))
  }

  /** The common case `writeUint32(uint32(len(Res) - start), start - 4)`: the slot just before `start`. */
  function WriteLength(s: PState, start: nat): (t: PState)
    requires 4 <= start <= |s.res|
    ensures |t.res| == |s.res| && DecodeLe32(t.res, start - 4) == U32(|s.res| - start)
    ensures t.res[..start - 4] == s.res[..start - 4] && t.res[start..] == s.res[start..]
    ensures t.charNr == s.charNr && t.errors == s.errors && t.fragLocs == s.fragLocs && t.targetIdx == s.targetIdx
  {
    WriteLengthAt(s, start - 4, start)
  }

  function Advance(s: PState, n: nat): PState
  {
    s.(charNr := s.charNr + n)
  }

  // ---------------------------------------------------------------- error locations

  /** Byte `i` ends a line: a CR, or an LF that does not complete a CR LF pair. */
  predicate IsLineBreak(q: seq<byte>, i: nat)
    requires i < |q|
  {
    q[i] == '\r' as byte || (q[i] == '\n' as byte && !(i > 0 && q[i - 1] == '\r' as byte))
  }

  /** The number of line breaks among the first `k` bytes. */
  function LinesBefore(q: seq<byte>, k: nat): nat
    requires k <= |q|
  {
    if k == 0 then 0 else LinesBefore(q, k - 1) + (if IsLineBreak(q, k - 1) then 1 else 0)
  }

  /** The number of bytes among the first `k` after the last CR or LF. */
  function ColumnBefore(q: seq<byte>, k: nat): nat
    requires k <= |q|
  {
    if k == 0 then 0
    else if q[k - 1] == '\r' as byte || q[k - 1] == '\n' as byte then 0
    else ColumnBefore(q, k - 1) + 1
  }

  function Min(a: nat, b: nat): nat { if a <= b then a else b }

  /** `err(msg)` (bytecode.go:1233-1263): record the message at the 1-based line and the column of `charNr`. */
  function Err(e: Env, s: PState, msg: ParseMsg): (t: PState)
    ensures t == s.(errors := s.errors + [ErrorWLocation(msg, 1 + LinesBefore(e.query, Min(s.charNr, |e.query|)),
                                                                ColumnBefore(e.query, Min(s.charNr, |e.query|)))])
  {
    var k := Min(s.charNr, |e.query|);
    s.(errors := s.errors + [ErrorWLocation(msg, 1 + LinesBefore(e.query, k), ColumnBefore(e.query, k))])
  }

  /** `unexpectedEOF` (bytecode.go:1265-1268). */
  function UnexpectedEOF(e: Env, s: PState): PState
  {
    Err(e, s, UnexpectedEnd)
  }

  /** A critical step ending in `unexpectedEOF` at `s`. */
  function EOF(e: Env, s: PState): (r: Step)
    ensures r.crit && r.st.charNr == s.charNr && |r.st.errors| == |s.errors| + 1
  {
    Step(UnexpectedEOF(e, s), true)
  }

  /** Recording an error keeps what the state before it kept, and adds one error. */
  lemma FailKeeps(e: Env, s: PState, t: PState, keep: nat, msg: ParseMsg)
    requires Keeps(e, s, t, keep)
    ensures Keeps(e, s, Fail(e, t, msg).st, keep) && |Fail(e, t, msg).st.errors| > |s.errors|
    ensures Keeps(e, s, EOF(e, t).st, keep) && |EOF(e, t).st.errors| > |s.errors|
  {
    assert Fail(e, t, msg).st.errors[..|s.errors|] == t.errors[..|s.errors|];
    assert EOF(e, t).st.errors[..|s.errors|] == t.errors[..|s.errors|];
  }

  /** A critical step ending in `err(msg)` at `s`. */
  function Fail(e: Env, s: PState, msg: ParseMsg): (r: Step)
    ensures r.crit && r.st.charNr == s.charNr && |r.st.errors| == |s.errors| + 1
  {
    Step(Err(e, s, msg), true)
  }

  // ---------------------------------------------------------------- ignored tokens

  /** `isLineTerminator` (bytecode.go:1106-1119): on CR LF it steps onto the LF. */
  function LineTerminator(q: seq<byte>, n: nat): (r: (bool, nat))
    requires n < |q|
    ensures r.1 == n || (r.0 && r.1 == n + 1 && r.1 < |q|)
  {
    if q[n] == '\n' as byte then (true, n)
    else if q[n] == '\r' as byte then (true, if n + 1 < |q| && q[n + 1] == '\n' as byte then n + 1 else n)
    else (false, n)
  }

  /** `parseComment` (bytecode.go:1133-1143): stop at the end or on the line terminator. */
  function ParseComment(q: seq<byte>, n: nat): (m: nat)
    requires n <= |q|
    ensures n <= m <= |q|
    decreases |q| - n
  {
    if n >= |q| then n
    else
      var (isLT, n1) := LineTerminator(q, n);
      if isLT then n1 else ParseComment(q, n + 1)
  }

  /** `isIgnoredToken` (bytecode.go:1101-1104) of the byte at `n`; a comment or CR LF moves the position. */
  function IgnoredToken(q: seq<byte>, n: nat): (r: (bool, nat))
    requires n < |q|
    ensures n <= r.1 <= |q| && (!r.0 ==> r.1 == n)
  {
    var c := q[n];
    if c == ' ' as byte || c == '\t' as byte then (true, n)
    else
      var (isLT, n1) := LineTerminator(q, n);
      if isLT then (true, n1)
      else if c == '#' as byte then (true, ParseComment(q, n))
      else (c == 0, n)
  }

  /** `mightIgnoreNextTokens` (bytecode.go:1080-1094). */
  function MightIgnore(q: seq<byte>, n: nat): (p: Peek)
    requires n <= |q| + 3
    ensures n <= p.charNr <= |q| + 3
    ensures p.eof <==> p.charNr >= |q|
    ensures p.eof ==> p.c == 0 && (p.charNr == n || p.charNr <= |q| + 1)
    ensures !p.eof ==> p.c == q[p.charNr] && !IgnoredToken(q, p.charNr).0
    decreases |q| + 3 - n
  {
    if n >= |q| then Peek(0, true, n)
    else
      var (ignored, n1) := IgnoredToken(q, n);
      if !ignored then Peek(q[n], false, n) else MightIgnore(q, n1 + 1)
  }

  /** The position after the ignored tokens that follow an optional `,` (the list, argument and selection loops). */
  function AfterComma(q: seq<byte>, p: Peek): (p2: Peek)
    requires p.charNr <= |q| + 3 && (p.eof <==> p.charNr >= |q|)
    ensures p.charNr <= p2.charNr <= |q| + 3
    ensures p2.eof <==> p2.charNr >= |q|
    ensures !p.eof && p.c != ',' as byte ==> p2 == p
    ensures !p.eof && p.c == ',' as byte && !p2.eof ==> p2.c == q[p2.charNr] && p.charNr < p2.charNr
  {
    if !p.eof && p.c == ',' as byte then MightIgnore(q, p.charNr + 1) else p
  }

  /**
   * The test that ends a number: `isPunctuator(c) || isIgnoredToken(c) || c == ','`,
   * including the side effect of `isIgnoredToken` on the position.
   */
  function EndOfNumber(q: seq<byte>, n: nat): (r: (bool, nat))
    requires n < |q|
    ensures n <= r.1 <= |q| && (!r.0 ==> r.1 == n)
  {
    var c := q[n];
    if IsPunctuator(c) then (true, n)
    else
      var (ignored, n1) := IgnoredToken(q, n);
      if ignored then (true, n1) else (c == ',' as byte, n)
  }

  // ---------------------------------------------------------------- keywords

  /** `key` occurs in `q` at `start`. */
  predicate OccursAt(q: seq<byte>, start: nat, key: seq<byte>)
  {
    start + |key| <= |q| && q[start..start + |key|] == key
  }

  /** Key `i` is preferred over key `j`: it is shorter, or as long and listed first. */
  predicate Preferred(keys: seq<seq<byte>>, i: nat, j: nat)
    requires i < |keys| && j < |keys|
  {
    |keys[i]| < |keys[j]| || (|keys[i]| == |keys[j]| && i <= j)
  }

  function BestMatch(q: seq<byte>, start: nat, keys: seq<seq<byte>>, i: nat, best: int): (r: int)
    requires i <= |keys| && -1 <= best < i
    requires best >= 0 ==> OccursAt(q, start, keys[best])
    requires best >= 0 ==> forall j :: 0 <= j < i && OccursAt(q, start, keys[j]) ==> Preferred(keys, best, j)
    requires best == -1 ==> forall j :: 0 <= j < i ==> !OccursAt(q, start, keys[j])
    ensures -1 <= r < |keys|
    ensures r == -1 <==> forall j :: 0 <= j < |keys| ==> !OccursAt(q, start, keys[j])
    ensures r >= 0 ==> OccursAt(q, start, keys[r]) && forall j :: 0 <= j < |keys| && OccursAt(q, start, keys[j]) ==> Preferred(keys, r, j)
    decreases |keys| - i
  {
    if i == |keys| then best
    else if OccursAt(q, start, keys[i]) && (best == -1 || |keys[i]| < |keys[best]|) then
      assert forall j :: 0 <= j < i + 1 && OccursAt(q, start, keys[j]) ==> Preferred(keys, i, j) by {
        forall j | 0 <= j < i + 1 && OccursAt(q, start, keys[j]) ensures Preferred(keys, i, j) {
          if j < i { assert Preferred(keys, best, j); }
        }
      }
      BestMatch(q, start, keys, i + 1, i)
    else BestMatch(q, start, keys, i + 1, best)
  }

  /**
   * The result of `matches(keys...)` (bytecode.go:1164-1221) at `start`: the
   * index of the shortest key (the first listed among equally short ones)
   * that the input continues with, or -1 when none does.
   */
  function MatchIndex(q: seq<byte>, start: nat, keys: seq<seq<byte>>): (r: int)
    ensures -1 <= r < |keys|
    ensures r == -1 <==> forall j :: 0 <= j < |keys| ==> !OccursAt(q, start, keys[j])
    ensures r >= 0 ==> OccursAt(q, start, keys[r]) && forall j :: 0 <= j < |keys| && OccursAt(q, start, keys[j]) ==> Preferred(keys, r, j)
  {
    BestMatch(q, start, keys, 0, -1)
  }

  /** `matches`: the index and the position after the matched key, or -1 and the position unchanged. */
  function Matches(q: seq<byte>, start: nat, keys: seq<seq<byte>>): (r: (int, nat))
    ensures r.0 == MatchIndex(q, start, keys)
    ensures r.0 == -1 ==> r.1 == start
    ensures r.0 >= 0 ==> r.1 == start + |keys[r.0]| <= |q|
  {
    var m := MatchIndex(q, start, keys);
    if m == -1 then (-1, start) else (m, start + |keys[m]|)
  }

  /** `matchesWord` (bytecode.go:1145-1162): a match that is not followed by a name byte. */
  function MatchesWord(q: seq<byte>, start: nat, keys: seq<seq<byte>>): (r: (int, nat))
    ensures -1 <= r.0 < |keys|
    ensures r.0 == -1 ==> r.1 == start
    ensures r.0 >= 0 ==> OccursAt(q, start, keys[r.0]) && r.1 == start + |keys[r.0]| && (r.1 < |q| ==> !IsNameChar(q[r.1]))
  {
    var (m, n) := Matches(q, start, keys);
    if m == -1 then (-1, start)
    else if n < |q| && IsNameChar(q[n]) then (-1, start)
    else (m, n)
  }

  // ---------------------------------------------------------------- names

  /** A GraphQL name: `[A-Za-z_][A-Za-z0-9_]*`. */
  predicate IsName(name: seq<byte>)
  {
    |name| > 0 && IsNameStart(name[0]) && forall i :: 1 <= i < |name| ==> IsNameChar(name[i])
  }

  /**
   * The number of name bytes the loop of `parseAndWriteName` copies when `n`
   * bytes from `from` are already copied: it stops at 255 bytes, at the end
   * of input or before the first byte that cannot continue a name.
   */
  function NameRun(q: seq<byte>, from: nat, n: nat): (m: nat)
    requires 1 <= n <= 255 && from + n <= |q|
    ensures n <= m <= 255 && from + m <= |q|
    ensures forall k :: from + n <= k < from + m ==> IsNameChar(q[k])
    ensures m < 255 && from + m < |q| ==> !IsNameChar(q[from + m])
    decreases 255 - n
  {
    if n == 255 || from + n >= |q| || !IsNameChar(q[from + n]) then n else NameRun(q, from, n + 1)
  }

  /**
   * `parseAndWriteName` (bytecode.go:1270-1302): copy the name at `charNr`
   * to `Res`. A byte that cannot start a name gives length 0 and consumes
   * nothing; the end of input, and reaching 255 bytes, are errors.
   */
  function ParseAndWriteName(e: Env, s: PState): (r: CountStep)
    requires Bounded(e, s)
    ensures CountOk(e, s, r) && r.n <= 255
    ensures r.st.charNr == s.charNr + r.n
    ensures r.n == 0 ==> r.st.res == s.res
    ensures r.n > 0 ==> s.charNr + r.n <= |e.query| && r.st.res == s.res + e.query[s.charNr..s.charNr + r.n]
    ensures r.n > 0 ==> IsName(e.query[s.charNr..s.charNr + r.n])
    ensures !r.crit ==> r.st.charNr < |e.query| && r.st.errors == s.errors
    ensures !r.crit && r.n > 0 ==> !IsNameChar(e.query[r.st.charNr])
    ensures !r.crit && r.n == 0 ==> !IsNameStart(e.query[s.charNr])
    ensures r.crit <==> r.n == 255 || s.charNr + r.n >= |e.query|
  {
    if s.charNr >= |e.query| then CountStep(UnexpectedEOF(e, s), 0, true)
    else if !IsNameStart(e.query[s.charNr]) then CountStep(s, 0, false)
    else WriteName(e, s, NameRun(e.query, s.charNr, 1))
  }

  /** The outcome of `parseAndWriteName` once its loop has copied `n` bytes. */
  function WriteName(e: Env, s: PState, n: nat): (r: CountStep)
    requires 1 <= n <= 255 && s.charNr + n <= |e.query|
    requires IsNameStart(e.query[s.charNr])
    requires forall k :: s.charNr + 1 <= k < s.charNr + n ==> IsNameChar(e.query[k])
    requires n < 255 && s.charNr + n < |e.query| ==> !IsNameChar(e.query[s.charNr + n])
    ensures CountOk(e, s, r) && r.n == n
    ensures r.st.charNr == s.charNr + n
    ensures r.st.res == s.res + e.query[s.charNr..s.charNr + n]
    ensures IsName(e.query[s.charNr..s.charNr + n])
    ensures !r.crit ==> r.st.charNr < |e.query| && r.st.errors == s.errors && !IsNameChar(e.query[r.st.charNr])
    ensures r.crit <==> n == 255 || s.charNr + n >= |e.query|
  {
    var s1 := Advance(Append(s, e.query[s.charNr..s.charNr + n]), n);
    assert s1.res[..|s.res|] == s.res;
    if n == 255 then CountStep(Err(e, s1, NameTooLong), n, true)
    else if s1.charNr >= |e.query| then CountStep(UnexpectedEOF(e, s1), n, true)
    else CountStep(s1, n, false)
  }
}
