/**
 * Input values of the query-to-bytecode parser (bytecode/bytecode.go:610-1058):
 * variables, numbers, strings, lists, objects, booleans, null and enums.
 * Every value becomes one record `0 'v' kind len(4) payload` whose length
 * slot counts the payload bytes.
 */
module BytecodeValues {
  import opened Bytes
  import opened Errors
  import opened BytecodeInstructions
  import opened BytecodeLexer
  import opened Unicode

  /** A value record starts at `at`: its header, a value kind, and a length slot covering the rest of `res`. */
  predicate IsValueRecord(res: seq<byte>, at: nat)
  {
    at + 7 <= |res| && res[at] == 0 && res[at + 1] == ActionValue && IsValueKind(res[at + 2])
    && DecodeLe32(res, at + 3) == U32(|res| - (at + 7))
  }

  /** What a value parser promises besides `StepOk`: on success a value record was appended and no error added. */
  predicate RecordOk(e: Env, s: PState, r: Step)
  {
    StepOk(e, s, r) && (!r.crit ==> IsValueRecord(r.st.res, |s.res|) && r.st.errors == s.errors)
  }

  /** `RecordOk`, and a value that parses consumes at least one byte. */
  predicate ValueOk(e: Env, s: PState, r: Step)
  {
    RecordOk(e, s, r) && (!r.crit ==> r.st.charNr > s.charNr)
  }

  /**
   * What the loop inside a record promises: the bytes before the length slot
   * at `start - 4` stay, and on success the slot holds the number of bytes
   * after `start`.
   */
  predicate SlotOk(e: Env, s: PState, r: Step, start: nat)
    requires 4 <= start
  {
    Keeps(e, s, r.st, start - 4) && (r.crit ==> |r.st.errors| > |s.errors|)
    && (!r.crit ==> start <= |r.st.res| && DecodeLe32(r.st.res, start - 4) == U32(|r.st.res| - start)
                    && r.st.errors == s.errors && r.st.charNr > s.charNr)
  }

  /** `SlotOk` for a number, whose kind byte at `start - 5` may change from int to float. */
  predicate NumberOk(e: Env, s: PState, r: Step, start: nat)
    requires 5 <= start
  {
    Keeps(e, s, r.st, start - 5) && start - 5 < |r.st.res| && r.st.res[start - 5] in {ValueInt, ValueFloat}
    && (r.crit ==> |r.st.errors| > |s.errors|)
    && (!r.crit ==> start <= |r.st.res| && DecodeLe32(r.st.res, start - 4) == U32(|r.st.res| - start)
                    && r.st.errors == s.errors)
  }

  lemma SlotToRecord(e: Env, s: PState, s1: PState, kind: byte, r: Step)
    requires s1.res == s.res + ValueHeader(kind) && IsValueKind(kind)
    requires s1.charNr >= s.charNr && s1.errors == s.errors && s1.fragLocs == s.fragLocs && s1.targetIdx == s.targetIdx
    requires SlotOk(e, s1, r, |s1.res|)
    ensures ValueOk(e, s, r)
  {
    var at := |s.res|;
    assert r.st.res[..at + 3] == s1.res[..at + 3];
    assert r.st.res[..at] == r.st.res[..at + 3][..at];
    assert s1.res[..at] == s.res;
  }

  // ---------------------------------------------------------------- numbers

  predicate IsNumberStart(c: byte) { c == '-' as byte || c == '+' as byte || c == '.' as byte || IsDigit(c) }

  /**
   * `parseNumberInputValue` (bytecode.go:776-899): an int record whose kind
   * becomes float once a `.` or an exponent shows up. A leading `+` and every
   * `_` are dropped and the exponent marker is written as `E`.
   */
  function ParseNumberInputValue(e: Env, s: PState): (r: Step)
    requires s.charNr < |e.query| && IsNumberStart(e.query[s.charNr])
    ensures ValueOk(e, s, r)
  {
    var s1 := Append(s, ValueHeader(ValueInt));
    var start := |s1.res|;
    var c := e.query[s.charNr];
    var r := if c == '-' as byte || c == '+' as byte then
      var s2 := Advance(if c == '-' as byte then Append(s1, ['-' as byte]) else s1, 1);
      if s2.charNr >= |e.query| then EOF(e, s2) else NumberIntPart(e, s2, start)
    else NumberIntPart(e, s1, start);
    NumberRecord(e, s, s1, r);
    r
  }

  lemma NumberRecord(e: Env, s: PState, s1: PState, r: Step)
    requires s1 == Append(s, ValueHeader(ValueInt)) && s.charNr < |e.query|
    requires NumberOk(e, s1, r, |s1.res|)
    requires !r.crit ==> r.st.charNr > s.charNr
    ensures ValueOk(e, s, r)
  {
    var at := |s.res|;
    assert r.st.res[..at + 2] == s1.res[..at + 2];
    assert r.st.res[at] == s1.res[at] && r.st.res[at + 1] == s1.res[at + 1];
    assert r.st.res[..at] == r.st.res[..at + 2][..at];
    assert s1.res[..at] == s.res;
  }

  predicate IsNumberByte(c: byte) { IsDigit(c) || c == '.' as byte || c == 'e' as byte || c == 'E' as byte || c == '_' as byte }

  /**
   * A byte that is no digit: a punctuator, an ignored token or `,` ends the
   * number and fills in its length, anything else is an error.
   */
  function NumberEnd(e: Env, s: PState, start: nat, inFloat: bool): (r: Step)
    requires s.charNr < |e.query| && 7 <= start <= |s.res| && s.res[start - 5] in {ValueInt, ValueFloat}
    ensures NumberOk(e, s, r, start)
    ensures r.crit <==> !EndOfNumber(e.query, s.charNr).0
  {
    var (ended, n) := EndOfNumber(e.query, s.charNr);
    if ended then Step(WriteLength(s.(charNr := n), start), false)
    else Fail(e, s, if inFloat then UnexpectedInFloat(e.query[s.charNr]) else UnexpectedInNumber(e.query[s.charNr]))
  }

  /** The first loop: the integer digits. */
  function NumberIntPart(e: Env, s: PState, start: nat): (r: Step)
    requires s.charNr < |e.query| && 7 <= start <= |s.res| && s.res[start - 5] in {ValueInt, ValueFloat}
    ensures NumberOk(e, s, r, start)
    ensures !r.crit && IsNumberByte(e.query[s.charNr]) ==> r.st.charNr > s.charNr
    decreases |e.query| - s.charNr
  {
    var c := e.query[s.charNr];
    if c == '.' as byte then NumberFraction(e, Append(SetByte(s, start - 5, ValueFloat), ['.' as byte]), start)
    else if c == 'e' as byte || c == 'E' as byte then NumberExponent(e, s, start)
    else if IsDigit(c) || c == '_' as byte then
      var s1 := Advance(if IsDigit(c) then Append(s, [c]) else s, 1);
      if s1.charNr >= |e.query| then EOF(e, s1) else NumberIntPart(e, s1, start)
    else NumberEnd(e, s, start, false)
  }

  /** The second loop: the digits after `.`; `charNr` is on the `.` or the previous digit. */
  function NumberFraction(e: Env, s: PState, start: nat): (r: Step)
    requires s.charNr < |e.query| && 7 <= start <= |s.res| && s.res[start - 5] in {ValueInt, ValueFloat}
    ensures NumberOk(e, s, r, start)
    ensures !r.crit ==> r.st.charNr > s.charNr
    decreases |e.query| - s.charNr
  {
    var s1 := Advance(s, 1);
    if s1.charNr >= |e.query| then EOF(e, s1)
    else
      var c := e.query[s1.charNr];
      if IsDigit(c) then NumberFraction(e, Append(s1, [c]), start)
      else if c == 'e' as byte || c == 'E' as byte then NumberExponent(e, s1, start)
      else if c == '_' as byte then NumberFraction(e, s1, start)
      else if c == '.' as byte then Fail(e, s1, UnexpectedInFloat(c))
      else NumberEnd(e, s1, start, true)
  }

  /** The exponent: `charNr` is on the `e` or `E`; the sign `-` is kept and `+` dropped. */
  function NumberExponent(e: Env, s: PState, start: nat): (r: Step)
    requires s.charNr < |e.query| && 7 <= start <= |s.res| && s.res[start - 5] in {ValueInt, ValueFloat}
    ensures NumberOk(e, s, r, start)
    ensures !r.crit ==> r.st.charNr > s.charNr
  {
    var s1 := Advance(Append(SetByte(s, start - 5, ValueFloat), ['E' as byte]), 1);
    if s1.charNr >= |e.query| then EOF(e, s1)
    else
      var c := e.query[s1.charNr];
      if c == '+' as byte || c == '-' as byte then
        var s2 := Advance(if c == '-' as byte then Append(s1, [c]) else s1, 1);
        if s2.charNr >= |e.query| then EOF(e, s2) else NumberExponentDigits(e, s2, start)
      else NumberExponentDigits(e, s1, start)
  }

  /** The third loop: the exponent digits. */
  function NumberExponentDigits(e: Env, s: PState, start: nat): (r: Step)
    requires s.charNr < |e.query| && 7 <= start <= |s.res| && s.res[start - 5] in {ValueInt, ValueFloat}
    ensures NumberOk(e, s, r, start)
    decreases |e.query| - s.charNr
  {
    var c := e.query[s.charNr];
    if IsDigit(c) || c == '_' as byte then
      var s1 := Advance(if IsDigit(c) then Append(s, [c]) else s, 1);
      if s1.charNr >= |e.query| then EOF(e, s1) else NumberExponentDigits(e, s1, start)
    else if c == 'e' as byte || c == 'E' as byte || c == '.' as byte then
      Fail(e, s, UnexpectedInFloat(c))
    else NumberEnd(e, s, start, true)
  }

  // ---------------------------------------------------------------- what a number record holds

  /** The bytes a number's text is made of: digits, `_`, `.`, the exponent markers and the signs. */
  predicate InNumberRun(c: byte) { IsNumberByte(c) || c == '+' as byte || c == '-' as byte }

  /** The end of the run of number bytes from `n`: the first position from `n` on that is past the end or holds another byte. */
  function NumberRunEnd(q: seq<byte>, n: nat): (k: nat)
    requires n <= |q|
    ensures n <= k <= |q| && (k < |q| ==> !InNumberRun(q[k]))
    decreases |q| - n
  {
    if n < |q| && InNumberRun(q[n]) then NumberRunEnd(q, n + 1) else n
  }

  /** Where a number's text has got to: the grammar `[+-]? D* ('.' D*)? ([eE] [+-]? D*)?` with `D` a digit or `_`. */
  datatype NumberPart = AtStart | InInt | InFraction | AtExponent | InExponent | Malformed

  /** One byte more of a number's text. */
  function NextPart(p: NumberPart, c: byte): NumberPart
  {
    var digit := IsDigit(c) || c == '_' as byte;
    var sign := c == '+' as byte || c == '-' as byte;
    var exp := c == 'e' as byte || c == 'E' as byte;
    match p
    case AtStart => if sign || digit then InInt else if c == '.' as byte then InFraction else if exp then AtExponent else Malformed
    case InInt => if digit then InInt else if c == '.' as byte then InFraction else if exp then AtExponent else Malformed
    case InFraction => if digit then InFraction else if exp then AtExponent else Malformed
    case AtExponent => if sign || digit then InExponent else Malformed
    case InExponent => if digit then InExponent else Malformed
    case Malformed => Malformed
  }

  /** The part of the grammar the text `t` ends in. */
  function PartAfter(t: seq<byte>): NumberPart
  {
    if t == [] then AtStart else NextPart(PartAfter(t[..|t| - 1]), t[|t| - 1])
  }

  /** What a byte of a number's text becomes in the record: `+` and `_` are dropped and `e` is written `E`. */
  function PayloadByte(c: byte): (r: seq<byte>)
    ensures |r| <= 1 && (c != '+' as byte && c != '_' as byte <==> |r| == 1)
    ensures |r| == 1 && c != 'e' as byte ==> r[0] == c
  {
    if c == '+' as byte || c == '_' as byte then [] else if c == 'e' as byte then ['E' as byte] else [c]
  }

  /** A number's text is a float exactly when it has a `.` or an exponent marker. */
  predicate IsFloatText(t: seq<byte>)
  {
    '.' as byte in t || 'e' as byte in t || 'E' as byte in t
  }

  /** `PartAfter(q[n..m])`, position by position. */
  function PartUpTo(q: seq<byte>, n: nat, m: nat): NumberPart
    requires n <= m <= |q|
    decreases m - n
  {
    if m == n then AtStart else NextPart(PartUpTo(q, n, m - 1), q[m - 1])
  }

  /** The payload of a number record for the text `q[n..m]`: each byte as `PayloadByte` writes it. */
  function PayloadUpTo(q: seq<byte>, n: nat, m: nat): seq<byte>
    requires n <= m <= |q|
    decreases m - n
  {
    if m == n then [] else PayloadUpTo(q, n, m - 1) + PayloadByte(q[m - 1])
  }

  /** `IsFloatText(q[n..m])`, position by position. */
  predicate FloatUpTo(q: seq<byte>, n: nat, m: nat)
    requires n <= m <= |q|
    decreases m - n
  {
    m > n && (FloatUpTo(q, n, m - 1) || q[m - 1] in {'.' as byte, 'e' as byte, 'E' as byte})
  }

  /** The text `q[n..m]` is the text up to `m - 1` followed by the byte at `m - 1`. */
  lemma TextStep(q: seq<byte>, n: nat, m: nat)
    requires n < m <= |q|
    ensures q[n..m][..m - n - 1] == q[n..m - 1] && q[n..m][m - n - 1] == q[m - 1]
    ensures q[n..m] == q[n..m - 1] + [q[m - 1]]
  {
  }

  /** The position-by-position definitions agree with those on the text. */
  lemma UpToIsText(q: seq<byte>, n: nat, m: nat)
    requires n <= m <= |q|
    ensures PartUpTo(q, n, m) == PartAfter(q[n..m])
    ensures FloatUpTo(q, n, m) <==> IsFloatText(q[n..m])
  {
    PartUpToIsText(q, n, m);
    FloatUpToIsText(q, n, m);
  }

  lemma {:induction false} PartUpToIsText(q: seq<byte>, n: nat, m: nat)
    requires n <= m <= |q|
    ensures PartUpTo(q, n, m) == PartAfter(q[n..m])
    decreases m - n
  {
    if m > n {
      PartUpToIsText(q, n, m - 1);
      TextStep(q, n, m);
    }
  }

  lemma {:induction false} FloatUpToIsText(q: seq<byte>, n: nat, m: nat)
    requires n <= m <= |q|
    ensures FloatUpTo(q, n, m) <==> IsFloatText(q[n..m])
    decreases m - n
  {
    if m > n {
      FloatUpToIsText(q, n, m - 1);
      TextStep(q, n, m);
      var c := q[m - 1];
      assert '.' as byte in q[n..m] <==> '.' as byte in q[n..m - 1] || c == '.' as byte;
      assert 'e' as byte in q[n..m] <==> 'e' as byte in q[n..m - 1] || c == 'e' as byte;
      assert 'E' as byte in q[n..m] <==> 'E' as byte in q[n..m - 1] || c == 'E' as byte;
    }
  }

  /**
   * The number that starts at `n` has been read up to `m`, which is still in
   * its run of number bytes: the record's payload from `start` on and its
   * kind at `start - 5` are those of the text so far, which ends in `part`.
   */
  predicate NumberSoFar(q: seq<byte>, n: nat, m: nat, res: seq<byte>, start: nat, part: NumberPart)
  {
    n <= m <= |q| && 7 <= start <= |res| && NumberRunEnd(q, n) == NumberRunEnd(q, m)
    && res[start..] == PayloadUpTo(q, n, m)
    && res[start - 5] in {ValueInt, ValueFloat} && (res[start - 5] == ValueFloat <==> FloatUpTo(q, n, m))
    && PartUpTo(q, n, m) == part
  }

  /**
   * A number read from `n` that parses ends where its run of number bytes
   * ends, on a byte that ends a number; its text is well formed, and the
   * record holds its payload and says float exactly for a float's text.
   */
  predicate NumberRead(q: seq<byte>, n: nat, r: Step, start: nat)
    requires n <= |q|
  {
    !r.crit ==>
      var k := NumberRunEnd(q, n);
      k < |q| && EndOfNumber(q, k).0 && r.st.charNr == EndOfNumber(q, k).1
      && PartUpTo(q, n, k) != Malformed && NumberSoFar(q, n, k, r.st.res, start, PartUpTo(q, n, k))
  }

  /** Reading one more byte of the run: the payload grows by what the byte becomes and a `.` or exponent makes the kind float. */
  lemma ConsumeNumberByte(q: seq<byte>, n: nat, m: nat, res: seq<byte>, res2: seq<byte>, start: nat, part: NumberPart)
    requires NumberSoFar(q, n, m, res, start, part) && m < |q| && InNumberRun(q[m])
    requires start <= |res2| && res2[start..] == res[start..] + PayloadByte(q[m])
    requires res2[start - 5] == if q[m] in {'.' as byte, 'e' as byte, 'E' as byte} then ValueFloat else res[start - 5]
    ensures NumberSoFar(q, n, m + 1, res2, start, NextPart(part, q[m]))
  {
  }

  /** Setting the kind byte and appending `b` leaves the payload from `start` on followed by `b`. */
  lemma KindSetThenAppend(res: seq<byte>, at: nat, kind: byte, start: nat, b: seq<byte>)
    requires at < start <= |res|
    ensures (res[at := kind] + b)[start..] == res[start..] + b
    ensures (res[at := kind] + b)[at] == kind
  {
    assert (res[at := kind] + b)[start..] == res[at := kind][start..] + b;
    assert res[at := kind][start..] == res[start..];
  }

  /** Reading a `.` or an exponent marker: the kind becomes float. */
  lemma ConsumeMark(q: seq<byte>, n: nat, m: nat, res: seq<byte>, start: nat, part: NumberPart)
    requires NumberSoFar(q, n, m, res, start, part) && m < |q| && q[m] in {'.' as byte, 'e' as byte, 'E' as byte}
    ensures NumberSoFar(q, n, m + 1, res[start - 5 := ValueFloat] + PayloadByte(q[m]), start, NextPart(part, q[m]))
  {
    KindSetThenAppend(res, start - 5, ValueFloat, start, PayloadByte(q[m]));
    ConsumeNumberByte(q, n, m, res, res[start - 5 := ValueFloat] + PayloadByte(q[m]), start, part);
  }

  /** A byte other than `.` that ends a number cannot continue its run. */
  lemma EndByteOutsideRun(q: seq<byte>, n: nat)
    requires n < |q| && q[n] != '.' as byte && EndOfNumber(q, n).0
    ensures !InNumberRun(q[n])
  {
  }

  /** The end of a number: if it parses, the byte it stops at ends the run. */
  lemma NumberEndRead(e: Env, s: PState, start: nat, inFloat: bool, n: nat, part: NumberPart)
    requires s.charNr < |e.query| && 7 <= start <= |s.res| && s.res[start - 5] in {ValueInt, ValueFloat}
    requires NumberSoFar(e.query, n, s.charNr, s.res, start, part) && part != Malformed && e.query[s.charNr] != '.' as byte
    ensures NumberRead(e.query, n, NumberEnd(e, s, start, inFloat), start)
  {
    var r := NumberEnd(e, s, start, inFloat);
    if !r.crit {
      var k := s.charNr;
      EndByteOutsideRun(e.query, k);
      assert r.st.res[start..] == s.res[start..];
      assert r.st.res[start - 5] == r.st.res[..start - 4][start - 5];
    }
  }

  /** The integer digits: the text read so far is the sign, if any, and digits. */
  lemma {:induction false} NumberIntPartRead(e: Env, s: PState, start: nat, n: nat, part: NumberPart)
    requires s.charNr < |e.query| && 7 <= start <= |s.res| && s.res[start - 5] in {ValueInt, ValueFloat}
    requires NumberSoFar(e.query, n, s.charNr, s.res, start, part) && part in {AtStart, InInt}
    ensures NumberRead(e.query, n, NumberIntPart(e, s, start), start)
    decreases |e.query| - s.charNr, 1
  {
    var c := e.query[s.charNr];
    if c == '.' as byte {
      NumberPointRead(e, s, start, n, part);
    } else if c == 'e' as byte || c == 'E' as byte {
      assert NumberIntPart(e, s, start) == NumberExponent(e, s, start);
      NumberExponentRead(e, s, start, n, part);
    } else if IsDigit(c) || c == '_' as byte {
      NumberDigitRead(e, s, start, n, part);
    } else {
      assert NumberIntPart(e, s, start) == NumberEnd(e, s, start, false);
      NumberEndRead(e, s, start, false, n, part);
    }
  }

  /** A `.` after the integer digits: the kind becomes float and the fraction follows. */
  lemma NumberPointRead(e: Env, s: PState, start: nat, n: nat, part: NumberPart)
    requires s.charNr < |e.query| && 7 <= start <= |s.res| && s.res[start - 5] in {ValueInt, ValueFloat}
    requires NumberSoFar(e.query, n, s.charNr, s.res, start, part) && part in {AtStart, InInt}
    requires e.query[s.charNr] == '.' as byte
    ensures NumberRead(e.query, n, NumberIntPart(e, s, start), start)
  {
    var s1 := Append(SetByte(s, start - 5, ValueFloat), ['.' as byte]);
    PointMarkRead(e.query, n, s, s1, start, part);
    assert NumberIntPart(e, s, start) == NumberFraction(e, s1, start);
    NumberFractionRead(e, s1, start, n);
  }

  /** The `.` is kept and makes the kind float. */
  lemma PointMarkRead(q: seq<byte>, n: nat, s: PState, s1: PState, start: nat, part: NumberPart)
    requires s.charNr < |q| && 7 <= start <= |s.res| && q[s.charNr] == '.' as byte
    requires NumberSoFar(q, n, s.charNr, s.res, start, part) && part in {AtStart, InInt}
    requires s1 == Append(SetByte(s, start - 5, ValueFloat), ['.' as byte])
    ensures s1.charNr < |q| && 7 <= start <= |s1.res| && s1.res[start - 5] in {ValueInt, ValueFloat}
    ensures NumberSoFar(q, n, s1.charNr + 1, s1.res, start, InFraction)
  {
    ConsumeMark(q, n, s.charNr, s.res, start, part);
    assert NextPart(part, '.' as byte) == InFraction;
  }

  /** A digit or `_` of the integer part: the digit joins the payload and the integer part goes on. */
  lemma {:induction false} NumberDigitRead(e: Env, s: PState, start: nat, n: nat, part: NumberPart)
    requires s.charNr < |e.query| && 7 <= start <= |s.res| && s.res[start - 5] in {ValueInt, ValueFloat}
    requires NumberSoFar(e.query, n, s.charNr, s.res, start, part) && part in {AtStart, InInt}
    requires IsDigit(e.query[s.charNr]) || e.query[s.charNr] == '_' as byte
    ensures NumberRead(e.query, n, NumberIntPart(e, s, start), start)
    decreases |e.query| - s.charNr, 0
  {
    var c := e.query[s.charNr];
    var s1 := Advance(if IsDigit(c) then Append(s, [c]) else s, 1);
    assert NumberSoFar(e.query, n, s1.charNr, s1.res, start, InInt) by {
      ConsumeNumberByte(e.query, n, s.charNr, s.res, s1.res, start, part);
      assert NextPart(part, c) == InInt && s1.charNr == s.charNr + 1;
    }
    assert NumberIntPart(e, s, start) == if s1.charNr >= |e.query| then EOF(e, s1) else NumberIntPart(e, s1, start);
    if s1.charNr < |e.query| {
      NumberIntPartRead(e, s1, start, n, InInt);
    }
  }

  /** The digits after `.`: `charNr` is on the last byte read. */
  lemma {:induction false} NumberFractionRead(e: Env, s: PState, start: nat, n: nat)
    requires s.charNr < |e.query| && 7 <= start <= |s.res| && s.res[start - 5] in {ValueInt, ValueFloat}
    requires NumberSoFar(e.query, n, s.charNr + 1, s.res, start, InFraction)
    ensures NumberRead(e.query, n, NumberFraction(e, s, start), start)
    decreases |e.query| - s.charNr, 1
  {
    var q := e.query;
    var s1 := Advance(s, 1);
    if s1.charNr >= |q| {
      assert NumberFraction(e, s, start) == EOF(e, s1);
    } else {
      var c := q[s1.charNr];
      if IsDigit(c) || c == '_' as byte {
        NumberFractionDigitRead(e, s, start, n);
      } else if c == 'e' as byte || c == 'E' as byte {
        assert NumberFraction(e, s, start) == NumberExponent(e, s1, start);
        NumberExponentRead(e, s1, start, n, InFraction);
      } else if c != '.' as byte {
        assert NumberFraction(e, s, start) == NumberEnd(e, s1, start, true);
        NumberEndRead(e, s1, start, true, n, InFraction);
      }
    }
  }

  /** A digit or `_` after `.`: the digit joins the payload and the fraction goes on. */
  lemma {:induction false} NumberFractionDigitRead(e: Env, s: PState, start: nat, n: nat)
    requires s.charNr + 1 < |e.query| && 7 <= start <= |s.res| && s.res[start - 5] in {ValueInt, ValueFloat}
    requires NumberSoFar(e.query, n, s.charNr + 1, s.res, start, InFraction)
    requires IsDigit(e.query[s.charNr + 1]) || e.query[s.charNr + 1] == '_' as byte
    ensures NumberRead(e.query, n, NumberFraction(e, s, start), start)
    decreases |e.query| - s.charNr, 0
  {
    var q := e.query;
    var s1 := Advance(s, 1);
    var c := q[s1.charNr];
    var s2 := if IsDigit(c) then Append(s1, [c]) else s1;
    assert NumberSoFar(q, n, s2.charNr + 1, s2.res, start, InFraction) by {
      ConsumeNumberByte(q, n, s1.charNr, s1.res, s2.res, start, InFraction);
      assert NextPart(InFraction, c) == InFraction;
    }
    assert NumberFraction(e, s, start) == NumberFraction(e, s2, start);
    NumberFractionRead(e, s2, start, n);
  }

  /** The exponent marker and its optional sign. */
  lemma NumberExponentRead(e: Env, s: PState, start: nat, n: nat, part: NumberPart)
    requires s.charNr < |e.query| && 7 <= start <= |s.res| && s.res[start - 5] in {ValueInt, ValueFloat}
    requires e.query[s.charNr] == 'e' as byte || e.query[s.charNr] == 'E' as byte
    requires NumberSoFar(e.query, n, s.charNr, s.res, start, part) && part in {AtStart, InInt, InFraction}
    ensures NumberRead(e.query, n, NumberExponent(e, s, start), start)
  {
    var q := e.query;
    var s1 := Advance(Append(SetByte(s, start - 5, ValueFloat), ['E' as byte]), 1);
    ExponentMarkRead(q, n, s, start, part);
    if s1.charNr >= |q| {
      assert NumberExponent(e, s, start) == EOF(e, s1);
    } else if q[s1.charNr] == '+' as byte || q[s1.charNr] == '-' as byte {
      ExponentSignRead(e, s, s1, start, n);
    } else {
      ExponentUnsignedRead(e, s, s1, start, n);
    }
  }

  /** The exponent marker is written `E` and makes the kind float. */
  lemma ExponentMarkRead(q: seq<byte>, n: nat, s: PState, start: nat, part: NumberPart)
    requires s.charNr < |q| && 7 <= start <= |s.res| && (q[s.charNr] == 'e' as byte || q[s.charNr] == 'E' as byte)
    requires NumberSoFar(q, n, s.charNr, s.res, start, part) && part in {AtStart, InInt, InFraction}
    ensures var s1 := Advance(Append(SetByte(s, start - 5, ValueFloat), ['E' as byte]), 1);
      NumberSoFar(q, n, s1.charNr, s1.res, start, AtExponent)
  {
    ConsumeMark(q, n, s.charNr, s.res, start, part);
    assert NextPart(part, q[s.charNr]) == AtExponent;
  }

  /** An exponent without a sign: its digits follow the marker. */
  lemma ExponentUnsignedRead(e: Env, s: PState, s1: PState, start: nat, n: nat)
    requires s.charNr < |e.query| && 7 <= start <= |s.res| && s.res[start - 5] in {ValueInt, ValueFloat}
    requires e.query[s.charNr] == 'e' as byte || e.query[s.charNr] == 'E' as byte
    requires s1 == Advance(Append(SetByte(s, start - 5, ValueFloat), ['E' as byte]), 1)
    requires NumberSoFar(e.query, n, s1.charNr, s1.res, start, AtExponent) && s1.charNr < |e.query|
    requires e.query[s1.charNr] != '+' as byte && e.query[s1.charNr] != '-' as byte
    ensures NumberRead(e.query, n, NumberExponent(e, s, start), start)
  {
    assert NumberExponent(e, s, start) == NumberExponentDigits(e, s1, start);
    NumberExponentDigitsRead(e, s1, start, n, AtExponent);
  }

  /** The sign after the exponent marker: `-` joins the payload, `+` is dropped. */
  lemma ExponentSignRead(e: Env, s: PState, s1: PState, start: nat, n: nat)
    requires s.charNr < |e.query| && 7 <= start <= |s.res| && s.res[start - 5] in {ValueInt, ValueFloat}
    requires e.query[s.charNr] == 'e' as byte || e.query[s.charNr] == 'E' as byte
    requires s1 == Advance(Append(SetByte(s, start - 5, ValueFloat), ['E' as byte]), 1)
    requires NumberSoFar(e.query, n, s1.charNr, s1.res, start, AtExponent) && s1.charNr < |e.query|
    requires e.query[s1.charNr] == '+' as byte || e.query[s1.charNr] == '-' as byte
    ensures NumberRead(e.query, n, NumberExponent(e, s, start), start)
  {
    var q := e.query;
    var c := q[s1.charNr];
    var s2 := Advance(if c == '-' as byte then Append(s1, [c]) else s1, 1);
    assert NumberSoFar(q, n, s2.charNr, s2.res, start, InExponent) by {
      ConsumeNumberByte(q, n, s1.charNr, s1.res, s2.res, start, AtExponent);
      assert NextPart(AtExponent, c) == InExponent && s2.charNr == s1.charNr + 1;
    }
    assert NumberExponent(e, s, start) == if s2.charNr >= |q| then EOF(e, s2) else NumberExponentDigits(e, s2, start);
    if s2.charNr < |q| {
      NumberExponentDigitsRead(e, s2, start, n, InExponent);
    }
  }

  /** The exponent digits; a sign is read here only as the byte that breaks the number. */
  lemma {:induction false} NumberExponentDigitsRead(e: Env, s: PState, start: nat, n: nat, part: NumberPart)
    requires s.charNr < |e.query| && 7 <= start <= |s.res| && s.res[start - 5] in {ValueInt, ValueFloat}
    requires NumberSoFar(e.query, n, s.charNr, s.res, start, part)
    requires part == InExponent || (part == AtExponent && e.query[s.charNr] != '+' as byte && e.query[s.charNr] != '-' as byte)
    ensures NumberRead(e.query, n, NumberExponentDigits(e, s, start), start)
    decreases |e.query| - s.charNr
  {
    var q := e.query;
    var c := q[s.charNr];
    if IsDigit(c) || c == '_' as byte {
      var s1 := Advance(if IsDigit(c) then Append(s, [c]) else s, 1);
      assert NumberSoFar(q, n, s1.charNr, s1.res, start, InExponent) by {
        ConsumeNumberByte(q, n, s.charNr, s.res, s1.res, start, part);
        assert NextPart(part, c) == InExponent && s1.charNr == s.charNr + 1;
      }
      if s1.charNr < |q| {
        NumberExponentDigitsRead(e, s1, start, n, InExponent);
      }
    } else if c != 'e' as byte && c != 'E' as byte && c != '.' as byte {
      NumberEndRead(e, s, start, true, n, part);
    }
  }

  /**
   * What `parseNumberInputValue` (bytecode.go:776-899) writes: a number that
   * parses runs over the whole run of number bytes and stops on a byte that
   * ends a number; its text has the shape `[+-]? D* ('.' D*)? ([eE] [+-]? D*)?`,
   * so a second `.` or exponent is an error; the record is a float exactly
   * when the text has a `.` or an exponent marker, and its payload is the
   * text without `+` and `_` and with the exponent marker written `E`.
   */
  lemma NumberValueRead(e: Env, s: PState)
    requires s.charNr < |e.query| && IsNumberStart(e.query[s.charNr])
    ensures var r := ParseNumberInputValue(e, s);
      var k := NumberRunEnd(e.query, s.charNr);
      var t := e.query[s.charNr..k];
      !r.crit ==>
        (k < |e.query| && EndOfNumber(e.query, k).0 && r.st.charNr == EndOfNumber(e.query, k).1
         && PartAfter(t) != Malformed
         && |s.res| + 7 <= |r.st.res| && r.st.res[|s.res| + 7..] == PayloadUpTo(e.query, s.charNr, k)
         && (r.st.res[|s.res| + 2] == ValueFloat <==> IsFloatText(t))
         && r.st.res[|s.res| + 2] in {ValueInt, ValueFloat})
  {
    NumberValueRun(e, s);
    UpToIsText(e.query, s.charNr, NumberRunEnd(e.query, s.charNr));
  }

  /** `NumberValueRead` in terms of `NumberRead`: the sign, then the integer part. */
  lemma NumberValueRun(e: Env, s: PState)
    requires s.charNr < |e.query| && IsNumberStart(e.query[s.charNr])
    ensures NumberRead(e.query, s.charNr, ParseNumberInputValue(e, s), |s.res| + 7)
  {
    var q := e.query;
    var n := s.charNr;
    var s1 := Append(s, ValueHeader(ValueInt));
    var start := |s1.res|;
    assert s1.res[start..] == [];
    assert NumberSoFar(q, n, n, s1.res, start, AtStart);
    var c := q[n];
    if c == '-' as byte || c == '+' as byte {
      var s2 := Advance(if c == '-' as byte then Append(s1, ['-' as byte]) else s1, 1);
      assert NumberSoFar(q, n, s2.charNr, s2.res, start, InInt) by {
        ConsumeNumberByte(q, n, n, s1.res, s2.res, start, AtStart);
        assert NextPart(AtStart, c) == InInt && s2.charNr == n + 1;
      }
      if s2.charNr < |q| {
        NumberIntPartRead(e, s2, start, n, InInt);
      }
    } else {
      NumberIntPartRead(e, s1, start, n, AtStart);
    }
  }

  /** In a number's text, a `.` after a `.` or an exponent, and an exponent after an exponent, make it malformed. */
  lemma {:induction false} SecondMarkMalformed(t: seq<byte>, c: byte)
    requires (c == '.' as byte && IsFloatText(t)) || ((c == 'e' as byte || c == 'E' as byte) && ('e' as byte in t || 'E' as byte in t))
    ensures PartAfter(t + [c]) == Malformed
  {
    assert (t + [c])[..|t|] == t;
    PartMarks(t);
  }

  /** The part a text ends in records which markers it has seen. */
  lemma {:induction false} PartMarks(t: seq<byte>)
    ensures PartAfter(t) in {AtStart, InInt} ==> !IsFloatText(t)
    ensures PartAfter(t) == InFraction ==> '.' as byte in t && 'e' as byte !in t && 'E' as byte !in t
    ensures PartAfter(t) in {AtExponent, InExponent} ==> 'e' as byte in t || 'E' as byte in t
    decreases |t|
  {
    if t != [] {
      var u := t[..|t| - 1];
      PartMarks(u);
      assert t == u + [t[|t| - 1]];
    }
  }

  /** Once a number's text is malformed, no further byte mends it. */
  lemma {:induction false} MalformedStays(t: seq<byte>, u: seq<byte>)
    requires PartAfter(t) == Malformed
    ensures PartAfter(t + u) == Malformed
    decreases |u|
  {
    if u != [] {
      var v := u[..|u| - 1];
      MalformedStays(t, v);
      assert (t + u)[..|t + u| - 1] == t + v;
      assert PartAfter(t + u) == NextPart(PartAfter(t + v), u[|u| - 1]);
    } else {
      assert t + u == t;
    }
  }

  /** A `.` after a `.` or an exponent, or a second exponent, inside a number's text is an error. */
  lemma {:induction false} SecondMarkFails(e: Env, s: PState, i: nat, j: nat)
    requires s.charNr < |e.query| && IsNumberStart(e.query[s.charNr])
    requires s.charNr <= i < j < NumberRunEnd(e.query, s.charNr)
    requires (e.query[j] == '.' as byte && e.query[i] in {'.' as byte, 'e' as byte, 'E' as byte})
      || (e.query[j] in {'e' as byte, 'E' as byte} && e.query[i] in {'e' as byte, 'E' as byte})
    ensures ParseNumberInputValue(e, s).crit
  {
    var q, n := e.query, s.charNr;
    var k := NumberRunEnd(q, n);
    var t := q[n..j];
    assert t[i - n] == q[i];
    SecondMarkMalformed(t, q[j]);
    assert q[n..k] == (t + [q[j]]) + q[j + 1..k];
    MalformedStays(t + [q[j]], q[j + 1..k]);
    NumberValueRead(e, s);
  }

  // ---------------------------------------------------------------- strings

  const TripleQuote: seq<byte> := Str("\"\"\"")

  /** The first position from `n` on that is past the end or holds a byte other than space, tab, LF and CR. */
  function SkipBlockStart(q: seq<byte>, n: nat): (k: nat)
    requires n <= |q|
    ensures n <= k <= |q|
    ensures k < |q| ==> q[k] !in {' ' as byte, '\t' as byte, '\n' as byte, '\r' as byte}
    decreases |q| - n
  {
    if n < |q| && q[n] in {' ' as byte, '\t' as byte, '\n' as byte, '\r' as byte} then SkipBlockStart(q, n + 1) else n
  }

  /** The first position from `n` on that is past the end or holds a byte other than space and tab. */
  function SkipIndent(q: seq<byte>, n: nat): (k: nat)
    requires n <= |q|
    ensures n <= k <= |q|
    ensures k < |q| ==> q[k] != ' ' as byte && q[k] != '\t' as byte
    decreases |q| - n
  {
    if n < |q| && (q[n] == ' ' as byte || q[n] == '\t' as byte) then SkipIndent(q, n + 1) else n
  }

  predicate IsTrailing(c: byte) { c == '\n' as byte || c == '\r' as byte || c == ' ' as byte }

  /** The loop that drops the LF, CR and space bytes at the end of a block string. */
  function TrimTrailing(res: seq<byte>): (r: seq<byte>)
    ensures |r| <= |res| && r == res[..|r|]
    ensures |r| > 0 ==> !IsTrailing(r[|r| - 1])
    ensures forall k :: |r| <= k < |res| ==> IsTrailing(res[k])
  {
    if |res| > 0 && IsTrailing(res[|res| - 1]) then TrimTrailing(res[..|res| - 1]) else res
  }

  /** The byte written for the escape `\c`, for the escapes other than `\u`, CR, LF and NUL. */
  function EscapedByte(c: byte): (b: byte)
    ensures c !in {'b' as byte, 'f' as byte, 'n' as byte, 'r' as byte, 't' as byte} ==> b == c
  {
    if c == 'b' as byte then 8
    else if c == 'f' as byte then 12
    else if c == 'n' as byte then 10
    else if c == 'r' as byte then 13
    else if c == 't' as byte then 9
    else c
  }

  /** `checkC(nr)` when only the byte matters: the byte at `nr`, or 0 past the end. */
  function ByteAt(q: seq<byte>, nr: nat): byte
  {
    if nr < |q| then q[nr] else 0
  }

  /**
   * `parseStringInputValue` (bytecode.go:901-1058). A string opened by
   * `"""` is a block string: its leading whitespace is skipped, it may span
   * lines (the indentation after each line break is dropped) and its
   * trailing spaces and line breaks are trimmed.
   */
  function ParseStringInputValue(e: Env, s: PState): (r: Step)
    requires s.charNr < |e.query| && e.query[s.charNr] == '"' as byte
    ensures ValueOk(e, s, r)
  {
    var s1 := Append(s, ValueHeader(ValueString));
    var (m, n) := Matches(e.query, s1.charNr, [TripleQuote]);
    var r := if m == 0 then
      var k := SkipBlockStart(e.query, n);
      if k >= |e.query| then EOF(e, s1.(charNr := k))
      else StringChars(e, s1.(charNr := k - 1), |s1.res|, true)
    else StringChars(e, s1, |s1.res|, false);
    SlotToRecord(e, s, s1, ValueString, r);
    r
  }

  /** The main loop of `parseStringInputValue`; `charNr` is on the byte before the next one to read. */
  function StringChars(e: Env, s: PState, start: nat, isBlock: bool): (r: Step)
    requires s.charNr < |e.query| && 7 <= start <= |s.res| && s.res[start - 1] == 0
    ensures SlotOk(e, s, r, start)
    decreases |e.query| - s.charNr, 0
  {
    var n := s.charNr + 1;
    var s1 := s.(charNr := n);
    if n >= |e.query| then EOF(e, s1)
    else
      var c := e.query[n];
      if c == 0 then StringChars(e, s1, start, isBlock)
      else if c == '\n' as byte || c == '\r' as byte then
        if !isBlock then Fail(e, s1, NewlineInString)
        else BlockLineBreak(e, s1, start)
      else if c == '"' as byte && !isBlock then Step(WriteLength(Advance(s1, 1), start), false)
      else if c == '"' as byte && Matches(e.query, n, [TripleQuote]).0 == 0 then CloseBlockString(e, s1, start)
      else if c == '\\' as byte then StringEscape(e, s1, start, isBlock)
      else StringChars(e, Append(s1, [c]), start, isBlock)
  }

  /**
   * A line break inside a block string; `charNr` is on it. A CR LF pair is
   * kept as both bytes, and the spaces and tabs after it are dropped.
   */
  function BlockLineBreak(e: Env, s: PState, start: nat): (r: Step)
    requires s.charNr < |e.query| && e.query[s.charNr] in {'\n' as byte, '\r' as byte}
    requires 7 <= start <= |s.res| && s.res[start - 1] == 0
    ensures SlotOk(e, s, r, start)
    decreases |e.query| - s.charNr, 1
  {
    var n := s.charNr;
    var c := e.query[n];
    var s2 := Append(s, [c]);
    var s3 := if c == '\r' as byte && n + 1 < |e.query| && e.query[n + 1] == '\n' as byte
              then Advance(Append(s2, ['\n' as byte]), 1) else s2;
    var k := SkipIndent(e.query, s3.charNr + 1);
    if k >= |e.query| then EOF(e, s3.(charNr := k))
    else StringChars(e, s3.(charNr := k - 1), start, true)
  }

  /** The closing `"""` of a block string; `charNr` is on its first quote. */
  function CloseBlockString(e: Env, s: PState, start: nat): (r: Step)
    requires s.charNr + 3 <= |e.query| && 7 <= start <= |s.res| && s.res[start - 1] == 0
    ensures SlotOk(e, s, r, start)
  {
    var t := TrimTrailing(s.res);
    assert !IsTrailing(s.res[start - 1]);
    assert t[..start - 4] == s.res[..start - 4];
    Step(WriteLength(s.(charNr := s.charNr + 3, res := t), start), false)
  }

  /** An escape sequence; `charNr` is on the backslash. */
  function StringEscape(e: Env, s: PState, start: nat, isBlock: bool): (r: Step)
    requires s.charNr < |e.query| && 7 <= start <= |s.res| && s.res[start - 1] == 0
    ensures SlotOk(e, s, r, start)
    decreases |e.query| - s.charNr, 3
  {
    var k := s.charNr + 1;
    var s1 := s.(charNr := k);
    if k >= |e.query| then EOF(e, s1)
    else
      var c := e.query[k];
      if c == 0 then StringChars(e, s1, start, isBlock)
      else if c == '\n' as byte || c == '\r' as byte then Fail(e, s1, NewlineInString)
      else if c == 'u' as byte then UnicodeEscape(e, s1, start, isBlock)
      else StringChars(e, Append(s1, [EscapedByte(c)]), start, isBlock)
  }

  /**
   * `\uXXXX`; `charNr` is on the `u`. Missing digits read as 0 except the
   * last, whose absence is the end of input; the code unit is written as
   * UTF-8, a lone surrogate as U+FFFD.
   */
  function UnicodeEscape(e: Env, s: PState, start: nat, isBlock: bool): (r: Step)
    requires s.charNr < |e.query| && 7 <= start <= |s.res| && s.res[start - 1] == 0
    ensures SlotOk(e, s, r, start)
    decreases |e.query| - s.charNr, 2
  {
    var k := s.charNr;
    var s1 := s.(charNr := k + 4);
    if k + 4 >= |e.query| then EOF(e, s1)
    else
      match HexDecode4(ByteAt(e.query, k + 1), ByteAt(e.query, k + 2), ByteAt(e.query, k + 3), e.query[k + 4])
      case HexBad(b) => Fail(e, s1, InvalidHexByte(b))
      case HexOk(u) => StringChars(e, Append(s1, Utf8Encode(Utf16DecodeOne(u))), start, isBlock)
  }

  // ---------------------------------------------------------------- values

  /** A step inside a record that kept the bytes before the slot and added no error can be put in front of a `SlotOk` call. */
  lemma SlotCompose(e: Env, s: PState, t: PState, r: Step, start: nat)
    requires 4 <= start && Keeps(e, s, t, start - 4) && t.errors == s.errors
    requires SlotOk(e, t, r, start)
    ensures SlotOk(e, s, r, start)
  {
    KeepsTrans(e, s, t, r.st, start - 4, start - 4);
  }

  /** `instructionEnd(); charNr++` and the length of the record: the end of a list or an object. */
  function CloseRecord(e: Env, s: PState, start: nat): (r: Step)
    requires s.charNr < |e.query| && 7 <= start <= |s.res|
    ensures SlotOk(e, s, r, start) && |r.st.res| == |s.res| + 2 && r.st.res[|s.res|..] == End
  {
    var t := Append(Advance(s, 1), End);
    var r := Step(WriteLength(t, start), false);
    assert t.res[..start - 4] == s.res[..start - 4];
    r
  }

  /**
   * `parseInputValue` (bytecode.go:670-774): the kind of value is decided by
   * its first significant byte.
   */
  function ParseInputValue(e: Env, s: PState): (r: Step)
    requires Bounded(e, s)
    ensures ValueOk(e, s, r)
    decreases |e.query| + 3 - s.charNr, 0
  {
    var p := MightIgnore(e.query, s.charNr);
    var s0 := s.(charNr := p.charNr);
    if p.eof then EOF(e, s0)
    else if p.c == '$' as byte then ParseVariableValue(e, s, Advance(s0, 1))
    else if IsNumberStart(p.c) then ParseNumberInputValue(e, s0)
    else if p.c == '"' as byte then ParseStringInputValue(e, s0)
    else if p.c == '[' as byte then ParseListValue(e, Advance(s0, 1))
    else if p.c == '{' as byte then ParseAssignmentSet(e, Advance(s0, 1), '}' as byte)
    else ParseKeywordOrEnum(e, s0)
  }

  /** `$name`; `charNr` is after the `$`, which `s` had not yet consumed. */
  function ParseVariableValue(e: Env, s: PState, s0: PState): (r: Step)
    requires s0.res == s.res && s.charNr < s0.charNr <= |e.query| && s0.errors == s.errors
    requires s0.fragLocs == s.fragLocs && s0.targetIdx == s.targetIdx
    ensures ValueOk(e, s, r)
  {
    var s1 := Append(s0, ValueHeader(ValueVariable));
    var nm := ParseAndWriteName(e, s1);
    var r := NameValue(e, s1, nm, true);
    SlotToRecord(e, s, s1, ValueVariable, r);
    r
  }

  /** The rest of a variable or enum record once its name is parsed: an empty name is an error, worded for a variable or for an unknown value. */
  function NameValue(e: Env, s1: PState, nm: CountStep, isVariable: bool): (r: Step)
    requires 7 <= |s1.res| && s1.res[|s1.res| - 1] == 0
    requires CountOk(e, s1, nm) && nm.st.charNr == s1.charNr + nm.n
    requires !nm.crit ==> nm.st.errors == s1.errors && nm.st.charNr < |e.query|
    requires nm.n == 0 ==> nm.st.res == s1.res
    ensures SlotOk(e, s1, r, |s1.res|) || (r.crit && StepOk(e, s1, r))
    ensures !r.crit ==> SlotOk(e, s1, r, |s1.res|)
    ensures r.crit ==> StepOk(e, s1, r)
  {
    if nm.crit then Step(nm.st, true)
    else if nm.n == 0 then
      var c := e.query[nm.st.charNr];
      Fail(e, nm.st, if isVariable then VariableWithoutName(c) else UnknownValueKind(c))
    else
      var t := WriteLength(nm.st, |s1.res|);
      assert nm.st.res[..|s1.res| - 4] == nm.st.res[..|s1.res|][..|s1.res| - 4];
      Step(t, false)
  }

  /** `true`, `false` and `null` when they stand as whole words; every other name is an enum value. */
  function ParseKeywordOrEnum(e: Env, s: PState): (r: Step)
    requires s.charNr < |e.query|
    ensures ValueOk(e, s, r)
  {
    var c := e.query[s.charNr];
    var (b, nb) := MatchesWord(e.query, s.charNr, [Str("false"), Str("true")]);
    var (z, nz) := MatchesWord(e.query, s.charNr, [Str("null")]);
    if (c == 't' as byte || c == 'f' as byte) && b != -1 then
      FixedRecord(s.res, BooleanValue(b == 1));
      Step(Append(s.(charNr := nb), BooleanValue(b == 1)), false)
    else if !(c == 't' as byte || c == 'f' as byte) && c == 'n' as byte && z == 0 then
      FixedRecord(s.res, ValueHeader(ValueNull));
      Step(Append(s.(charNr := nz), ValueHeader(ValueNull)), false)
    else ParseEnumValue(e, s)
  }

  /** A boolean and a null value are complete records as soon as they are appended. */
  lemma FixedRecord(res: seq<byte>, rec: seq<byte>)
    requires rec == BooleanValue(true) || rec == BooleanValue(false) || rec == ValueHeader(ValueNull)
    ensures IsValueRecord(res + rec, |res|)
  {
    var t := res + rec;
    var at := |res|;
    assert t[at] == rec[0] && t[at + 1] == rec[1] && t[at + 2] == rec[2];
    assert t[at + 3] == rec[3] && t[at + 4] == rec[4] && t[at + 5] == rec[5] && t[at + 6] == rec[6];
  }

  /** An enum value: a name that is not one of the keywords. */
  function ParseEnumValue(e: Env, s: PState): (r: Step)
    requires s.charNr < |e.query|
    ensures ValueOk(e, s, r)
  {
    var s1 := Append(s, ValueHeader(ValueEnum));
    var nm := ParseAndWriteName(e, s1);
    var r := NameValue(e, s1, nm, false);
    if r.crit then
      assert r.st.res[..|s.res|] == r.st.res[..|s1.res|][..|s.res|];
      assert s1.res[..|s.res|] == s.res;
      r
    else
      SlotToRecord(e, s, s1, ValueEnum, r);
      r
  }

  /** A list after its `[`. */
  function ParseListValue(e: Env, s: PState): (r: Step)
    requires 0 < s.charNr <= |e.query|
    ensures RecordOk(e, s, r)
    decreases |e.query| + 3 - s.charNr, 3
  {
    var s1 := Append(s, ValueHeader(ValueList));
    var start := |s1.res|;
    var p := MightIgnore(e.query, s1.charNr);
    var s2 := s1.(charNr := p.charNr);
    var r := if p.eof then EOF(e, s2)
      else if p.c == ']' as byte then CloseRecord(e, s2, start)
      else ListItems(e, s2, start);
    if r.crit then
      assert r.st.res[..|s.res|] == r.st.res[..|s1.res| - 4][..|s.res|];
      assert s1.res[..|s.res|] == s.res;
      r
    else
      SlotToRecord(e, s, s1, ValueList, r);
      r
  }

  /** The loop over the items of a list: values, each optionally followed by `,`, up to `]`. */
  function ListItems(e: Env, s: PState, start: nat): (r: Step)
    requires Bounded(e, s) && 7 <= start <= |s.res|
    ensures SlotOk(e, s, r, start)
    decreases |e.query| + 3 - s.charNr, 1
  {
    var v := ParseInputValue(e, s);
    if v.crit then
      KeepsTrans(e, s, v.st, v.st, |s.res|, |v.st.res|);
      v
    else
      var r := ListNext(e, v.st, start);
      SlotCompose(e, s, v.st, r, start);
      r
  }

  /** After an item: an optional `,`, then `]` or the next item. */
  function ListNext(e: Env, s: PState, start: nat): (r: Step)
    requires Bounded(e, s) && 7 <= start <= |s.res|
    ensures SlotOk(e, s, r, start) || (r.crit && Keeps(e, s, r.st, start - 4) && |r.st.errors| > |s.errors|)
    decreases |e.query| + 3 - s.charNr, 2
  {
    var p := AfterComma(e.query, MightIgnore(e.query, s.charNr));
    var s1 := s.(charNr := p.charNr);
    if p.eof then EOF(e, s1)
    else if p.c == ']' as byte then CloseRecord(e, s1, start)
    else
      var r := ListItems(e, s1, start);
      SlotCompose(e, s, s1, r, start);
      r
  }

  /**
   * `parseAssignmentSet` (bytecode.go:610-668): `name: value` pairs up to
   * `closure`, which is `}` for an object value and `)` for the arguments of
   * a field or directive; `charNr` is after the opening byte.
   */
  function ParseAssignmentSet(e: Env, s: PState, closure: byte): (r: Step)
    requires Bounded(e, s)
    ensures RecordOk(e, s, r)
    decreases |e.query| + 3 - s.charNr, 2
  {
    var s1 := Append(s, ValueHeader(ValueObject));
    var start := |s1.res|;
    var p := MightIgnore(e.query, s1.charNr);
    var s2 := s1.(charNr := p.charNr);
    var r := if p.eof then EOF(e, s2)
      else if p.c == closure then CloseRecord(e, s2, start)
      else AssignmentFields(e, s2, closure, start);
    if r.crit then
      assert r.st.res[..|s.res|] == r.st.res[..|s1.res| - 4][..|s.res|];
      assert s1.res[..|s.res|] == s.res;
      r
    else
      SlotToRecord(e, s, s1, ValueObject, r);
      r
  }

  /** The loop of `parseAssignmentSet`: one `name: value` field. */
  function AssignmentFields(e: Env, s: PState, closure: byte, start: nat): (r: Step)
    requires Bounded(e, s) && 7 <= start <= |s.res|
    ensures SlotOk(e, s, r, start)
    decreases |e.query| + 3 - s.charNr, 0
  {
    var s1 := Append(s, ObjectValueFieldHeader);
    var nm := ParseAndWriteName(e, s1);
    assert Keeps(e, s, nm.st, start - 4) by {
      assert nm.st.res[..start - 4] == nm.st.res[..|s1.res|][..start - 4];
      assert s1.res[..start - 4] == s.res[..start - 4];
    }
    if nm.crit then Step(nm.st, true)
    else if nm.n == 0 then Fail(e, nm.st, ExpectedNameCharacter(e.query[nm.st.charNr]))
    else
      var r := AssignmentField(e, nm.st, closure, start);
      SlotCompose(e, s, nm.st, r, start);
      r
  }

  /** The `: value` of a field and what follows it; `charNr` is after the field name. */
  function AssignmentField(e: Env, s: PState, closure: byte, start: nat): (r: Step)
    requires s.charNr < |e.query| && 7 <= start <= |s.res|
    ensures SlotOk(e, s, r, start)
    decreases |e.query| + 3 - s.charNr, 0
  {
    var p := MightIgnore(e.query, s.charNr);
    var s2 := s.(charNr := p.charNr);
    FailKeeps(e, s, s2, start - 4, ExpectedColon(p.c));
    if p.eof then EOF(e, s2)
    else if p.c != ':' as byte then Fail(e, s2, ExpectedColon(p.c))
    else
      var s3 := Advance(s2, 1);
      var r := AssignmentValue(e, s3, closure, start);
      SlotCompose(e, s, s3, r, start);
      r
  }

  /** The value of a field, with `charNr` after the `:`, and what follows it. */
  function AssignmentValue(e: Env, s: PState, closure: byte, start: nat): (r: Step)
    requires Bounded(e, s) && 7 <= start <= |s.res|
    ensures SlotOk(e, s, r, start)
    decreases |e.query| + 3 - s.charNr, 1
  {
    var v := ParseInputValue(e, s);
    if v.crit then
      ValueInSlot(e, s, v, v, start);
      v
    else
      var r := AssignmentNext(e, v.st, closure, start);
      ValueInSlot(e, s, v, r, start);
      r
  }

  /** A field's value inside a record, followed by what `r` parses after it. */
  lemma ValueInSlot(e: Env, s: PState, v: Step, r: Step, start: nat)
    requires 7 <= start <= |s.res| && ValueOk(e, s, v)
    requires v.crit ==> r == v
    requires !v.crit ==> SlotOk(e, v.st, r, start)
    ensures SlotOk(e, s, r, start)
  {
    KeepsLess(e, s, v.st, |s.res|, start - 4);
    if !v.crit {
      SlotCompose(e, s, v.st, r, start);
    }
  }

  /** After a field: an optional `,`, then `closure` or the next field. */
  function AssignmentNext(e: Env, s: PState, closure: byte, start: nat): (r: Step)
    requires Bounded(e, s) && 7 <= start <= |s.res|
    ensures SlotOk(e, s, r, start) || (r.crit && Keeps(e, s, r.st, start - 4) && |r.st.errors| > |s.errors|)
    decreases |e.query| + 3 - s.charNr, 1
  {
    var p := AfterComma(e.query, MightIgnore(e.query, s.charNr));
    var s1 := s.(charNr := p.charNr);
    if p.eof then EOF(e, s1)
    else if p.c == closure then CloseRecord(e, s1, start)
    else
      var r := AssignmentFields(e, s1, closure, start);
      SlotCompose(e, s, s1, r, start);
      r
  }
}
