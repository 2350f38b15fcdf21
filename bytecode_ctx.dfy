/**
 * `ParserCtx` (bytecode/bytecode.go) as an object: its fields are updated in
 * place by its methods, as in the Go code. The scanning loops
 * (`mightIgnoreNextTokens`, `matches`, `err`, `parseAndWriteName`, the main
 * loop of `ParseQueryToBytecode`), `writeUint32` and the `instruction*`
 * helpers are written as loops and updates here, and each is proved to do
 * what the corresponding function of `BytecodeLexer`, `BytecodeDocument`
 * and `BytecodeQuery` says; the properties proved about those functions
 * hold of the object.
 */
module BytecodeCtx {
  import opened Wrappers
  import opened Bytes
  import opened Errors
  import opened BytecodeInstructions
  import opened BytecodeLexer
  import BytecodeDocument
  import BytecodeQuery

  class ParserCtx {
    var res: seq<byte>
    var fragLocs: seq<int>
    var query: seq<byte>
    var charNr: nat
    var errors: seq<Error>
    var target: seq<byte>
    var hasTarget: bool
    var targetIdx: int
    var hasher: seq<byte> -> u32

    /** The fields a parse updates, as a value. */
    function Snapshot(): PState
      reads this
    {
      PState(res, fragLocs, charNr, errors, targetIdx)
    }

    /** The fields a parse only reads, as a value. */
    function Environment(): Env
      reads this
    {
      Env(query, target, hasTarget, hasher)
    }

    /** Puts a state computed by the model back into the fields. */
    method Restore(st: PState)
      modifies this
      ensures Snapshot() == st && Environment() == old(Environment())
    {
      res, fragLocs, charNr, errors, targetIdx := st.res, st.fragLocs, st.charNr, st.errors, st.targetIdx;
    }

    constructor(query: seq<byte>, hasher: seq<byte> -> u32)
      ensures this.query == query && this.hasher == hasher
      ensures Snapshot() == BytecodeQuery.Start
    {
      this.query := query;
      this.hasher := hasher;
      res, fragLocs, charNr, errors := [], [], 0, [];
      target, hasTarget, targetIdx := [], false, -1;
    }

    // ------------------------------------------------------------ the parse

    /**
     * `ParseQueryToBytecode` (bytecode.go:24-41): the fields are reset,
     * then definitions are parsed until one says stop. The final state is
     * the one `BytecodeQuery.ParseQueryToBytecode` describes.
     */
    method ParseQueryToBytecode(target: Option<seq<byte>>)
      modifies this
      ensures query == old(query) && hasher == old(hasher)
      ensures Environment() == BytecodeQuery.NewEnv(query, target, hasher)
      ensures Snapshot() == BytecodeQuery.ParseQueryToBytecode(query, target, hasher)
    {
      res, fragLocs, errors, targetIdx, charNr := [], [], [], -1, 0;
      this.target := if target.Some? then target.value else [];
      hasTarget := target.Some? && |target.value| > 0;
      assert Environment() == BytecodeQuery.NewEnv(query, target, hasher) && Snapshot() == BytecodeQuery.Start;
      ParseDefinitions();
      ParseIsDocument(query, target, hasher);
    }

    /** The loop of `ParseQueryToBytecode` (bytecode.go:36-40): parse definitions until one says stop. */
    method ParseDefinitions()
      requires Bounded(Environment(), Snapshot())
      modifies this
      ensures Environment() == old(Environment())
      ensures Snapshot() == BytecodeQuery.Document(Environment(), old(Snapshot()))
    {
      ghost var e := Environment();
      while true
        invariant Environment() == e && Bounded(e, Snapshot())
        invariant BytecodeQuery.Document(e, Snapshot()) == BytecodeQuery.Document(e, old(Snapshot()))
        decreases |query| + 3 - charNr
      {
        ghost var before := Snapshot();
        var stop := ParseOperatorOrFragment();
        DocumentStep(e, before, Step(Snapshot(), stop));
        if stop {
          return;
        }
      }
    }

    /**
     * `parseOperatorOrFragment` (bytecode.go:52-198): skip to the first
     * token, then dispatch on `{`, the operation keywords and `fragment`;
     * an operation without a target takes `TargetIdx` before its header is
     * written. The operation's name, arguments, directives and selection
     * set, and the fragment, are taken from the functional model.
     */
    method ParseOperatorOrFragment() returns (stop: bool)
      requires Bounded(Environment(), Snapshot())
      modifies this
      ensures Environment() == old(Environment())
      ensures Step(Snapshot(), stop) == BytecodeDocument.ParseOperatorOrFragment(Environment(), old(Snapshot()))
    {
      var c, eof := MightIgnoreNextTokens();
      if eof {
        return true;
      }
      var operationStartsAt := |res|;
      if c == '{' as byte {
        if !hasTarget {
          targetIdx := operationStartsAt;
        }
        var _ := InstructionNewOperation(OperatorQuery);
        var r := BytecodeDocument.DefinitionBody(Environment(), Snapshot());
        Restore(r.st);
        stop := r.crit;
      } else {
        var matches := Matches(BytecodeDocument.OperationKeywords);
        if matches != -1 {
          if !hasTarget {
            targetIdx := operationStartsAt;
          }
          var r := BytecodeDocument.Operation(Environment(), Snapshot(), BytecodeDocument.OperationKind(matches));
          Restore(r.st);
          stop := r.crit;
        } else {
          var r := BytecodeDocument.FragmentOrFail(Environment(), Snapshot());
          Restore(r.st);
          stop := r.crit;
        }
      }
    }

    // ------------------------------------------------------------ writing

    /** `writeUint32(value, at)` (bytecode.go:43-48): the four bytes at `at`, least significant first. */
    method WriteUint32(value: u32, at: nat)
      requires at + 4 <= |res|
      modifies this
      ensures res == WithUint32At(old(res), at, value)
      ensures Snapshot() == old(Snapshot()).(res := res) && Environment() == old(Environment())
    {
      res := res[at := (value % 256) as byte];
      res := res[at + 1 := ((value / 256) % 256) as byte];
      res := res[at + 2 := ((value / 65536) % 256) as byte];
      res := res[at + 3 := (value / 16777216) as byte];
      assert res == old(res)[..at] + Le32(value) + old(res)[at + 4..];
    }

    /** `instructionNewOperation(kind)`: appends an operation header and returns where it starts. */
    method InstructionNewOperation(kind: byte) returns (start: nat)
      modifies this
      ensures res == old(res) + OperationHeader(kind) && start == |old(res)|
      ensures Snapshot() == old(Snapshot()).(res := res) && Environment() == old(Environment())
    {
      start := |res|;
      res := res + [0, ActionOperator, kind, 'f' as byte, 0];
    }

    /** `instructionNewOperationArgs`. */
    method InstructionNewOperationArgs()
      modifies this
      ensures res == old(res) + OperationArgsHeader
      ensures Snapshot() == old(Snapshot()).(res := res) && Environment() == old(Environment())
    {
      res := res + [0, ActionOperatorArgs];
    }

    /** `instructionNewOperationArg`: returns the index of the first byte of its length slot. */
    method InstructionNewOperationArg() returns (slot: nat)
      modifies this
      ensures res == old(res) + OperationArgHeader && slot == |res| - 4
      ensures Snapshot() == old(Snapshot()).(res := res) && Environment() == old(Environment())
    {
      res := res + [0, ActionOperatorArg, 0, 0, 0, 0];
      slot := |res| - 4;
    }

    /** `instructionNewFragment`: returns where the record starts. */
    method InstructionNewFragment() returns (start: nat)
      modifies this
      ensures res == old(res) + FragmentHeader && start == |old(res)|
      ensures Snapshot() == old(Snapshot()).(res := res) && Environment() == old(Environment())
    {
      start := |res|;
      res := res + [0, ActionFragment];
    }

    /** `instructionNewField`, as bytecode_instructions.go writes it (seven bytes). */
    method InstructionNewField()
      modifies this
      ensures res == old(res) + FieldHeaderAsWritten
      ensures Snapshot() == old(Snapshot()).(res := res) && Environment() == old(Environment())
    {
      res := res + [0, ActionField, 0, 0, 0, 0, 0];
    }

    /** `instructionNewFragmentSpread(isInline)`, as bytecode_instructions.go writes it (four bytes). */
    method InstructionNewFragmentSpread(isInline: bool)
      modifies this
      ensures res == old(res) + SpreadHeaderAsWritten(isInline)
      ensures Snapshot() == old(Snapshot()).(res := res) && Environment() == old(Environment())
    {
      if isInline {
        res := res + [0, ActionSpread, 't' as byte, 0];
      } else {
        res := res + [0, ActionSpread, 'f' as byte, 0];
      }
    }

    /** `instructionNewDirective`. */
    method InstructionNewDirective()
      modifies this
      ensures res == old(res) + DirectiveHeader
      ensures Snapshot() == old(Snapshot()).(res := res) && Environment() == old(Environment())
    {
      res := res + [0, ActionDirective, 'f' as byte];
    }

    /**
     * The value headers `instructionNewValueObject`, `...List`, `...Null`,
     * `...Enum`, `...Variable`, `...Int` and `...String`: `0 v kind` and an
     * empty length slot.
     */
    method InstructionNewValue(kind: byte)
      requires kind in {ValueObject, ValueList, ValueNull, ValueEnum, ValueVariable, ValueInt, ValueString}
      modifies this
      ensures res == old(res) + ValueHeader(kind)
      ensures Snapshot() == old(Snapshot()).(res := res) && Environment() == old(Environment())
    {
      res := res + [0, ActionValue, kind, 0, 0, 0, 0];
    }

    /** `instructionNewValueBoolean(val)`: a complete one-byte value `'1'` or `'0'`. */
    method InstructionNewValueBoolean(val: bool)
      modifies this
      ensures res == old(res) + BooleanValue(val)
      ensures Snapshot() == old(Snapshot()).(res := res) && Environment() == old(Environment())
    {
      if val {
        res := res + [0, ActionValue, ValueBoolean, 1, 0, 0, 0, '1' as byte];
      } else {
        res := res + [0, ActionValue, ValueBoolean, 1, 0, 0, 0, '0' as byte];
      }
    }

    /** `instructionStartNewValueObjectField`. */
    method InstructionStartNewValueObjectField()
      modifies this
      ensures res == old(res) + ObjectValueFieldHeader
      ensures Snapshot() == old(Snapshot()).(res := res) && Environment() == old(Environment())
    {
      res := res + [0, ActionObjectValueField];
    }

    /** `instructionEnd`. */
    method InstructionEnd()
      modifies this
      ensures res == old(res) + End
      ensures Snapshot() == old(Snapshot()).(res := res) && Environment() == old(Environment())
    {
      res := res + [0, ActionEnd];
    }

    // ------------------------------------------------------------ ignored tokens

    /** `isLineTerminator` (bytecode.go:1106-1119). */
    method IsLineTerminator() returns (r: bool)
      requires charNr < |query|
      modifies this
      ensures Snapshot() == old(Snapshot()).(charNr := charNr) && Environment() == old(Environment())
      ensures (r, charNr) == LineTerminator(query, old(charNr))
    {
      var c := query[charNr];
      if c == '\n' as byte {
        return true;
      }
      if c == '\r' as byte {
        if charNr + 1 < |query| && query[charNr + 1] == '\n' as byte {
          charNr := charNr + 1;
        }
        return true;
      }
      return false;
    }

    /** `parseComment` (bytecode.go:1133-1143). */
    method ParseComment()
      requires charNr <= |query|
      modifies this
      ensures Snapshot() == old(Snapshot()).(charNr := charNr) && Environment() == old(Environment())
      ensures charNr == BytecodeLexer.ParseComment(query, old(charNr))
    {
      ghost var start := charNr;
      while true
        invariant charNr <= |query| && Environment() == old(Environment())
        invariant Snapshot() == old(Snapshot()).(charNr := charNr)
        invariant BytecodeLexer.ParseComment(query, charNr) == BytecodeLexer.ParseComment(query, start)
        decreases |query| - charNr
      {
        if charNr >= |query| {
          return;
        }
        var lt := IsLineTerminator();
        if lt {
          return;
        }
        charNr := charNr + 1;
      }
    }

    /** `isIgnoredToken(c)` (bytecode.go:1101-1104), with the side effects of its `||` operands. */
    method IsIgnoredToken(c: byte) returns (r: bool)
      requires charNr < |query| && c == query[charNr]
      modifies this
      ensures Snapshot() == old(Snapshot()).(charNr := charNr) && Environment() == old(Environment())
      ensures (r, charNr) == IgnoredToken(query, old(charNr))
    {
      if c == ' ' as byte || c == '\t' as byte {
        return true;
      }
      r := IsLineTerminator();
      if r {
        return;
      }
      if c == '#' as byte {
        ParseComment();
        return true;
      }
      return c == 0;
    }

    /** `mightIgnoreNextTokens` (bytecode.go:1080-1094). */
    method MightIgnoreNextTokens() returns (nextC: byte, eof: bool)
      requires charNr <= |query| + 3
      modifies this
      ensures Snapshot() == old(Snapshot()).(charNr := charNr) && Environment() == old(Environment())
      ensures Peek(nextC, eof, charNr) == MightIgnore(query, old(charNr))
    {
      while true
        invariant charNr <= |query| + 3 && Environment() == old(Environment())
        invariant Snapshot() == old(Snapshot()).(charNr := charNr)
        invariant MightIgnore(query, charNr) == MightIgnore(query, old(charNr))
        decreases |query| + 3 - charNr
      {
        if charNr >= |query| {
          return 0, true;
        }
        var c := query[charNr];
        var ignored := IsIgnoredToken(c);
        if !ignored {
          return c, false;
        }
        charNr := charNr + 1;
      }
    }

    // ------------------------------------------------------------ keywords

    /**
     * `matches(oneOf...)` (bytecode.go:1164-1221): byte by byte, keys that
     * disagree are blanked out and the first key to be complete wins; on
     * no match `charNr` goes back to where it was.
     */
    method Matches(oneOf: seq<seq<byte>>) returns (idx: int)
      requires |oneOf| >= 1 && forall j :: 0 <= j < |oneOf| ==> |oneOf[j]| > 0
      requires charNr <= |query| + 3
      modifies this
      ensures Snapshot() == old(Snapshot()).(charNr := charNr) && Environment() == old(Environment())
      ensures (idx, charNr) == BytecodeLexer.Matches(query, old(charNr), oneOf)
    {
      if |oneOf| == 1 {
        idx := MatchesOne(oneOf);
      } else {
        idx := MatchesAny(oneOf);
      }
    }

    /** The path of `matches` for a single key (bytecode.go:1167-1187). */
    method MatchesOne(oneOf: seq<seq<byte>>) returns (idx: int)
      requires |oneOf| == 1 && |oneOf[0]| > 0
      requires charNr <= |query| + 3
      modifies this
      ensures Snapshot() == old(Snapshot()).(charNr := charNr) && Environment() == old(Environment())
      ensures (idx, charNr) == BytecodeLexer.Matches(query, old(charNr), oneOf)
    {
      var startIdx := charNr;
      while true
        invariant Agrees(query, startIdx, charNr, oneOf[0])
        invariant Snapshot() == old(Snapshot()).(charNr := charNr) && Environment() == old(Environment())
        decreases |query| + 3 - charNr
      {
        if charNr >= |query| {
          AtEnd(query, startIdx, charNr, oneOf[0]);
          charNr := startIdx;
          return -1;
        }
        var c := query[charNr];
        var offset := charNr - startIdx;
        var keyLen := |oneOf[0]|;
        if oneOf[0][offset] != c {
          Mismatch(query, startIdx, charNr, oneOf[0]);
          charNr := startIdx;
          return -1;
        } else if keyLen == offset + 1 {
          Completes(query, startIdx, charNr, oneOf[0]);
          MatchIndexIs(query, startIdx, oneOf, 0);
          charNr := charNr + 1;
          return 0;
        }
        charNr := charNr + 1;
      }
    }

    /** The path of `matches` for several keys (bytecode.go:1189-1220). */
    method MatchesAny(oneOf: seq<seq<byte>>) returns (idx: int)
      requires |oneOf| >= 1 && forall j :: 0 <= j < |oneOf| ==> |oneOf[j]| > 0
      requires charNr <= |query| + 3
      modifies this
      ensures Snapshot() == old(Snapshot()).(charNr := charNr) && Environment() == old(Environment())
      ensures (idx, charNr) == BytecodeLexer.Matches(query, old(charNr), oneOf)
    {
      var startIdx := charNr;
      var keys := oneOf;
      var lastChecked: seq<byte> := [];
      while true
        invariant startIdx <= charNr <= |query| + 3 && |keys| == |oneOf|
        invariant forall j :: 0 <= j < |keys| ==> keys[j] == oneOf[j] || keys[j] == []
        invariant forall j :: 0 <= j < |keys| && keys[j] == [] ==> !OccursAt(query, startIdx, oneOf[j])
        invariant forall j :: 0 <= j < |keys| && keys[j] != [] ==> Agrees(query, startIdx, charNr, oneOf[j])
        invariant Snapshot() == old(Snapshot()).(charNr := charNr) && Environment() == old(Environment())
        decreases |query| + 3 - charNr
      {
        if charNr >= |query| {
          forall j | 0 <= j < |keys| && keys[j] != []
            ensures !OccursAt(query, startIdx, oneOf[j])
          {
            AtEnd(query, startIdx, charNr, oneOf[j]);
          }
          charNr := startIdx;
          return -1;
        }
        var c := query[charNr];
        var offset := charNr - startIdx;
        var i := 0;
        ghost var before := keys;
        while i < |keys|
          invariant 0 <= i <= |keys| == |oneOf| && charNr == startIdx + offset < |query|
          invariant Snapshot() == old(Snapshot()).(charNr := charNr) && Environment() == old(Environment())
          invariant forall j :: 0 <= j < |keys| ==> keys[j] == oneOf[j] || keys[j] == []
          invariant forall j :: 0 <= j < |keys| && keys[j] == [] ==> !OccursAt(query, startIdx, oneOf[j])
          invariant forall j :: i <= j < |keys| ==> keys[j] == before[j]
          invariant forall j :: i <= j < |keys| && keys[j] != [] ==> Agrees(query, startIdx, charNr, oneOf[j])
          invariant forall j :: 0 <= j < i && keys[j] != [] ==> Agrees(query, startIdx, charNr + 1, oneOf[j]) && lastChecked != []
        {
          var key := keys[i];
          var keyLen := |key|;
          if offset < keyLen {
            if key[offset] != c {
              Mismatch(query, startIdx, charNr, oneOf[i]);
              keys := keys[i := []];
            } else if keyLen == offset + 1 {
              Completes(query, startIdx, charNr, oneOf[i]);
              FirstComplete(query, startIdx, charNr, oneOf, keys, i);
              charNr := charNr + 1;
              return i;
            } else {
              Extend(query, startIdx, charNr, oneOf[i]);
              lastChecked := key;
            }
          }
          i := i + 1;
        }
        if lastChecked == [] {
          charNr := startIdx;
          return -1;
        }
        charNr := charNr + 1;
      }
    }

    /** `matchesWord(oneOf...)` (bytecode.go:1145-1162): a match followed by a name byte is undone. */
    method MatchesWord(oneOf: seq<seq<byte>>) returns (idx: int)
      requires |oneOf| >= 1 && forall j :: 0 <= j < |oneOf| ==> |oneOf[j]| > 0
      requires charNr <= |query| + 3
      modifies this
      ensures Snapshot() == old(Snapshot()).(charNr := charNr) && Environment() == old(Environment())
      ensures (idx, charNr) == BytecodeLexer.MatchesWord(query, old(charNr), oneOf)
    {
      var startIdx := charNr;
      var m := Matches(oneOf);
      if m == -1 {
        return -1;
      }
      if charNr >= |query| {
        return m;
      }
      var c := query[charNr];
      if IsNameChar(c) {
        charNr := startIdx;
        return -1;
      }
      return m;
    }

    // ------------------------------------------------------------ errors

    /**
     * `err(msg)` (bytecode.go:1233-1263): count lines and the column up to
     * `charNr`, append one `ErrorWLocation` and report a critical error.
     */
    method Err(msg: ParseMsg) returns (critical: bool)
      modifies this
      ensures critical
      ensures Snapshot() == BytecodeLexer.Err(Environment(), old(Snapshot()), msg)
      ensures Environment() == old(Environment())
    {
      var line: nat := 1;
      var column: nat := 0;
      var idx := 0;
      while idx < |query| && idx != charNr
        invariant 0 <= idx <= Min(charNr, |query|)
        invariant line == 1 + LinesBefore(query, idx) && column == ColumnBefore(query, idx)
      {
        var b := query[idx];
        if b == '\n' as byte {
          if column == 0 && idx > 0 && query[idx - 1] == '\r' as byte {
            // a CR LF pair counts as one line break
          } else {
            line, column := line + 1, 0;
          }
        } else if b == '\r' as byte {
          line, column := line + 1, 0;
        } else {
          column := column + 1;
        }
        idx := idx + 1;
      }
      errors := errors + [ErrorWLocation(msg, line, column)];
      return true;
    }

    /** `unexpectedEOF` (bytecode.go:1265-1268). */
    method UnexpectedEOF() returns (critical: bool)
      modifies this
      ensures critical && Snapshot() == BytecodeLexer.UnexpectedEOF(Environment(), old(Snapshot()))
      ensures Environment() == old(Environment())
    {
      critical := Err(UnexpectedEnd);
    }

    // ------------------------------------------------------------ names

    /** `parseAndWriteName` (bytecode.go:1270-1302). */
    method ParseAndWriteName() returns (nameLength: nat, criticalError: bool)
      requires charNr <= |query| + 3
      modifies this
      ensures Environment() == old(Environment())
      ensures CountStep(Snapshot(), nameLength, criticalError) == BytecodeLexer.ParseAndWriteName(Environment(), old(Snapshot()))
    {
      ghost var s := Snapshot();
      ghost var e := Environment();
      if charNr >= |query| {
        criticalError := UnexpectedEOF();
        NameAtEnd(e, s);
        return 0, criticalError;
      }
      var c := query[charNr];
      if !IsNameStart(c) {
        NoName(e, s);
        return 0, false;
      }
      res := res + [c];
      charNr := charNr + 1;
      assert query[s.charNr..s.charNr + 1] == [c];
      nameLength := CopyNameRest(s);
      ghost var copied := Snapshot();
      NameCopied(e, s, nameLength);
      WriteNameCases(e, s, nameLength, copied);
      if nameLength == 255 {
        criticalError := Err(NameTooLong);
      } else if charNr >= |query| {
        criticalError := UnexpectedEOF();
      } else {
        criticalError := false;
      }
    }

    /**
     * The loop of `parseAndWriteName` (bytecode.go:1287-1301) after the first
     * byte: copy name bytes until there are 255 of them, the input ends or a
     * byte cannot continue a name.
     */
    method CopyNameRest(ghost s: PState) returns (nameLength: nat)
      requires s.charNr < |query| && IsNameStart(query[s.charNr])
      requires res == s.res + [query[s.charNr]] && charNr == s.charNr + 1
      requires Snapshot() == s.(res := res, charNr := charNr)
      modifies this
      ensures Environment() == old(Environment())
      ensures 1 <= nameLength <= 255 && s.charNr + nameLength <= |query|
      ensures forall i :: s.charNr + 1 <= i < s.charNr + nameLength ==> IsNameChar(query[i])
      ensures nameLength == 255 || s.charNr + nameLength == |query| || !IsNameChar(query[s.charNr + nameLength])
      ensures Snapshot() == s.(res := s.res + query[s.charNr..s.charNr + nameLength], charNr := s.charNr + nameLength)
    {
      var q, k, copied := query, charNr - 1, res;
      nameLength := 1;
      assert q[k..k + 1] == [q[k]];
      while nameLength < 255 && k + nameLength < |q| && IsNameChar(q[k + nameLength])
        invariant 1 <= nameLength <= 255 && k + nameLength <= |q| && unchanged(this)
        invariant copied == s.res + q[k..k + nameLength]
        invariant forall i :: k + 1 <= i < k + nameLength ==> IsNameChar(q[i])
        decreases 255 - nameLength
      {
        SliceGrows(q, k, k + nameLength);
        copied := copied + [q[k + nameLength]];
        nameLength := nameLength + 1;
      }
      res, charNr := copied, k + nameLength;
    }
  }

  /** A slice grows by the byte after it. */
  lemma SliceGrows(q: seq<byte>, lo: nat, hi: nat)
    requires lo <= hi < |q|
    ensures q[lo..hi + 1] == q[lo..hi] + [q[hi]]
  {
  }

  /** The parse is the document read from the start state. */
  lemma ParseIsDocument(query: seq<byte>, target: Option<seq<byte>>, hasher: seq<byte> -> u32)
    ensures BytecodeQuery.ParseQueryToBytecode(query, target, hasher)
      == BytecodeQuery.Document(BytecodeQuery.NewEnv(query, target, hasher), BytecodeQuery.Start)
  {
  }

  /** One turn of the loop of `ParseQueryToBytecode`: it stops with the document's result, or goes forward to the same result. */
  lemma DocumentStep(e: Env, s: PState, d: Step)
    requires Bounded(e, s) && d == BytecodeDocument.ParseOperatorOrFragment(e, s)
    ensures d.crit ==> BytecodeQuery.Document(e, s) == d.st
    ensures !d.crit ==> Bounded(e, d.st) && s.charNr < d.st.charNr
    ensures !d.crit ==> BytecodeQuery.Document(e, s) == BytecodeQuery.Document(e, d.st)
  {
  }

  /** `parseAndWriteName` at the end of input. */
  lemma NameAtEnd(e: Env, s: PState)
    requires |e.query| <= s.charNr <= |e.query| + 3
    ensures BytecodeLexer.ParseAndWriteName(e, s) == CountStep(UnexpectedEOF(e, s), 0, true)
  {
  }

  /** `parseAndWriteName` on a byte that cannot start a name. */
  lemma NoName(e: Env, s: PState)
    requires s.charNr < |e.query| && !IsNameStart(e.query[s.charNr])
    ensures BytecodeLexer.ParseAndWriteName(e, s) == CountStep(s, 0, false)
  {
  }

  /** `parseAndWriteName` once its loop has copied `n` bytes: the outcome `WriteName` describes. */
  lemma NameCopied(e: Env, s: PState, n: nat)
    requires s.charNr < |e.query| && IsNameStart(e.query[s.charNr])
    requires 1 <= n <= 255 && s.charNr + n <= |e.query|
    requires forall i :: s.charNr + 1 <= i < s.charNr + n ==> IsNameChar(e.query[i])
    requires n == 255 || s.charNr + n == |e.query| || !IsNameChar(e.query[s.charNr + n])
    ensures BytecodeLexer.ParseAndWriteName(e, s) == WriteName(e, s, n)
  {
    NameRunIs(e.query, s.charNr, n);
  }

  /** The three outcomes of `WriteName`. */
  lemma WriteNameCases(e: Env, s: PState, n: nat, t: PState)
    requires s.charNr < |e.query| && IsNameStart(e.query[s.charNr])
    requires 1 <= n <= 255 && s.charNr + n <= |e.query|
    requires forall i :: s.charNr + 1 <= i < s.charNr + n ==> IsNameChar(e.query[i])
    requires n < 255 && s.charNr + n < |e.query| ==> !IsNameChar(e.query[s.charNr + n])
    requires t == s.(res := s.res + e.query[s.charNr..s.charNr + n], charNr := s.charNr + n)
    ensures n == 255 ==> WriteName(e, s, n) == CountStep(Err(e, t, NameTooLong), n, true)
    ensures n < 255 && t.charNr >= |e.query| ==> WriteName(e, s, n) == CountStep(UnexpectedEOF(e, t), n, true)
    ensures n < 255 && t.charNr < |e.query| ==> WriteName(e, s, n) == CountStep(t, n, false)
  {
    assert Advance(Append(s, e.query[s.charNr..s.charNr + n]), n) == t;
  }

  /** A run of name bytes after the first that stops where `NameRun` stops is the run `NameRun` measures. */
  lemma {:induction false} NameRunIs(q: seq<byte>, k: nat, n: nat)
    requires 1 <= n <= 255 && k + n <= |q|
    requires forall i :: k + 1 <= i < k + n ==> IsNameChar(q[i])
    requires n == 255 || k + n == |q| || !IsNameChar(q[k + n])
    ensures NameRun(q, k, 1) == n
  {
    var m := 1;
    while m < n
      invariant 1 <= m <= n && NameRun(q, k, m) == NameRun(q, k, 1)
    {
      assert IsNameChar(q[k + m]);
      m := m + 1;
    }
  }

  // ---------------------------------------------------------------- lemmas for `matches`

  /** The input agrees with `key` from `start` up to `upTo`, and `key` is longer than that. */
  predicate Agrees(q: seq<byte>, start: nat, upTo: nat, key: seq<byte>)
  {
    start <= upTo && upTo - start < |key| && (upTo > start ==> upTo <= |q|)
    && forall k :: start <= k < upTo ==> q[k] == key[k - start]
  }

  /** A key longer than what is left of the input does not occur. */
  lemma AtEnd(q: seq<byte>, start: nat, upTo: nat, key: seq<byte>)
    requires Agrees(q, start, upTo, key) && upTo >= |q|
    ensures !OccursAt(q, start, key)
  {
  }

  /** A key that disagrees with the input at `k` does not occur. */
  lemma Mismatch(q: seq<byte>, start: nat, k: nat, key: seq<byte>)
    requires Agrees(q, start, k, key) && k < |q| && q[k] != key[k - start]
    ensures !OccursAt(q, start, key)
  {
  }

  /** A key that agrees up to its last byte, and on that byte, occurs. */
  lemma Completes(q: seq<byte>, start: nat, k: nat, key: seq<byte>)
    requires Agrees(q, start, k, key) && k < |q| && q[k] == key[k - start] && |key| == k - start + 1
    ensures OccursAt(q, start, key)
  {
    assert q[start..k + 1] == key;
  }

  /** A longer key that agrees on one more byte still agrees. */
  lemma Extend(q: seq<byte>, start: nat, k: nat, key: seq<byte>)
    requires Agrees(q, start, k, key) && k < |q| && q[k] == key[k - start] && |key| > k - start + 1
    ensures Agrees(q, start, k + 1, key)
  {
  }

  /**
   * The first key (in list order) to be complete at position `k` is the
   * match: every key before it still alive is longer, every key after it at
   * least as long, and the blanked keys do not occur.
   */
  lemma FirstComplete(q: seq<byte>, start: nat, k: nat, oneOf: seq<seq<byte>>, keys: seq<seq<byte>>, i: nat)
    requires i < |keys| == |oneOf| && OccursAt(q, start, oneOf[i]) && |oneOf[i]| == k - start + 1
    requires forall j :: 0 <= j < |keys| && keys[j] == [] ==> !OccursAt(q, start, oneOf[j])
    requires forall j :: i <= j < |keys| && keys[j] != [] ==> Agrees(q, start, k, oneOf[j])
    requires forall j :: 0 <= j < i && keys[j] != [] ==> Agrees(q, start, k + 1, oneOf[j])
    ensures MatchIndex(q, start, oneOf) == i
  {
    forall j | 0 <= j < |oneOf| && OccursAt(q, start, oneOf[j])
      ensures Preferred(oneOf, i, j)
    {
      if j < i {
        assert Agrees(q, start, k + 1, oneOf[j]);
      } else if j > i {
        assert Agrees(q, start, k, oneOf[j]);
      }
    }
    MatchIndexIs(q, start, oneOf, i);
  }

  /** `MatchIndex` is the key that occurs and is preferred over every other that does. */
  lemma MatchIndexIs(q: seq<byte>, start: nat, keys: seq<seq<byte>>, i: nat)
    requires i < |keys| && OccursAt(q, start, keys[i])
    requires forall j :: 0 <= j < |keys| && OccursAt(q, start, keys[j]) ==> Preferred(keys, i, j)
    ensures MatchIndex(q, start, keys) == i
  {
    var m := MatchIndex(q, start, keys);
    assert Preferred(keys, m, i) && Preferred(keys, i, m);
  }
}
