/**
 * The layout a selection parses into (bytecode/bytecode.go:413-603): every
 * selection that parses leaves exactly one complete field record or spread
 * record behind, whatever comes inside it. Each lemma follows the branches
 * of one function of `BytecodeSelections`.
 */
module BytecodeLayout {
  import opened Bytes
  import opened BytecodeInstructions
  import opened BytecodeLexer
  import opened BytecodeValues
  import opened BytecodeParser
  import opened BytecodeRecords
  import opened BytecodeSelections

  /** A selection that parses is one field record or one spread record, starting where `Res` ended. */
  lemma SelectionLayout(e: Env, s: PState)
    requires s.charNr < |e.query|
    ensures var r := Selection(e, s);
      !r.crit ==> FieldRecord(e.hasher, r.st.res, |s.res|, |r.st.res|) || SpreadRecord(r.st.res, |s.res|, |r.st.res|)
  {
    var at := |s.res|;
    var s1 := Append(s, FieldHeader + [0]);
    var nm := ParseAndWriteName(e, s1);
    if !nm.crit {
      if nm.n == 0 {
        var s2 := nm.st.(res := nm.st.res[..|nm.st.res| - 12]);
        assert s2.res == s.res;
        SpreadOrFailLayout(e, s2);
      } else {
        var name := e.query[s.charNr..s.charNr + nm.n];
        assert nm.st.res == s.res + (FieldHeader + [0]) + name;
        var t := nm.st.(res := nm.st.res[at + 11 := nm.n as byte]);
        NamedFieldHead(s.res, name, t.res);
        FieldRestLayout(e, t, at);
      }
    }
  }

  lemma SpreadOrFailLayout(e: Env, s: PState)
    requires s.charNr < |e.query|
    ensures var r := SpreadOrFail(e, s); !r.crit ==> SpreadRecord(r.st.res, |s.res|, |r.st.res|)
  {
    var m := Matches(e.query, s.charNr, [Str("...")]);
    if m.0 == 0 {
      SpreadLayout(e, s.(charNr := m.1));
    }
  }

  // ---------------------------------------------------------------- fields

  lemma FieldRestLayout(e: Env, t: PState, at: nat)
    requires t.charNr < |e.query| && FieldHead(t.res, at)
    ensures var r := FieldRest(e, t, at); !r.crit ==> FieldRecord(e.hasher, r.st.res, at, |r.st.res|)
  {
    var p := MightIgnore(e.query, t.charNr);
    var t0 := t.(charNr := p.charNr);
    if !p.eof {
      var t1 := Append(t0, [0]);
      if p.c == ':' as byte {
        var t2 := Advance(t1, 1);
        assert t2.res[..|t1.res| - 1] == t.res;
        FieldAliasLayout(e, t2, at, FieldRest(e, t, at));
      } else {
        var n1 := t1.res[at + 11] as nat;
        var t2 := t1.(res := WithUint32At(t1.res, at + 7, e.hasher(t1.res[at + 12..at + 12 + n1])));
        PlainFieldNames(e.hasher, t.res, at, t2.res);
        FieldBodyLayout(e, t2, at, |t2.res|);
      }
    }
  }

  lemma FieldAliasLayout(e: Env, t: PState, at: nat, r: Step)
    requires 0 < t.charNr <= |e.query| && 1 <= |t.res| && FieldHead(t.res[..|t.res| - 1], at)
    requires at + 14 <= |t.res| && t.res[at + 11] as nat == |t.res| - (at + 13)
    requires r == FieldAlias(e, t, at)
    ensures !r.crit ==> FieldRecord(e.hasher, r.st.res, at, |r.st.res|)
  {
    var p := MightIgnore(e.query, t.charNr);
    if !p.eof {
      var nm := ParseAndWriteName(e, t.(charNr := p.charNr));
      assert r == AliasTargetRead(e, t, at, nm);
      if !nm.crit && nm.n > 0 {
        var name := NameWritten(e, t, p.charNr, nm);
        AliasTargetLayout(e, t, at, nm, name, r);
      }
    }
  }

  /** What a nonempty name read from `from` without error leaves behind. */
  lemma NameWritten(e: Env, t: PState, from: nat, nm: CountStep) returns (name: seq<byte>)
    requires t.charNr <= from <= |e.query| && nm == ParseAndWriteName(e, t.(charNr := from)) && !nm.crit && nm.n > 0
    ensures Keeps(e, t, nm.st, |t.res|) && nm.st.charNr < |e.query|
    ensures nm.n == |name| && |name| <= 255 && IsName(name) && nm.st.res == t.res + name
  {
    var s := t.(charNr := from);
    assert s.res == t.res;
    name := e.query[from..from + nm.n];
  }

  /**
   * `AliasTargetRead` once a nonempty target name was read: the name follows
   * its length byte and the rest of the record is laid out by `AliasHash`.
   */
  lemma AliasTargetLayout(e: Env, t: PState, at: nat, nm: CountStep, name: seq<byte>, r: Step)
    requires 0 < t.charNr <= |e.query| && 1 <= |t.res| && FieldHead(t.res[..|t.res| - 1], at)
    requires at + 14 <= |t.res| && t.res[at + 11] as nat == |t.res| - (at + 13)
    requires Keeps(e, t, nm.st, |t.res|) && !nm.crit && nm.st.charNr < |e.query|
    requires nm.n == |name| && 0 < |name| <= 255 && IsName(name) && nm.st.res == t.res + name
    requires r == AliasTargetRead(e, t, at, nm)
    ensures !r.crit ==> FieldRecord(e.hasher, r.st.res, at, |r.st.res|)
  {
    var lenAt := |t.res| - 1;
    var t1 := nm.st.(res := nm.st.res[lenAt := nm.n as byte]);
    AliasReadStep(e, t, at, nm, t1, r);
    AliasHead(t.res, at, name, lenAt, t1.res);
    AliasHashLayout(e, t1, at, lenAt, r);
  }

  /** Once a nonempty target name is read, what follows is `AliasHash` with the alias length byte set. */
  lemma AliasReadStep(e: Env, t: PState, at: nat, nm: CountStep, t1: PState, r: Step)
    requires 0 < t.charNr <= |e.query| && at + 14 <= |t.res| && t.res[at + 11] as nat == |t.res| - (at + 13)
    requires Keeps(e, t, nm.st, |t.res|) && !nm.crit && 0 < nm.n <= 255
    requires nm.st.charNr < |e.query| && |nm.st.res| == |t.res| + nm.n
    requires t1 == nm.st.(res := nm.st.res[|t.res| - 1 := nm.n as byte]) && r == AliasTargetRead(e, t, at, nm)
    ensures r == AliasHash(e, t1, at, |t.res| - 1)
  {
  }

  /** The field head is kept and the alias name follows its length byte. */
  lemma AliasHead(res: seq<byte>, at: nat, name: seq<byte>, lenAt: nat, r: seq<byte>)
    requires lenAt + 1 == |res| && FieldHead(res[..lenAt], at) && at + 14 <= |res|
    requires 0 < |name| <= 255 && IsName(name) && r == (res + name)[lenAt := |name| as byte]
    ensures at + 13 <= lenAt < |r| && FieldHead(r[..lenAt], at)
    ensures r[lenAt] as nat == |r| - (lenAt + 1) && IsName(r[lenAt + 1..])
  {
    AliasNamed(res, name, lenAt, r);
    assert r[..lenAt] == res[..lenAt];
  }

  lemma AliasHashLayout(e: Env, t: PState, at: nat, lenAt: nat, r: Step)
    requires t.charNr < |e.query| && at + 13 <= lenAt < |t.res| && FieldHead(t.res[..lenAt], at)
    requires t.res[lenAt] as nat == |t.res| - (lenAt + 1) && IsName(t.res[lenAt + 1..])
    requires r == AliasHash(e, t, at, lenAt)
    ensures !r.crit ==> FieldRecord(e.hasher, r.st.res, at, |r.st.res|)
  {
    var p := MightIgnore(e.query, t.charNr);
    var t2 := t.(charNr := p.charNr);
    if !p.eof {
      var t3 := t2.(res := WithUint32At(t2.res, at + 7, e.hasher(t2.res[lenAt + 1..])));
      AliasFieldNames(e.hasher, t.res, at, lenAt, t3.res);
      FieldBodyLayout(e, t3, at, |t3.res|);
    }
  }

  lemma FieldBodyLayout(e: Env, t: PState, at: nat, mark: nat)
    requires t.charNr < |e.query| && FieldNames(e.hasher, t.res, at, mark)
    ensures var r := FieldBody(e, t, at); !r.crit ==> FieldRecord(e.hasher, r.st.res, at, |r.st.res|)
  {
    if e.query[t.charNr] == '@' as byte {
      var d := ParseDirectives(e, t);
      FieldNamesPrefix(e.hasher, t.res, d.st.res, at, mark);
      FieldNamesCount(e.hasher, d.st.res, at, mark, d.n as byte);
      if !d.crit {
        FieldArgsLayout(e, d.st.(res := d.st.res[at + 2 := d.n as byte]), at, mark);
      }
    } else {
      FieldArgsLayout(e, t, at, mark);
    }
  }

  lemma FieldArgsLayout(e: Env, t: PState, at: nat, mark: nat)
    requires t.charNr < |e.query| && FieldNames(e.hasher, t.res, at, mark)
    ensures var r := FieldArgs(e, t, at); !r.crit ==> FieldRecord(e.hasher, r.st.res, at, |r.st.res|)
  {
    if e.query[t.charNr] == '(' as byte {
      assert FieldArgs(e, t, at) == FieldParen(e, t, at);
      FieldParenLayout(e, t, at, mark);
    } else {
      assert FieldArgs(e, t, at) == FieldSelection(e, t, at);
      FieldSelectionLayout(e, t, at, mark);
    }
  }

  lemma FieldParenLayout(e: Env, t: PState, at: nat, mark: nat)
    requires t.charNr < |e.query| && FieldNames(e.hasher, t.res, at, mark)
    ensures var r := FieldParen(e, t, at); !r.crit ==> FieldRecord(e.hasher, r.st.res, at, |r.st.res|)
  {
    var p := MightIgnore(e.query, t.charNr + 1);
    if !p.eof {
      ParenArgs(e, t, at, p);
      FieldArgumentsLayout(e, t.(charNr := p.charNr), at, mark);
    } else {
      ParenEof(e, t, at);
    }
  }

  /** `FieldParen` followed by the end of input fails. */
  lemma ParenEof(e: Env, t: PState, at: nat)
    requires t.charNr < |e.query| && at + 13 <= |t.res|
    requires MightIgnore(e.query, t.charNr + 1).eof
    ensures FieldParen(e, t, at).crit
  {
  }

  /** `FieldParen`: the arguments after the ignored tokens. */
  lemma ParenArgs(e: Env, t: PState, at: nat, p: Peek)
    requires t.charNr < |e.query| && at + 13 <= |t.res|
    requires p == MightIgnore(e.query, t.charNr + 1) && !p.eof
    ensures FieldParen(e, t, at) == FieldArguments(e, t.(charNr := p.charNr), at)
  {
    assert !MightIgnore(e.query, t.charNr + 1).eof;
  }

  lemma FieldArgumentsLayout(e: Env, t: PState, at: nat, mark: nat)
    requires t.charNr < |e.query| && FieldNames(e.hasher, t.res, at, mark)
    ensures var r := FieldArguments(e, t, at); !r.crit ==> FieldRecord(e.hasher, r.st.res, at, |r.st.res|)
  {
    var a := ParseAssignmentSet(e, t, ')' as byte);
    if !a.crit {
      var p := MightIgnore(e.query, a.st.charNr);
      var t3 := a.st.(charNr := p.charNr);
      if !p.eof {
        FieldNamesPrefix(e.hasher, t.res, t3.res, at, mark);
        FieldSelectionLayout(e, t3, at, mark);
      }
    }
  }

  lemma FieldSelectionLayout(e: Env, t: PState, at: nat, mark: nat)
    requires t.charNr < |e.query| && FieldNames(e.hasher, t.res, at, mark)
    ensures var r := FieldSelection(e, t, at); !r.crit ==> FieldRecord(e.hasher, r.st.res, at, |r.st.res|)
  {
    if e.query[t.charNr] == '{' as byte {
      var sel := ParseSelectionSet(e, Advance(t, 1));
      if !sel.crit {
        var p := MightIgnore(e.query, sel.st.charNr);
        var t2 := sel.st.(charNr := p.charNr);
        if !p.eof {
          FieldNamesPrefix(e.hasher, t.res, t2.res, at, mark);
          FieldEndLayout(e, t2, at, mark);
        }
      }
    } else {
      FieldEndLayout(e, t, at, mark);
    }
  }

  /** `instructionEnd` and the length complete a field whose names are in place. */
  lemma FieldEndLayout(e: Env, t: PState, at: nat, mark: nat)
    requires t.charNr < |e.query| && FieldNames(e.hasher, t.res, at, mark)
    ensures var r := FieldEnd(e, t, at); FieldRecord(e.hasher, r.st.res, at, |r.st.res|)
  {
    FieldEndRecord(e.hasher, t.res, at, mark, FieldEnd(e, t, at).st.res);
  }

  // ---------------------------------------------------------------- fragment spreads

  lemma SpreadLayout(e: Env, s: PState)
    requires Bounded(e, s)
    ensures var r := Spread(e, s); !r.crit ==> SpreadRecord(r.st.res, |s.res|, |r.st.res|)
  {
    var p := MightIgnore(e.query, s.charNr);
    if !p.eof {
      var w := MatchesWord(e.query, p.charNr, [Str("on")]);
      if w.0 == 0 {
        var p2 := MightIgnore(e.query, w.1);
        if !p2.eof {
          SpreadNameLayout(e, s.(charNr := p2.charNr), true);
        }
      } else {
        SpreadNameLayout(e, s.(charNr := p.charNr), false);
      }
    }
  }

  lemma SpreadNameLayout(e: Env, s: PState, isInline: bool)
    requires s.charNr < |e.query|
    ensures var r := SpreadName(e, s, isInline); !r.crit ==> SpreadRecord(r.st.res, |s.res|, |r.st.res|)
  {
    var at := |s.res|;
    var s1 := Append(s, SpreadHeader(isInline));
    var nm := ParseAndWriteName(e, s1);
    if !nm.crit && nm.n > 0 {
      var p := MightIgnore(e.query, nm.st.charNr);
      if !p.eof {
        NamedSpreadHead(s.res, isInline, e.query[s.charNr..s.charNr + nm.n], nm.st.res);
        SpreadBodyLayout(e, nm.st.(charNr := p.charNr), at, isInline);
      }
    }
  }

  lemma SpreadBodyLayout(e: Env, t: PState, at: nat, isInline: bool)
    requires t.charNr < |e.query| && SpreadHead(t.res, at, isInline)
    ensures var r := SpreadBody(e, t, at, isInline); !r.crit ==> SpreadRecord(r.st.res, at, |r.st.res|)
  {
    if e.query[t.charNr] == '@' as byte {
      var d := ParseDirectives(e, t);
      SpreadHeadKept(t.res, d.st.res, at, isInline);
      SpreadHeadCount(d.st.res, at, isInline, d.n as byte);
      if !d.crit {
        SpreadTailLayout(e, d.st.(res := d.st.res[at + 3 := d.n as byte]), at, isInline);
      }
    } else {
      SpreadTailLayout(e, t, at, isInline);
    }
  }

  /** The length completes a fragment spread; an inline fragment's selections end in `0 e` first. */
  lemma SpreadTailLayout(e: Env, t: PState, at: nat, isInline: bool)
    requires t.charNr < |e.query| && SpreadHead(t.res, at, isInline)
    ensures var r := SpreadTail(e, t, at, isInline); !r.crit ==> SpreadRecord(r.st.res, at, |r.st.res|)
  {
    if !isInline {
      SpreadClosed(t.res, at, isInline, SpreadLength(e, t, t, at).st.res);
    } else if e.query[t.charNr] == '{' as byte {
      InlineSelectionLayout(e, t, at);
    }
  }

  lemma InlineSelectionLayout(e: Env, t: PState, at: nat)
    requires t.charNr < |e.query| && SpreadHead(t.res, at, true)
    ensures var r := InlineSelection(e, t, at); !r.crit ==> SpreadRecord(r.st.res, at, |r.st.res|)
  {
    var sel := ParseSelectionSet(e, Advance(t, 1));
    var t2 := Append(sel.st, End);
    var p := MightIgnore(e.query, t2.charNr);
    var t3 := t2.(charNr := p.charNr);
    if !p.eof {
      AppendedEnd(t.res, sel.st.res, t3.res);
      InlineClosed(e, t, t3, at);
    }
  }

  /** `Res` that grew from `res` and then had `0 e` appended keeps `res` and ends in `0 e`. */
  lemma AppendedEnd(res: seq<byte>, mid: seq<byte>, r: seq<byte>)
    requires |res| <= |mid| && mid[..|res|] == res && r == mid + End
    ensures |res| + 2 <= |r| && r[..|res|] == res && r[|r| - 2..] == End
  {
    assert r[..|res|] == mid[..|res|];
  }

  /** The length of an inline fragment written once its selections are closed. */
  lemma InlineClosed(e: Env, t: PState, u: PState, at: nat)
    requires SpreadHead(t.res, at, true) && Keeps(e, t, u, at + 4)
    requires |t.res| + 2 <= |u.res| && u.res[..|t.res|] == t.res && u.res[|u.res| - 2..] == End
    ensures var r := SpreadLength(e, t, u, at); SpreadRecord(r.st.res, at, |r.st.res|)
  {
    SpreadHeadKept(t.res, u.res, at, true);
    SpreadClosed(u.res, at, true, SpreadLength(e, t, u, at).st.res);
  }
}
