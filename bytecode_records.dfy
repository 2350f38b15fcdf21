/**
 * The records a selection set is written as (bytecode/bytecode.go:402-606,
 * bytecode/bytecode_instructions.go): field and spread records, and how
 * each step of the parser keeps or completes them.
 */
module BytecodeRecords {
  import opened Bytes
  import opened BytecodeInstructions
  import opened BytecodeLexer

  // ---------------------------------------------------------------- records

  /** A field header and its first name, right after that name was written and its length set. */
  predicate FieldHead(res: seq<byte>, at: nat)
  {
    at + 13 <= |res| && res[at] == 0 && res[at + 1] == ActionField
    && res[at + 11] as nat == |res| - (at + 12) && IsName(res[at + 12..])
  }

  /**
   * The names part of a field record at `at`, ending at `mark`: `0 f`, the
   * directive count, the length slot, the name hash, `len name` and
   * `len target`, where the second length is 0 when the field has no
   * alias. The hash slot holds the FNV-1 hash of the name the field is
   * looked up by: the name after `:` for an aliased field, the only name
   * otherwise.
   */
  predicate FieldNames(h: seq<byte> -> u32, res: seq<byte>, at: nat, mark: nat)
  {
    at + 13 <= mark <= |res| && res[at] == 0 && res[at + 1] == ActionField
    && var n1 := res[at + 11] as nat;
       1 <= n1 && at + 12 + n1 < mark
       && var n2 := res[at + 12 + n1] as nat;
          mark == at + 13 + n1 + n2
          && IsName(res[at + 12..at + 12 + n1])
          && (n2 > 0 ==> IsName(res[at + 13 + n1..mark]))
          && DecodeLe32(res, at + 7) == h(if n2 == 0 then res[at + 12..at + 12 + n1] else res[at + 13 + n1..mark])
  }

  /**
   * A complete field record occupying `res[at..end]`: its names, then the
   * directives, arguments and sub-selections, closed by `0 e`; the length
   * slot counts the bytes after the header.
   */
  predicate FieldRecord(h: seq<byte> -> u32, res: seq<byte>, at: nat, end: nat)
  {
    at + 13 <= end <= |res|
    && var n1 := res[at + 11] as nat;
       at + 12 + n1 < end
       && var mark := at + 13 + n1 + res[at + 12 + n1] as nat;
          mark + 2 <= end && FieldNames(h, res, at, mark)
          && DecodeLe32(res, at + 3) == U32(end - (at + 11))
          && res[end - 2..end] == End
  }

  /** A spread header followed by a name, before the length is written. */
  predicate SpreadHead(res: seq<byte>, at: nat, isInline: bool)
  {
    at + 9 <= |res| && res[at] == 0 && res[at + 1] == ActionSpread
    && res[at + 2] == (if isInline then True else False) && IsNameStart(res[at + 8])
  }

  /**
   * A complete spread record occupying `res[at..end]`: `0 s f count len`,
   * the fragment name and its directives for `...Name`; `0 s t count len`,
   * the type name, its directives, the selections and `0 e` for
   * `... on Type {}`. The length counts the bytes after the 8-byte header.
   */
  predicate SpreadRecord(res: seq<byte>, at: nat, end: nat)
  {
    at + 9 <= end <= |res| && res[at] == 0 && res[at + 1] == ActionSpread
    && (res[at + 2] == False || res[at + 2] == True) && IsNameStart(res[at + 8])
    && DecodeLe32(res, at + 4) == U32(end - (at + 8))
    && (res[at + 2] == True ==> at + 11 <= end && res[end - 2..end] == End)
  }

  /** The names part of a field stays as long as its bytes do; the directive count and length slot may change. */
  lemma FieldNamesKept(h: seq<byte> -> u32, res: seq<byte>, res2: seq<byte>, at: nat, mark: nat)
    requires FieldNames(h, res, at, mark) && mark <= |res2|
    requires res2[at] == res[at] && res2[at + 1] == res[at + 1]
    requires forall i :: at + 7 <= i < mark ==> res2[i] == res[i]
    ensures FieldNames(h, res2, at, mark)
  {
    var n1 := res[at + 11] as nat;
    assert res2[at + 12..at + 12 + n1] == res[at + 12..at + 12 + n1];
    assert res2[at + 13 + n1..mark] == res[at + 13 + n1..mark];
  }

  /** Bytes written after a field's names leave them alone. */
  lemma FieldNamesPrefix(h: seq<byte> -> u32, res: seq<byte>, res2: seq<byte>, at: nat, mark: nat)
    requires FieldNames(h, res, at, mark) && |res| <= |res2| && res2[..|res|] == res[..|res|]
    ensures FieldNames(h, res2, at, mark)
  {
    forall i | at + 7 <= i < mark
      ensures res2[i] == res[i]
    {
      assert res2[..|res|][i] == res[..|res|][i];
    }
    assert res2[..|res|][at] == res[..|res|][at] && res2[..|res|][at + 1] == res[..|res|][at + 1];
    FieldNamesKept(h, res, res2, at, mark);
  }

  /** Setting the directive count leaves a field's names alone. */
  lemma FieldNamesCount(h: seq<byte> -> u32, res: seq<byte>, at: nat, mark: nat, b: byte)
    requires FieldNames(h, res, at, mark)
    ensures FieldNames(h, res[at + 2 := b], at, mark)
  {
    FieldNamesKept(h, res, res[at + 2 := b], at, mark);
  }

  /** The header, the zero length placeholder and a first name, once the length is set, make a field head. */
  lemma NamedFieldHead(res: seq<byte>, name: seq<byte>, r: seq<byte>)
    requires IsName(name) && |name| <= 255
    requires r == (res + (FieldHeader + [0]) + name)[|res| + 11 := |name| as byte]
    ensures FieldHead(r, |res|)
  {
    assert r[|res| + 12..] == name;
  }

  /** A field without an alias: a zero target length, and the hash of its one name. */
  lemma PlainFieldNames(h: seq<byte> -> u32, head: seq<byte>, at: nat, w: seq<byte>)
    requires FieldHead(head, at)
    requires w == WithUint32At(head + [0], at + 7, h((head + [0])[at + 12..at + 12 + (head + [0])[at + 11] as nat]))
    ensures FieldNames(h, w, at, |w|)
  {
    var r := head + [0];
    var n1 := head[at + 11] as nat;
    assert r[at + 12..at + 12 + n1] == head[at + 12..];
    ReadAfterWrite(r, at + 7, h(r[at + 12..at + 12 + n1]));
    assert w[at + 11] == head[at + 11] && w[at + 12 + n1] == 0;
    assert w[at + 12..at + 12 + n1] == head[at + 12..];
  }

  /**
   * An aliased field: the head, the target's length at `lenAt` and the
   * target name after it; the hash is the target's.
   */
  lemma AliasFieldNames(h: seq<byte> -> u32, r: seq<byte>, at: nat, lenAt: nat, w: seq<byte>)
    requires lenAt < |r| && FieldHead(r[..lenAt], at)
    requires r[lenAt] as nat == |r| - (lenAt + 1) && IsName(r[lenAt + 1..])
    requires w == WithUint32At(r, at + 7, h(r[lenAt + 1..]))
    ensures FieldNames(h, w, at, |r|)
  {
    var head := r[..lenAt];
    var n1 := head[at + 11] as nat;
    assert at + 12 + n1 == lenAt;
    ReadAfterWrite(r, at + 7, h(r[lenAt + 1..]));
    assert w[at + 11] == head[at + 11] && w[lenAt] == r[lenAt];
    assert w[at + 12..lenAt] == head[at + 12..];
    assert w[lenAt + 1..|r|] == r[lenAt + 1..];
  }

  /** Setting the target's length byte in front of the target name just written. */
  lemma AliasNamed(res: seq<byte>, name: seq<byte>, lenAt: nat, r: seq<byte>)
    requires |res| == lenAt + 1 && |name| <= 255
    requires r == (res + name)[lenAt := |name| as byte]
    ensures r[..lenAt] == res[..lenAt] && r[lenAt] as nat == |r| - (lenAt + 1) && r[lenAt + 1..] == name
  {
    assert r[..lenAt] == res[..lenAt];
    assert r[lenAt + 1..] == name;
  }

  /** Appending `0 e` and then writing a slot before it leaves every other byte of `res` alone. */
  lemma ClosedFrame(res: seq<byte>, at: nat, v: u32, r: seq<byte>)
    requires at + 4 <= |res| && r == WithUint32At(res + End, at, v)
    ensures |r| == |res| + 2 && DecodeLe32(r, at) == v
    ensures r[|res|] == 0 && r[|res| + 1] == ActionEnd
    ensures forall i :: 0 <= i < |res| && !(at <= i < at + 4) ==> r[i] == res[i]
  {
    var w := res + End;
    ReadAfterWrite(w, at, v);
    assert r[|res|] == w[|res|] && r[|res| + 1] == w[|res| + 1];
    forall i | 0 <= i < |res| && !(at <= i < at + 4)
      ensures r[i] == res[i]
    {
      assert r[i] == w[i];
    }
  }

  /** A field whose bytes after its names end in `0 e` and whose length slot counts them is complete. */
  lemma FieldClosed(h: seq<byte> -> u32, res: seq<byte>, r: seq<byte>, at: nat, mark: nat, v: u32)
    requires FieldNames(h, res, at, mark) && |r| == |res| + 2
    requires forall i :: 0 <= i < |res| && !(at + 3 <= i < at + 7) ==> r[i] == res[i]
    requires r[|res|] == 0 && r[|res| + 1] == ActionEnd
    requires DecodeLe32(r, at + 3) == v && v == U32(|r| - (at + 11))
    ensures FieldRecord(h, r, at, |r|)
  {
    FieldNamesKept(h, res, r, at, mark);
    var n1 := res[at + 11] as nat;
    assert r[at + 11] == res[at + 11];
    assert r[at + 12 + n1] == res[at + 12 + n1];
    assert r[|r| - 2..] == End;
  }

  /** `0 e` and the length written over a field whose names are in place complete its record. */
  lemma FieldEndRecord(h: seq<byte> -> u32, res: seq<byte>, at: nat, mark: nat, r: seq<byte>)
    requires FieldNames(h, res, at, mark)
    requires r == WithUint32At(res + End, at + 3, U32(|res| + 2 - (at + 11)))
    ensures FieldRecord(h, r, at, |r|)
  {
    var v := U32(|res| + 2 - (at + 11));
    ClosedFrame(res, at + 3, v, r);
    FieldClosed(h, res, r, at, mark, v);
  }

  /** The spread header followed by a name is a spread head. */
  lemma NamedSpreadHead(res: seq<byte>, isInline: bool, name: seq<byte>, r: seq<byte>)
    requires IsName(name) && r == res + SpreadHeader(isInline) + name
    ensures SpreadHead(r, |res|, isInline)
  {
    assert r[|res| + 8] == name[0];
  }

  /** Bytes written after a spread's name leave its head alone. */
  lemma SpreadHeadKept(res: seq<byte>, res2: seq<byte>, at: nat, isInline: bool)
    requires SpreadHead(res, at, isInline) && |res| <= |res2| && res2[..|res|] == res[..|res|]
    ensures SpreadHead(res2, at, isInline)
  {
    assert res2[..|res|][at] == res[..|res|][at] && res2[..|res|][at + 1] == res[..|res|][at + 1];
    assert res2[..|res|][at + 2] == res[..|res|][at + 2] && res2[..|res|][at + 8] == res[..|res|][at + 8];
  }

  /** Setting the directive count leaves a spread's head alone. */
  lemma SpreadHeadCount(res: seq<byte>, at: nat, isInline: bool, b: byte)
    requires SpreadHead(res, at, isInline)
    ensures SpreadHead(res[at + 3 := b], at, isInline)
  {
  }

  /** Writing a spread's length completes its record; an inline fragment also needs its `0 e`. */
  lemma SpreadClosed(res: seq<byte>, at: nat, isInline: bool, r: seq<byte>)
    requires SpreadHead(res, at, isInline)
    requires isInline ==> at + 11 <= |res| && res[|res| - 2..] == End
    requires r == WithUint32At(res, at + 4, U32(|res| - (at + 8)))
    ensures SpreadRecord(r, at, |r|)
  {
    ReadAfterWrite(res, at + 4, U32(|res| - (at + 8)));
    if isInline {
      assert r[|r| - 2..] == res[|res| - 2..];
    }
  }
}
