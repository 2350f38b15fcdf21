/**
 * The naming helpers of the schema builder (parse.go): how a Go field name
 * becomes a GraphQL name, which names the schema accepts, the `gq` struct
 * tag, the kinds an `ID` field may have, and the key struct fields are
 * stored under.
 */
module SchemaNames {
  import opened Wrappers
  import opened Bytes
  import opened Kinds
  import Fnv
  import BytecodeLexer
  import BytecodeRecords

  // ---------------------------------------------------------------- case

  predicate IsUpperAscii(b: byte) { 'A' as byte <= b <= 'Z' as byte }
  predicate IsLowerAscii(b: byte) { 'a' as byte <= b <= 'z' as byte }
  predicate IsAsciiLetter(b: byte) { IsUpperAscii(b) || IsLowerAscii(b) }
  predicate IsAsciiDigit(b: byte) { '0' as byte <= b <= '9' as byte }

  function AsciiLower(b: byte): byte
  {
    if IsUpperAscii(b) then b + 32 else b
  }

  function AsciiUpper(b: byte): byte
  {
    if IsLowerAscii(b) then b - 32 else b
  }

  /** The UTF-8 encoding of U+FFFD. */
  const ReplacementBytes: seq<byte> := [0xEF, 0xBF, 0xBD]

  /**
   * `bytes.ToLower([]byte{b})` (and `strings.ToLower` of a one-byte string):
   * an ASCII byte is lower-cased; a byte from 0x80 up is not valid UTF-8 on
   * its own and comes out as U+FFFD.
   */
  function LowerByte(b: byte): seq<byte>
  {
    if b < 0x80 then [AsciiLower(b)] else ReplacementBytes
  }

  /** `bytes.ToUpper([]byte{b})[0]`: the first byte of the upper-cased byte, 0xEF for U+FFFD. */
  function UpperByte(b: byte): byte
  {
    if b < 0x80 then AsciiUpper(b) else 0xEF
  }

  // ---------------------------------------------------------------- formatGoNameToQL

  /**
   * `formatGoNameToQL`: a name of at most one byte is lower-cased; a name
   * whose second byte does not change when upper-cased is kept (`INPUT`
   * stays `INPUT`); otherwise the first byte is lower-cased. Only the first
   * byte is ever touched.
   */
  function FormatGoNameToQL(input: seq<byte>): (r: seq<byte>)
    ensures |input| >= 2 ==> |r| >= |input| - 1 && r[|r| - (|input| - 1)..] == input[1..]
  {
    if |input| == 0 then []
    else if |input| == 1 then LowerByte(input[0])
    else if input[1] == UpperByte(input[1]) then input
    else LowerByte(input[0]) + input[1..]
  }

  /**
   * For a name that starts with an ASCII byte, the result differs from the
   * input exactly when the first byte is an upper-case letter and the name
   * has one byte or its second byte is a lower-case letter; then only the
   * first byte changes, to its lower case.
   */
  lemma FormatAscii(input: seq<byte>)
    requires |input| > 0 && input[0] < 0x80
    requires |input| >= 2 ==> input[1] < 0x80
    ensures var r := FormatGoNameToQL(input);
      var lowers := IsUpperAscii(input[0]) && (|input| == 1 || IsLowerAscii(input[1]));
      (r == input <==> !lowers)
      && (lowers ==> r == [AsciiLower(input[0])] + input[1..])
  {
    var r := FormatGoNameToQL(input);
    if |input| >= 2 && IsUpperAscii(input[0]) && IsLowerAscii(input[1]) {
      assert r[0] != input[0];
    }
    if |input| == 1 && IsUpperAscii(input[0]) {
      assert r[0] != input[0];
    }
    if !IsUpperAscii(input[0]) && |input| >= 2 {
      assert [AsciiLower(input[0])] + input[1..] == input;
    }
  }

  /** Formatting a formatted name changes nothing more, when the name starts with an ASCII byte. */
  lemma FormatIdempotent(input: seq<byte>)
    requires |input| == 0 || input[0] < 0x80
    ensures FormatGoNameToQL(FormatGoNameToQL(input)) == FormatGoNameToQL(input)
  {
    var r := FormatGoNameToQL(input);
    if |input| >= 2 && input[1] != UpperByte(input[1]) {
      assert r[0] == AsciiLower(input[0]) && r[1..] == input[1..];
      assert [AsciiLower(r[0])] + r[1..] == r;
    }
  }

  /** A name the schema accepts stays acceptable once formatted. */
  lemma FormatKeepsValidName(input: seq<byte>)
    requires IsQlName(input)
    ensures IsQlName(FormatGoNameToQL(input))
  {
    var r := FormatGoNameToQL(input);
    if |input| >= 2 && input[1] != UpperByte(input[1]) {
      assert r == [AsciiLower(input[0])] + input[1..];
      assert forall i :: 1 <= i < |r| ==> r[i] == input[i];
    }
  }

  /**
   * A Go name whose first letter is not ASCII (`Ärger`, bytes C3 84 ...)
   * loses that letter: its first byte is replaced by U+FFFD, and formatting
   * the result again changes it once more.
   */
  lemma FormatNonAsciiFirst()
    ensures var input: seq<byte> := [0xC3, 0x84, 'r' as byte, 'g' as byte, 'e' as byte, 'r' as byte];
      var r := FormatGoNameToQL(input);
      r == ReplacementBytes + input[1..] && FormatGoNameToQL(r) != r
  {
    var input: seq<byte> := [0xC3, 0x84, 'r' as byte, 'g' as byte, 'e' as byte, 'r' as byte];
    var r := FormatGoNameToQL(input);
    assert r == ReplacementBytes + input[1..];
    assert r[1] == 0xBF;
    assert |FormatGoNameToQL(r)| == |r| + 2;
  }

  // ---------------------------------------------------------------- validGraphQlName

  /** The error `validGraphQlName` returns. */
  const InvalidNameMsg: seq<byte> := Str("invalid graphql name")

  /**
   * The names the schema accepts: a non-empty run of ASCII letters, digits
   * and `_` whose first byte is a letter.
   */
  predicate IsQlName(name: seq<byte>)
  {
    |name| > 0 && IsAsciiLetter(name[0])
    && forall i :: 1 <= i < |name| ==> IsAsciiLetter(name[i]) || IsAsciiDigit(name[i]) || name[i] == '_' as byte
  }

  /** `validGraphQlName`: scan the bytes and fail at the first one that is not allowed where it stands. */
  method ValidGraphQlName(name: seq<byte>) returns (err: Option<seq<byte>>)
    ensures err.None? <==> IsQlName(name)
    ensures err.Some? ==> err.value == InvalidNameMsg
  {
    if |name| == 0 {
      return Some(InvalidNameMsg);
    }
    var i := 0;
    while i < |name|
      invariant 0 <= i <= |name|
      invariant i > 0 ==> IsAsciiLetter(name[0])
      invariant forall j :: 1 <= j < i ==> IsAsciiLetter(name[j]) || IsAsciiDigit(name[j]) || name[j] == '_' as byte
    {
      var c := name[i];
      if 'A' as byte <= c <= 'Z' as byte || 'a' as byte <= c <= 'z' as byte {
        i := i + 1;
        continue;
      }
      if i > 0 && ('0' as byte <= c <= '9' as byte || c == '_' as byte) {
        i := i + 1;
        continue;
      }
      return Some(InvalidNameMsg);
    }
    return None;
  }

  /** Every name the schema accepts is a name the query language accepts. */
  lemma QlNameIsName(name: seq<byte>)
    requires IsQlName(name)
    ensures BytecodeLexer.IsName(name)
  {
    forall i | 1 <= i < |name| ensures BytecodeLexer.IsNameChar(name[i]) {
    }
  }

  /** The converse fails: a query may use `_a`, but the schema does not accept it. */
  lemma UnderscoreNameRejected()
    ensures var name := ['_' as byte, 'a' as byte];
      BytecodeLexer.IsName(name) && !IsQlName(name)
  {
    var name := ['_' as byte, 'a' as byte];
    assert BytecodeLexer.IsNameChar(name[1]);
  }

  // ---------------------------------------------------------------- strings.Split and strings.TrimSpace

  /** The index of the first `c` in `s`. */
  function IndexOf(s: seq<byte>, c: byte): (i: nat)
    requires c in s
    ensures i < |s| && s[i] == c && c !in s[..i]
  {
    if s[0] == c then 0
    else
      assert s == [s[0]] + s[1..];
      var j := IndexOf(s[1..], c);
      assert s[..j + 1] == [s[0]] + s[1..][..j];
      j + 1
  }

  /** `strings.Split(s, sep)` for a one-byte separator: the pieces between the separators, at least one. */
  function Split(s: seq<byte>, sep: byte): (parts: seq<seq<byte>>)
    ensures |parts| >= 1
    ensures forall k :: 0 <= k < |parts| ==> sep !in parts[k]
    decreases |s|
  {
    if sep !in s then [s]
    else
      var i := IndexOf(s, sep);
      [s[..i]] + Split(s[i + 1..], sep)
  }

  /** `strings.Join(parts, sep)`, the inverse the split is checked against. */
  function Join(parts: seq<seq<byte>>, sep: byte): seq<byte>
    requires |parts| >= 1
  {
    if |parts| == 1 then parts[0] else parts[0] + [sep] + Join(parts[1..], sep)
  }

  /** Joining the pieces with the separator gives the string back. */
  lemma {:induction false} JoinSplit(s: seq<byte>, sep: byte)
    ensures Join(Split(s, sep), sep) == s
    decreases |s|
  {
    if sep in s {
      var i := IndexOf(s, sep);
      var rest := Split(s[i + 1..], sep);
      assert Split(s, sep) == [s[..i]] + rest;
      JoinSplit(s[i + 1..], sep);
      assert ([s[..i]] + rest)[1..] == rest;
      assert s == s[..i] + [sep] + s[i + 1..];
    }
  }

  /** Splitting pieces joined with a separator none of them holds gives the pieces back. */
  lemma {:induction false} SplitJoin(parts: seq<seq<byte>>, sep: byte)
    requires |parts| >= 1
    requires forall k :: 0 <= k < |parts| ==> sep !in parts[k]
    ensures Split(Join(parts, sep), sep) == parts
    decreases |parts|
  {
    if |parts| > 1 {
      SplitFirst(parts[0], Join(parts[1..], sep), sep);
      SplitJoin(parts[1..], sep);
      assert [parts[0]] + parts[1..] == parts;
    }
  }

  /** A piece without the separator, the separator, then the rest: the piece is split off first. */
  lemma SplitFirst(piece: seq<byte>, tail: seq<byte>, sep: byte)
    requires sep !in piece
    ensures Split(piece + [sep] + tail, sep) == [piece] + Split(tail, sep)
  {
    var s := piece + [sep] + tail;
    var p := |piece|;
    assert s[..p] == piece && s[p + 1..] == tail;
    IndexOfUnique(s, sep, p);
  }

  /** A `c` with no `c` before it is the first one. */
  lemma IndexOfUnique(s: seq<byte>, c: byte, p: nat)
    requires p < |s| && s[p] == c && c !in s[..p]
    ensures c in s && IndexOf(s, c) == p
  {
  }

  /** The ASCII white space `strings.TrimSpace` removes. */
  predicate IsSpace(b: byte)
  {
    b == ' ' as byte || b == '\t' as byte || b == '\n' as byte || b == 0x0B || b == 0x0C || b == '\r' as byte
  }

  /** The index of the first byte at or after `i` that is not white space, or `|s|`. */
  function SkipSpace(s: seq<byte>, i: nat): (j: nat)
    requires i <= |s|
    ensures i <= j <= |s| && (j < |s| ==> !IsSpace(s[j]))
    ensures forall k :: i <= k < j ==> IsSpace(s[k])
    decreases |s| - i
  {
    if i == |s| || !IsSpace(s[i]) then i else SkipSpace(s, i + 1)
  }

  /** The index just after the last byte before `j` that is not white space, or `lo`. */
  function SkipSpaceBack(s: seq<byte>, lo: nat, j: nat): (k: nat)
    requires lo <= j <= |s|
    ensures lo <= k <= j && (k > lo ==> !IsSpace(s[k - 1]))
    ensures forall m :: k <= m < j ==> IsSpace(s[m])
    decreases j
  {
    if j == lo || !IsSpace(s[j - 1]) then j else SkipSpaceBack(s, lo, j - 1)
  }

  /** `r` is `s[lo..hi]`, and only white space lies outside it. */
  predicate TrimmedAt(s: seq<byte>, r: seq<byte>, lo: int, hi: int)
  {
    0 <= lo <= hi <= |s| && r == s[lo..hi]
    && (forall k :: 0 <= k < lo ==> IsSpace(s[k])) && (forall k :: hi <= k < |s| ==> IsSpace(s[k]))
  }

  /** `strings.TrimSpace` on ASCII white space: the middle of `s` without leading and trailing spaces. */
  function TrimSpace(s: seq<byte>): (r: seq<byte>)
    ensures |r| > 0 ==> !IsSpace(r[0]) && !IsSpace(r[|r| - 1])
    ensures exists lo, hi :: TrimmedAt(s, r, lo, hi)
  {
    var lo := SkipSpace(s, 0);
    var hi := SkipSpaceBack(s, lo, |s|);
    assert TrimmedAt(s, s[lo..hi], lo, hi);
    s[lo..hi]
  }

  /** Trimming twice trims nothing more. */
  lemma TrimSpaceIdempotent(s: seq<byte>)
    ensures TrimSpace(TrimSpace(s)) == TrimSpace(s)
  {
    var t := TrimSpace(s);
    if |t| > 0 {
      assert SkipSpace(t, 0) == 0;
      assert SkipSpaceBack(t, 0, |t|) == |t|;
      assert t[0..|t|] == t;
    } else {
      assert TrimSpace(t) == t[0..0];
    }
  }

  /** `strings.ToLower` on ASCII bytes. */
  function LowerAscii(s: seq<byte>): (r: seq<byte>)
    ensures |r| == |s| && forall i :: 0 <= i < |s| ==> r[i] == AsciiLower(s[i])
  {
    seq(|s|, i requires 0 <= i < |s| => AsciiLower(s[i]))
  }

  // ---------------------------------------------------------------- parseFieldTagGQ

  const IdModifier: seq<byte> := ['i' as byte, 'd' as byte]
  const IgnoreTag: seq<byte> := ['-' as byte]
  const UnknownArgPrefix: seq<byte> := Str("unknown field tag gq argument: ")

  /**
   * `strings.ToLower` as far as comparing with `id` goes: ASCII letters are
   * lowered, and `İ` (U+0130, the bytes C4 B0) becomes `i`, as
   * `unicode.ToLower` maps it. Other bytes are kept: no other rune lowers
   * to `i` or `d`, so the result is `id` exactly when Go's is.
   */
  function ToLower(s: seq<byte>): (r: seq<byte>)
    ensures |r| <= |s| && (|r| == 0 <==> |s| == 0)
    decreases |s|
  {
    if |s| == 0 then []
    else if |s| >= 2 && s[0] == 0xC4 && s[1] == 0xB0 then ['i' as byte] + ToLower(s[2..])
    else [AsciiLower(s[0])] + ToLower(s[1..])
  }

  /** On ASCII text the lowering is the byte-wise ASCII one. */
  lemma {:induction false} ToLowerAscii(s: seq<byte>)
    requires forall i :: 0 <= i < |s| ==> s[i] < 0x80
    ensures ToLower(s) == LowerAscii(s)
    decreases |s|
  {
    if |s| > 0 {
      ToLowerAscii(s[1..]);
      assert LowerAscii(s) == [AsciiLower(s[0])] + LowerAscii(s[1..]);
    }
  }

  /** The spellings that lower to `id`: `i`, `I` or `İ`, then `d` or `D`. */
  predicate IsIdSpelling(t: seq<byte>)
  {
    (|t| == 2 && t[0] in {'i' as byte, 'I' as byte} && t[1] in {'d' as byte, 'D' as byte})
    || (|t| == 3 && t[0] == 0xC4 && t[1] == 0xB0 && t[2] in {'d' as byte, 'D' as byte})
  }

  /** A modifier that marks the field as an `ID`: it lowers to `id` once the white space around it is trimmed. */
  predicate IsIdModifier(m: seq<byte>)
  {
    IsIdSpelling(TrimSpace(m))
  }

  /** The index of the first modifier that is not `id`, or `|mods|`. */
  function FirstOther(mods: seq<seq<byte>>): (r: nat)
    ensures r <= |mods| && (r < |mods| ==> !IsIdModifier(mods[r]))
    ensures forall j :: 0 <= j < r ==> IsIdModifier(mods[j])
  {
    if |mods| == 0 || !IsIdModifier(mods[0]) then 0
    else
      var r := FirstOther(mods[1..]);
      assert forall j :: 1 <= j < r + 1 ==> mods[j] == mods[1..][j - 1];
      r + 1
  }

  /** What `parseFieldTagGQ` returns: the GraphQL name, whether to skip the field, whether it is an `ID`, the error. */
  datatype FieldTag = FieldTag(newName: Option<seq<byte>>, ignore: bool, isID: bool, err: Option<seq<byte>>)

  /**
   * `parseFieldTagGQ` on the value of the field's `gq` tag (`None` when the
   * tag is absent): the first comma-separated part is the name (`-` skips
   * the field), each later part must be `id`. A bad name sets the error but
   * keeps the name and goes on; the first unknown modifier replaces the
   * error, quoted as written, and stops.
   */
  method ParseFieldTagGQ(tag: Option<seq<byte>>) returns (r: FieldTag)
    ensures tag.None? || tag.value == [] ==> r == FieldTag(None, false, false, None)
    ensures tag.Some? && tag.value != [] ==>
      var args := Split(tag.value, ',' as byte);
      var name := TrimSpace(args[0]);
      var mods := args[1..];
      (r.ignore <==> name == IgnoreTag)
      && (r.ignore ==> r == FieldTag(None, true, false, None))
      && (!r.ignore ==> r.newName == (if name == [] then None else Some(name)))
      && (!r.ignore ==> (r.isID <==> |mods| > 0 && IsIdModifier(mods[0])))
      && (!r.ignore ==> (r.err.None? <==> (name == [] || IsQlName(name)) && FirstOther(mods) == |mods|))
      && (!r.ignore && FirstOther(mods) < |mods| ==> r.err == Some(UnknownArgPrefix + mods[FirstOther(mods)]))
      && (!r.ignore && FirstOther(mods) == |mods| && name != [] && !IsQlName(name) ==> r.err == Some(InvalidNameMsg))
  {
    if tag.None? || tag.value == [] {
      return FieldTag(None, false, false, None);
    }
    var args := Split(tag.value, ',' as byte);
    var nameArg := TrimSpace(args[0]);
    var newName: Option<seq<byte>> := None;
    var err: Option<seq<byte>> := None;
    if nameArg != [] {
      if nameArg == IgnoreTag {
        return FieldTag(None, true, false, None);
      }
      err := ValidGraphQlName(nameArg);
      newName := Some(nameArg);
    }
    var isID, unknown := ScanModifiers(args);
    if unknown.Some? {
      err := Some(UnknownArgPrefix + unknown.value);
    }
    return FieldTag(newName, false, isID, err);
  }

  /**
   * The loop of `parseFieldTagGQ` over the modifiers `args[1..]`: `id` sets
   * `isID`, and the first other modifier ends the loop and is returned.
   */
  method ScanModifiers(args: seq<seq<byte>>) returns (isID: bool, unknown: Option<seq<byte>>)
    requires |args| >= 1
    ensures isID <==> |args| > 1 && IsIdModifier(args[1])
    ensures unknown.None? <==> FirstOther(args[1..]) == |args| - 1
    ensures unknown.Some? ==> unknown.value == args[1..][FirstOther(args[1..])]
  {
    ghost var mods := args[1..];
    isID := false;
    var i := 1;
    while i < |args|
      invariant 1 <= i <= |args|
      invariant forall j :: 0 <= j < i - 1 ==> IsIdModifier(mods[j])
      invariant isID <==> i > 1
    {
      IdSpellings(TrimSpace(args[i]));
      if ToLower(TrimSpace(args[i])) == IdModifier {
        isID := true;
      } else {
        assert FirstOther(mods) == i - 1 by {
          FirstOtherAt(mods, i - 1);
        }
        return isID, Some(args[i]);
      }
      i := i + 1;
    }
    FirstOtherAt(mods, |mods|);
    return isID, None;
  }

  /** Exactly the spellings `id`, `iD`, `Id`, `ID`, `İd` and `İD` lower to `id`. */
  lemma IdSpellings(t: seq<byte>)
    ensures ToLower(t) == IdModifier <==> IsIdSpelling(t)
  {
    if |t| >= 2 && t[0] == 0xC4 && t[1] == 0xB0 {
      IdSpellingsDotted(t);
    } else if |t| > 0 {
      IdSpellingsPlain(t);
    }
  }

  /** `IdSpellings` for a text starting with `İ`. */
  lemma IdSpellingsDotted(t: seq<byte>)
    requires |t| >= 2 && t[0] == 0xC4 && t[1] == 0xB0
    ensures ToLower(t) == IdModifier <==> IsIdSpelling(t)
  {
    var rest := t[2..];
    assert ToLower(t) == ['i' as byte] + ToLower(rest);
    if |rest| >= 2 && rest[0] == 0xC4 && rest[1] == 0xB0 {
      var low := ToLower(rest[2..]);
      assert ToLower(t) == ['i' as byte, 'i' as byte] + low;
      LowerPair('i' as byte, 'i' as byte, low);
    } else if |rest| > 0 {
      var low := ToLower(rest[1..]);
      assert ToLower(t) == ['i' as byte, AsciiLower(t[2])] + low;
      PairSpelling(t, 2, ToLower(t), low);
    }
  }

  /** `IdSpellings` for a nonempty text not starting with `İ`. */
  lemma IdSpellingsPlain(t: seq<byte>)
    requires |t| > 0 && !(|t| >= 2 && t[0] == 0xC4 && t[1] == 0xB0)
    ensures ToLower(t) == IdModifier <==> IsIdSpelling(t)
  {
    if |t| >= 3 && t[1] == 0xC4 && t[2] == 0xB0 {
      PlainThenDotted(t);
    } else if |t| >= 2 {
      PlainThenPlain(t);
    } else {
      assert ToLower(t) == [AsciiLower(t[0])];
    }
  }

  /** An ASCII byte then `İ` lowers to something other than `id`. */
  lemma PlainThenDotted(t: seq<byte>)
    requires |t| >= 3 && t[1] == 0xC4 && t[2] == 0xB0
    ensures ToLower(t) != IdModifier && !IsIdSpelling(t)
  {
    var low := ToLower(t[3..]);
    assert ToLower(t) == [AsciiLower(t[0]), 'i' as byte] + low by {
      assert ToLower(t) == [AsciiLower(t[0])] + ToLower(t[1..]);
      assert t[1..][2..] == t[3..];
    }
    LowerPair(AsciiLower(t[0]), 'i' as byte, low);
  }

  /** Two bytes neither of which starts `İ` lower byte by byte. */
  lemma PlainThenPlain(t: seq<byte>)
    requires |t| >= 2 && !(t[0] == 0xC4 && t[1] == 0xB0) && !(|t| >= 3 && t[1] == 0xC4 && t[2] == 0xB0)
    ensures ToLower(t) == IdModifier <==> IsIdSpelling(t)
  {
    var low := ToLower(t[2..]);
    assert ToLower(t) == [AsciiLower(t[0]), AsciiLower(t[1])] + low by {
      assert ToLower(t) == [AsciiLower(t[0])] + ToLower(t[1..]);
      assert t[1..][1..] == t[2..];
    }
    PairSpelling(t, 1, ToLower(t), low);
  }

  /**
   * The lowered text `r` of `t` is a lowered first letter (`İ` when `at` is 2,
   * an ASCII byte when `at` is 1), the lowered byte `t[at]`, then `low`: it
   * spells `id` exactly when `t` is an `id` spelling.
   */
  lemma PairSpelling(t: seq<byte>, at: nat, r: seq<byte>, low: seq<byte>)
    requires at in {1, 2} && at < |t|
    requires at == 2 <==> (t[0] == 0xC4 && t[1] == 0xB0)
    requires r == [if at == 2 then 'i' as byte else AsciiLower(t[0]), AsciiLower(t[at])] + low
    requires |low| == 0 <==> |t| == at + 1
    ensures r == IdModifier <==> IsIdSpelling(t)
  {
    LowerPair(if at == 2 then 'i' as byte else AsciiLower(t[0]), AsciiLower(t[at]), low);
  }

  /** Two lowered bytes and the rest spell `id` exactly when they are `i` and `d` and nothing follows. */
  lemma LowerPair(x: byte, y: byte, low: seq<byte>)
    ensures [x, y] + low == IdModifier <==> x == 'i' as byte && y == 'd' as byte && low == []
  {
    if [x, y] + low == IdModifier {
      assert |low| == 0 && ([x, y] + low)[0] == x && ([x, y] + low)[1] == y;
    }
  }

  /** The first modifier that is not `id` is the one after a run of `id`s that ends there. */
  lemma FirstOtherAt(mods: seq<seq<byte>>, k: nat)
    requires k <= |mods| && (k < |mods| ==> !IsIdModifier(mods[k]))
    requires forall j :: 0 <= j < k ==> IsIdModifier(mods[j])
    ensures FirstOther(mods) == k
  {
  }

  // ---------------------------------------------------------------- checkValidIDKind

  const IdKindMsg: seq<byte> := Str("strings and numbers can only be labeld with the ID property")

  /** `checkValidIDKind`: only string and integer fields may carry the `id` modifier. */
  function CheckValidIDKind(kind: Kind): (err: Option<seq<byte>>)
    ensures err.None? <==> kind == String || IsSignedInt(kind) || IsUnsignedInt(kind)
    ensures err.Some? ==> err.value == IdKindMsg
  {
    match kind
    case String => None
    case Int => None
    case Int8 => None
    case Int16 => None
    case Int32 => None
    case Int64 => None
    case Uint => None
    case Uint8 => None
    case Uint16 => None
    case Uint32 => None
    case Uint64 => None
    case _ => Some(IdKindMsg)
  }

  // ---------------------------------------------------------------- getObjKey

  /** `getObjKey`: the FNV-1 32-bit hash of the name, the key struct fields are stored under. */
  function GetObjKey(key: seq<byte>): u32
  {
    Fnv.Sum32(key)
  }

  /**
   * With FNV-1 as the parser's hasher, the hash slot of every field record
   * holds the key the schema stores that field under: the key of the name
   * after `:` for an aliased field, of the only name otherwise.
   */
  lemma FieldKeyIsObjKey(res: seq<byte>, at: nat, mark: nat)
    requires BytecodeRecords.FieldNames(Fnv.Sum32, res, at, mark)
    ensures var n1 := res[at + 11] as nat;
      var n2 := res[at + 12 + n1] as nat;
      DecodeLe32(res, at + 7) == GetObjKey(if n2 == 0 then res[at + 12..at + 12 + n1] else res[at + 13 + n1..mark])
  {
  }
}
