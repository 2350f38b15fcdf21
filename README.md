# yarql query processing, modelled in Dafny

This project models the query-text core of yarql (formerly go-graphql), a
GraphQL server library written in Go. The modelled parts are:

- **The bytecode compiler** (`bytecode/bytecode.go`,
  `bytecode/bytecode_instructions.go`). A single pass turns a GraphQL
  document into a flat byte program. Every record starts with `0,<action>`.
  Variable-length records carry a little-endian `uint32` length that is
  back-patched once the record is complete.
  - It is modelled twice. First as pure functions over an environment
    (`Env`: query, target, hasher) and a parser state (`PState`: `Res`,
    `FragmentLocations`, `charNr`, `Errors`, `TargetIdx`). Then as the class
    `BytecodeCtx.ParserCtx`. Its methods mirror the document loop, the
    dispatch of one definition, the lexer loops and the instruction helpers,
    and each is proved to end in the state those functions describe.
  - Modules: `BytecodeLexer` (ignored tokens, names, keywords, errors),
    `BytecodeDocument` and `BytecodeQuery` (operations, fragments, the
    document loop), `BytecodeParser` (operator arguments, directives, type
    names), `BytecodeSelections` (selection sets), `BytecodeValues` (input
    values).
  - `BytecodeRecords` and `BytecodeLayout` describe and prove the byte layout
    of field and spread records.
- **The reference encoder** (`bytecode/testing_framework.go`). It builds the
  expected bytecode from test descriptions. `Agreement` proves that the
  parser produces exactly this encoder's output for small documents without
  fields.
- **The bytecode cache** (`bytecode/cache/bytecode_cache.go`). A table keyed
  by query length, with bounded buckets and eviction.
- **The AST parser** (`query_parser.go`). The same grammar, producing
  operator and value trees. `QueryLexer` holds the lexical functions it is
  specified by; the class `QueryParser.Iter` holds the parsing methods. The
  value constructors of `input_value.go` are in `InputValue`.
- **Small validators and serialisers**:
  - `EncodeString` is the JSON string escaper. Its output is read back by a
    decoder of JSON strings as defined in section 7 of RFC 8259.
  - `SchemaNames` covers GraphQL name validation, Go-to-GraphQL name
    conversion, `gq` struct tags and the field key. `Fnv` is the FNV-1 32-bit
    hash that key uses.
  - `Resolver` covers the resolver's context values, error paths, integer
    narrowing, the field walk and the JSON response envelope.
  - The registries: `Enums`, `Directives`, `Interfaces`, `TypeRename`.

Bytes are the newtype `byte` (0..255); `u32` is 0..2^32-1. Go's `uint32(n)`
truncation is the explicit `U32(n)`. Go panics become error results. Go
reflection types become the datatype `Kinds.GoType`, which describes kind,
name, package path and element type.

## Model

| member | source | states |
|---|---|---|
| Bytes.WithUint32At | bytecode/bytecode.go:43-48 | `writeUint32`: the length is kept, bytes `at..at+3` become the little-endian encoding of `v`, and every other byte is unchanged |
| Bytes.Decimal | resolver.go:251-258 | the decimal text of a line or column number: only digits, no leading zero, and its decimal value is the number |
| Bytes.DecodeEncode | resolver.go:332-338 | `readUint32` of the four bytes that encode `v` is `v` |
| Bytes.EncodeDecode | resolver.go:332-338 | re-encoding what `readUint32` decodes gives back the same four bytes |
| Bytes.ReadAfterWrite | resolver.go:332-338 | `readUint32` at a slot just written by `writeUint32` returns the value written |
| Bytes.ReadOtherSlot | resolver.go:332-338 | writing one slot leaves what `readUint32` returns for every disjoint slot unchanged |
| Unicode.HexDecode4 | bytecode/bytecode.go:1012-1030 | the four bytes after `\u` decode exactly when all four are hex digits, to a unit below 0x10000; on failure the reported byte is one of the four and is not a hex digit |
| Unicode.HexRoundTrip | bytecode/bytecode.go:1027 | decoding the four hex digits of any 16-bit unit gives the unit back |
| Unicode.HexErrorMessage | bytecode/bytecode.go:1027-1030 | the `hex.Decode` error text starts with `encoding/hex: invalid byte: U+00` and the byte in two upper-case hex digits; the quoted character follows exactly when the byte is printable Latin-1 |
| Unicode.Utf16DecodeOne | bytecode/bytecode.go:1038 | `utf16.Decode` of one unit: a surrogate becomes U+FFFD, any other unit is kept |
| Unicode.Utf8Encode | bytecode/bytecode.go:1042-1045 | `utf8.EncodeRune` of a BMP code point writes 1 to 3 bytes, and 1 exactly below 0x80 |
| Unicode.Utf8RoundTrip | bytecode/bytecode.go:1042-1045 | the bytes written for a non-surrogate code point are well-formed UTF-8 and decode back to it |
| Fnv.Sum32Append | parse.go:98-102 | the FNV-1 hash of a name is a left fold: appending a byte applies one multiply-then-xor round |
| Fnv.Sum32Vectors | parse.go:98-102 | the model reproduces the published FNV-1 32-bit values for the empty input and for `a` |
| SchemaNames.FormatGoNameToQL | parse.go:737-748 | `formatGoNameToQL` changes only the first character: everything after it is kept |
| SchemaNames.FormatAscii | parse.go:737-748 | for an ASCII start, the input is returned unchanged unless its first letter is upper case and it is one letter long or its second letter is lower case; in that case only the first letter is lowered |
| SchemaNames.FormatIdempotent | parse.go:737-748 | formatting twice is formatting once when the first byte is ASCII |
| SchemaNames.FormatKeepsValidName | parse.go:737-748 | formatting a valid GraphQL name gives a valid GraphQL name |
| SchemaNames.FormatNonAsciiFirst | parse.go:739-745 | a name starting with a two-byte letter (`Ärger`) has its first byte replaced by U+FFFD, and the result is not a fixed point |
| SchemaNames.ValidGraphQlName | parse.go:783-805 | no error exactly for a non-empty name that starts with an ASCII letter and continues with letters, digits and `_`; otherwise the error `invalid graphql name` |
| SchemaNames.QlNameIsName | parse.go:783-805 | every valid schema name is also a name the bytecode parser accepts |
| SchemaNames.UnderscoreNameRejected | parse.go:790-793 | `_a` is a query name for the parser but not a valid schema name |
| SchemaNames.JoinSplit | parse.go:759 | joining the parts of `strings.Split` with the separator gives back the tag |
| SchemaNames.SplitJoin | parse.go:759 | splitting a join of separator-free parts gives back the parts |
| SchemaNames.TrimSpace | parse.go:760-771 | the result has no white space at either end and is a slice of the input with only white space removed around it |
| SchemaNames.TrimSpaceIdempotent | parse.go:760-771 | trimming twice is trimming once |
| SchemaNames.ParseFieldTagGQ | parse.go:750-781 | a missing or empty tag gives nothing; `-` means ignore and nothing else; otherwise the trimmed name is the new name (or none when empty), `isID` is set by a modifier that lowers to `id` (`id`, `ID`, `İd` and the like), and any other modifier yields the unknown-argument error |
| SchemaNames.ScanModifiers | parse.go:770-778 | `isID` exactly when the first modifier is `id` after trim and lower-case, where `İ` lowers to `i`; no error exactly when every modifier is `id`; otherwise the error names the first other one |
| SchemaNames.IdSpellings | parse.go:771-772 | a trimmed modifier lowers to `id` exactly when it is `i`, `I` or `İ` followed by `d` or `D` |
| SchemaNames.ToLowerAscii | parse.go:771 | on ASCII text the lowering is byte-wise ASCII lowering |
| SchemaNames.CheckValidIDKind | parse.go:807-816 | no error exactly for the string kind and the signed and unsigned integer kinds |
| SchemaNames.FieldKeyIsObjKey | parse.go:98-102 | the hash slot of a field record written with FNV-1 equals `getObjKey` of the name the field is looked up by |
| Enums.EnumKindsAreIdKinds | enums.go:40-54 | `validEnumType` holds exactly for the string and integer kinds, the kinds `checkValidIDKind` accepts |
| Enums.Compare | enums.go:134 | the byte-wise comparison used to sort enum names holds exactly when the first name is lexicographically smaller |
| Enums.LessTrans | enums.go:134 | the order is transitive |
| Enums.LessTotal | enums.go:134 | the order is total and asymmetric |
| Enums.LessIrreflexive | enums.go:134 | no name is smaller than itself |
| Enums.SortNames | enums.go:134 | `sort.Slice` ordering the values by `Name <` returns a permutation of its input |
| Enums.SortNamesSorted | enums.go:134 | and that permutation is sorted |
| Enums.InsertSorted | enums.go:134 | inserting a name into a sorted list keeps it sorted |
| Enums.CheckInput | enums.go:75-77 | the corrected input check never panics and accepts exactly a non-nil map |
| Enums.CheckInputAgrees | enums.go:75-77 | wherever the check as written does not panic, it agrees with the corrected one |
| Enums.NonMapInputPanics | enums.go:75 | the check as written panics on a plain `int` value, whose kind cannot be nil |
| Enums.RegisterEnumCheck | enums.go:71-151 | the invalid-type error exactly for a value that is not a map with keys of kind string and an enum kind for values (a defined key type such as `type K string` included, with the key read as `k.String()` reads it); the not-global error exactly for an unnamed type; nothing to register exactly for an empty map; a result exactly when every key is a valid name, holding the map's entries and their names sorted |
| Enums.CollectEntries | enums.go:107-133 | no error exactly when every key is a valid name; the empty-key error only when the map has the empty key; the invalid-key error names a non-empty key of the map that is not a valid name; on success the entries are the map's key/value pairs, each once |
| Enums.KeyString | enums.go:111 | corrected: a key of any type of kind string reads as its own text |
| Enums.KeyStringAgrees | enums.go:111 | wherever the type assertion as written does not panic, it gives the same key as the corrected reading |
| Enums.NamedStringKeyPanics | enums.go:85-111 | a map keyed by a defined string type passes every check up to the key loop, where the assertion as written panics while the corrected reading gives the key |
| Enums.EnumSchema.GetEnum | enums.go:26-38 | `-1` and nil for an unnamed type or a kind that cannot be an enum; otherwise the first registered enum with that type name, or `-1` when there is none |
| Enums.EnumSchema.RegisterEnum | enums.go:57-69 | after `Parse` it fails and changes nothing; an empty map adds nothing without an error; otherwise exactly one enum is appended exactly when the check succeeds, and it carries the map's content type, type name and entries with their names sorted; every other rejected input returns an error, the invalid-type text for a non-map and the not-global text for an unnamed type |
| Directives.LocationString | directives.go:16-27 | the unknown label exactly for a location other than the three known ones |
| Directives.LocationLabelsDiffer | directives.go:16-27 | the three known locations have three different labels |
| Directives.CheckDirective | directives.go:73-93 | no panic exactly for a valid directive; otherwise the panic of the first failing check: empty name, the first bad character, missing `Where`, missing `Method` |
| Directives.RegisterSucceeds | directives.go:55-68 | registration succeeds exactly when the locations are distinct and none of them already has a directive of that name |
| Directives.RegisterAdds | directives.go:67-68 | on success, each listed location gets the directive appended to its list |
| Directives.RegisterFrame | directives.go:55-69 | locations not listed are unchanged, even when the registration panics |
| Directives.RegisterOutcome | directives.go:53-71 | success, the appended lists and the unchanged locations, together |
| Directives.RegisterKeepsUnique | directives.go:55-68 | registering keeps directive names unique within every location |
| Directives.DirectiveRegistry.RegisterDirective | directives.go:53-71 | an invalid directive panics and changes nothing; a valid one updates the table as the loop over `Where` does, keeping the appends made before a duplicate panics |
| Directives.DirectiveRegistry.AddAt | directives.go:55-68 | one round of that loop: the name is taken exactly when it is already listed there; otherwise the directive is appended there |
| Directives.DirectiveRegistry.constructor | directives.go:95-123 | the registry starts with `skip` and `include` registered at all three locations |
| Directives.SkipIncludeOpposite | directives.go:102-106 | built-in `skip` skips exactly when `if` is true, and `include` exactly when it is false |
| Directives.BuiltinsRegister | directives.go:95-123 | both built-ins are valid, and registering them in turn into an empty table succeeds and gives the built-in table |
| Interfaces.Registered | interfaces.go:56-72 | after registration the struct is listed under the interface's name |
| Interfaces.RegisterIdempotent | interfaces.go:60-64 | registering the same pair again changes nothing |
| Interfaces.RegisterKeepsNoDuplicates | interfaces.go:56-72 | registration never lists a type twice |
| Interfaces.ImplementsProblem | interfaces.go:20-54 | no panic exactly for a pointer to a named interface and a named struct that implements it |
| Interfaces.NotImplementedMsg | interfaces.go:53 | the corrected panic message starts with the struct's qualified name and ends with the interface's |
| Interfaces.NotImplementedMsgAsWritten | interfaces.go:53 | the message as written: the struct's package path, a dot, the package path again, then ` does not implement ` and the interface's qualified name |
| Interfaces.NotImplementedMsgLosesName | interfaces.go:53 | the message as written does not start with the struct's qualified name |
| Interfaces.Registry.Implements | interfaces.go:19-73 | the panic is the one `ImplementsProblem` names and leaves the tables unchanged; otherwise it returns true and the tables become `Registered` |
| TypeRename.RenameProblem | type_rename.go:13-34 | no panic exactly for a named struct whose trimmed new name is non-empty and, unless forced, a valid GraphQL name |
| TypeRename.RenameResultStable | type_rename.go:24-34 | an accepted name is trimmed already, and renaming to it again is accepted too |
| TypeRename.TypeRenames.Rename | type_rename.go:13-39 | the panic is the one `RenameProblem` names and changes nothing; otherwise the trimmed name is stored under the type's name, overwriting any earlier rename, and returned |
| InputValue.MakeStringValue | input_value.go:25-30 | the value denotes the given string, and apart from it every field is that of a zero value of type String |
| InputValue.MakeBooleanValue | input_value.go:32-37 | the value denotes the given boolean, and every other field is zero |
| InputValue.MakeIntValue | input_value.go:39-44 | the value denotes the given integer, and every other field is zero |
| InputValue.MakeFloatValue | input_value.go:46-51 | the value denotes the given number, and every other field is zero |
| InputValue.MakeEnumValue | input_value.go:53-58 | the value denotes the enum name, only `isEnum` and the name are set |
| InputValue.MakeNullValue | input_value.go:60-64 | the value denotes null, only `isNull` is set |
| InputValue.MakeArrayValue | input_value.go:66-74 | the value denotes the list, and a nil list becomes an empty non-nil one |
| InputValue.MakeStructValue | input_value.go:76-84 | the value denotes the object, and a nil map becomes an empty one |
| InputValue.MakeVariableValue | input_value.go:86-91 | the value denotes the variable, only `isVar` and the name are set |
| InputValue.ConstructorsDisjoint | input_value.go:25-91 | no two constructors ever build values that denote the same thing |
| Cache.TargetsMatchIsEquality | bytecode/cache/bytecode_cache.go:27 | the target test holds exactly when both targets are nil or both are the same string |
| Cache.FirstMatch | bytecode/cache/bytecode_cache.go:25-31 | no result exactly when no entry matches; otherwise the first entry that matches |
| Cache.Lookup | bytecode/cache/bytecode_cache.go:20-33 | a miss exactly when no entry of the bucket for the query's length has the same query and target; a hit returns such an entry's bytecode, fragment locations and target index |
| Cache.Kept | bytecode/cache/bytecode_cache.go:49-57 | what is kept of a bucket is a prefix of it, shorter than 20 entries, and the whole bucket when it is not full |
| Cache.InsertThenLookup | bytecode/cache/bytecode_cache.go:74 | right after an insert, looking up the same query and target finds the new entry |
| Cache.InsertKeepsOthers | bytecode/cache/bytecode_cache.go:74 | an insert does not change lookups of queries of another length |
| Cache.SetKeepsWellFormed | bytecode/cache/bytecode_cache.go:35-75 | after eviction and insert there are at most 100 buckets, each with at most 20 entries, each entry in the bucket of its length |
| Cache.BytecodeCache.GetEntry | bytecode/cache/bytecode_cache.go:20-33 | the loop returns exactly `Lookup` |
| Cache.BytecodeCache.Evict | bytecode/cache/bytecode_cache.go:36-47 | at 100 buckets, deletes exactly 5 buckets, chosen in an unspecified order, leaving 95; otherwise deletes none |
| Cache.BytecodeCache.SetEntry | bytecode/cache/bytecode_cache.go:35-75 | the bounds are kept, the table is some eviction of the old table with the entry inserted, and looking the entry up gives its bytecode, fragment locations and target index |
| EncodeString.DecodeRune | encodeString.go:59 | `utf8.DecodeRune` consumes 1 to 4 bytes; an ASCII byte is itself; a longer rune consists of continuation bytes after its first |
| EncodeString.EscapeByte | encodeString.go:36-54 | every ASCII byte that is not copied is written as a backslash escape |
| EncodeString.StringToJson | encodeString.go:15-92 | the buffer keeps its contents and gains the quoted, escaped string |
| EncodeString.EncodeBody | encodeString.go:21-90 | the loop with its `start` and `i` cursors writes exactly the escaped string |
| EncodeString.EncodeNext | encodeString.go:21-86 | one round of the loop keeps what is written plus what is still to come unchanged |
| EncodeString.EscapeByteReads | encodeString.go:36-54 | a JSON reader reads each ASCII escape back as the original byte |
| EncodeString.ReplacementReads | encodeString.go:59-67 | `\ufffd` reads back as the UTF-8 bytes of U+FFFD |
| EncodeString.SeparatorReads | encodeString.go:76-83 | `\u2028` and `\u2029` read back as the separator's UTF-8 bytes |
| EncodeString.EncodeRoundTrip | encodeString.go:15-92 | a JSON reader reads the output back as the input with each invalid UTF-8 byte replaced by U+FFFD |
| EncodeString.SanitizedValid | encodeString.go:59-67 | valid UTF-8 has nothing to replace |
| EncodeString.QuotedRoundTrip | encodeString.go:15-92 | for valid UTF-8 the output is a JSON string that reads back as exactly the input |
| EncodeString.TildeEscaped | encodeString.go:22 | `~` (0x7e) is written as `\u007e`, because the copy test stops at `}` |
| Resolver.GetPath | resolver.go:112-117 | the path is turned into a JSON array: brackets around it, and its length grows by at most two |
| Resolver.PathIsJsonArray | resolver.go:112-117 | for a path of field names it is the JSON array of the quoted names |
| Resolver.ErrAt | resolver.go:312-326 | a plain error exactly when the path is empty; otherwise it holds the path, which reads as `GetPath`; the message is kept |
| Resolver.WrapSigned | resolver.go:1387-1400 | the conversion to a signed width lies in range and keeps a value already in range |
| Resolver.WrapUnsigned | resolver.go:1409-1422 | the conversion to an unsigned width lies below the modulus and keeps a value already below it |
| Resolver.CheckSignedNarrowing | resolver.go:1381-1402 | no error exactly when the parsed value fits the target width; otherwise `cannot assign <text> to a <N>bit integer` |
| Resolver.CheckUnsignedNarrowing | resolver.go:1403-1424 | the same for the unsigned widths, with `unsigned integer` |
| Resolver.EnvelopeWithoutErrors | resolver.go:204-232 | without errors the response is `{"data":` + data + `,"errors":[],"extensions":{}}` |
| Resolver.ResolveErrors | resolver.go:208-224 | parse errors are reported as they are; without them and without an operation to run there is exactly one plain error |
| Resolver.RunDirectives | resolver.go:512-529 | the loop stops exactly when some directive skips or fails, and then reports the first such directive's critical flag; the errors it collects are those of every directive run, up to and including the one that stopped |
| Resolver.Ctx.GetValue | resolver.go:84-89 | a value exactly when the key is present in the value map, and then the stored value |
| Resolver.Ctx.GetValueOk | resolver.go:92-98 | the found flag exactly when the key is present, with the same value as `GetValue` |
| Resolver.Ctx.SetValue | resolver.go:101-109 | afterwards the key reads as the new value, other keys read as before, and the key set gains the key (a nil map becomes a new one) |
| Resolver.Ctx.Err | resolver.go:312-326 | appends exactly one error, `ErrAt` of the current path, and returns true |
| Resolver.Ctx.ResolveField | resolver.go:476-591 | the path is restored and the cursor ends after the field on every return; the field is skipped exactly when a directive skips or fails, and then nothing is written and the errors of the directives run so far are recorded (a critical first directive, such as an unknown one, skips the field with exactly its own errors); otherwise it is written after every directive's errors, with a selection exactly when the byte after the directives (right after the header when there are none) is not `e` |
| Resolver.Ctx.ReadFieldHeader | resolver.go:479-510 | reads the directive count, the end of the field and the key, alias and name from the 11-byte field header, and leaves the cursor one byte past the name, as `skipInst(1)` does |
| Resolver.Ctx.WriteField | resolver.go:531-591 | writes the comma, the quoted alias and the value, recording the errors resolving the value produced; `__typename` writes the type name; a field missing from the type records one error; the path is restored |
| Resolver.Ctx.Resolve | resolver.go:149-281 | before the schema is parsed, only the `invalid setup` error and no change to the context or the result; otherwise the errors are `ResolveErrors`; with `NoMeta` the result is the data part alone; otherwise it is the envelope around the data with those errors |
| Resolver.Ctx.WriteData | resolver.go:204-224 | appends the data part and records the operation's errors |
| Resolver.WriteErrors | resolver.go:237-261 | the loop appends exactly the comma-separated JSON objects of the errors |
| Resolver.WriteError | resolver.go:242-259 | one error is written as `message`, then `path` for a path error, or `locations` with line and column for a parse error |
| TestingFramework.WriteUint32At | bytecode/testing_framework.go:7-13 | the array is the same slice, and its contents become `WithUint32At` of the old contents |
| TestingFramework.Patch | bytecode/testing_framework.go:7-13 | back-patching a slot inside a header keeps the bytes before it and everything after the header |
| TestingFramework.FormatInt | bytecode/testing_framework.go:170 | `strconv.AppendInt` writes a minus sign exactly for a negative number |
| TestingFramework.FormatIntRoundTrip | bytecode/testing_framework.go:170 | reading the written digits back gives the number |
| TestingFramework.ValueToBytes | bytecode/testing_framework.go:161-203 | `0 v kind` and a length equal to the number of bytes after the slot; lists and objects end with `0 e` |
| TestingFramework.ValuePayload | bytecode/testing_framework.go:165-200 | a variable, float, string or enum is its own text; a boolean is `1` or `0`; an int is its decimal text; null has no payload; a list is its items then `0 e`; an object is its entries then `0 e`; an unknown kind has no payload |
| TestingFramework.ListItems | bytecode/testing_framework.go:186-188 | no bytes exactly when no items are left; otherwise the next item, written in full, comes first |
| TestingFramework.ObjectEntries | bytecode/testing_framework.go:191-195 | no bytes exactly when no entries are left; otherwise the next entry comes first, as `0 u`, its name, then its value written in full |
| TestingFramework.DirectiveToBytes | bytecode/testing_framework.go:85-100 | `0 d t|f name`, then the arguments exactly when there are some |
| TestingFramework.OperatorArgToBytes | bytecode/testing_framework.go:108-126 | `0 a len name 0 type 0 t|f [default]`, the length counting from the `a` to the end |
| TestingFramework.FieldToBytes | bytecode/testing_framework.go:216-265 | a spread starts `0 s t|f count` and an inline fragment ends with `0 e`; a field starts `0 f count`, has a length covering the bytes after its header, and ends with `0 e` |
| TestingFramework.ArgsBlock | bytecode/testing_framework.go:35-45 | the argument block starts with a slot holding its length, then `0 A`, and ends with `0 e` |
| TestingFramework.OperatorToBytes | bytecode/testing_framework.go:23-58 | `0 o kind t|f count name`, kind 0 becoming `q`; with arguments, the argument block follows; the record ends with `0 e` |
| TestingFramework.FragmentToBytes | bytecode/testing_framework.go:66-78 | `0 F name 0 on`, then the fields and `0 e` |
| BytecodeInstructions.BooleanValueLayout | bytecode/bytecode_instructions.go:163-169 | `0 v b`, a length of 1, then `1` exactly for true |
| BytecodeInstructions.ValueHeaderSlotIsZero | bytecode/bytecode_instructions.go:155-197 | each value header is 7 bytes, with its kind third and a zero length |
| BytecodeInstructions.FieldHeaderAsWrittenMisplaced | bytecode/bytecode_instructions.go:106-108 | with the 7-byte header, the parser's count slot falls 2 bytes before the header, and its revert cuts 4 bytes of earlier output |
| BytecodeInstructions.FieldHeaderOffsets | bytecode/bytecode.go:413-427 | with the 11-byte header, the count, length and hash slots lie inside the header and the revert restores the output exactly |
| BytecodeInstructions.SpreadHeaderAsWrittenMisplaced | bytecode/bytecode_instructions.go:124-130 | with the 4-byte header, the parser's count slot falls 1 byte before the header and the spread's length is written over the header itself |
| BytecodeInstructions.SpreadHeaderOffsets | bytecode/bytecode.go:444-488 | with the 8-byte header, the length goes into the slot after `0 s t|f count` |
| BytecodeLexer.Err | bytecode/bytecode.go:1233-1263 | appends one error carrying the message, the 1-based line and the column since the last line break, `\r\n` counting once |
| BytecodeLexer.LineTerminator | bytecode/bytecode.go:1107-1120 | stays put, or, for `\r\n`, moves one byte to the `\n` |
| BytecodeLexer.ParseComment | bytecode/bytecode.go:1133-1143 | moves forward, up to the end of input |
| BytecodeLexer.IgnoredToken | bytecode/bytecode.go:1101-1104 | moves only over an ignored token |
| BytecodeLexer.MightIgnore | bytecode/bytecode.go:1080-1094 | end of input exactly when the cursor has passed the last byte; otherwise the byte under the cursor, which is not ignored |
| BytecodeLexer.AfterComma | bytecode/bytecode.go:729-735 | a comma is skipped with the ignored tokens after it; any other byte is kept |
| BytecodeLexer.EndOfNumber | bytecode/bytecode.go:807 | the position moves only when the number ends there, over the ignored token that ends it |
| BytecodeLexer.MatchIndex | bytecode/bytecode.go:1164-1221 | `-1` exactly when no keyword occurs at the cursor; otherwise a keyword that occurs there and is preferred over every other one that does |
| BytecodeLexer.Matches | bytecode/bytecode.go:1164-1221 | the cursor stays put on no match and moves past the keyword on a match |
| BytecodeLexer.MatchesWord | bytecode/bytecode.go:1145-1162 | a match is a keyword not followed by a name character, and the cursor moves past it |
| BytecodeLexer.NameRun | bytecode/bytecode.go:1287-1301 | the run of name characters, stopping at 255 |
| BytecodeLexer.ParseAndWriteName | bytecode/bytecode.go:1270-1302 | a name is copied to `Res` exactly as it stands in the query; a bad first character gives length 0 and consumes nothing; the result is critical exactly when 255 characters were read or the input ended |
| BytecodeLexer.KeepsTrans | bytecode/bytecode.go:52-198 | two parsing steps in a row keep what both keep |
| BytecodeQuery.NewEnv | bytecode/bytecode.go:24-35 | `hasTarget` exactly when the target is non-nil and non-empty |
| BytecodeQuery.Document | bytecode/bytecode.go:36-40 | the loop stops at the end of input or with a new error, keeping what was there |
| BytecodeQuery.ParseQueryToBytecode | bytecode/bytecode.go:24-41 | starts from empty state; stops at the end or with an error; `TargetIdx` is -1 or an operation record; every fragment location is the `F` of a fragment record, followed by its name when there are no errors |
| BytecodeQuery.StepTarget | bytecode/bytecode.go:58-94 | only an operation moves `TargetIdx`, to its own start; without a target every operation does |
| BytecodeQuery.StepTargetNamed | bytecode/bytecode.go:58-94 | with a target, an operation takes `TargetIdx` exactly when its name is the target |
| BytecodeQuery.DocumentTarget | bytecode/bytecode.go:36-40 | `TargetIdx` stays -1 or on an operation record through the whole document |
| BytecodeQuery.DocumentTargetIdx | bytecode/bytecode.go:36-94 | over a whole parse `TargetIdx` ends at the record of the last definition that takes it (`LastTaken` over the positions where each definition begins): the last operation without a target, the last operation named by the target with one, and otherwise where it started |
| BytecodeQuery.QueryTargetIdx | bytecode/bytecode.go:24-94 | after `ParseQueryToBytecode`, `TargetIdx` is the record of the last operation (no target) or the last operation whose name is the target, and -1 when there is none |
| BytecodeQuery.StepFrags | bytecode/bytecode.go:129-145 | exactly a fragment definition adds a location, `len(Res)+1`, where the `F` of its record is |
| BytecodeQuery.DocumentFrags | bytecode/bytecode.go:36-40 | every location stays on a fragment record through the whole document, followed by a name while no error occurs |
| BytecodeDocument.ParseOperatorOrFragment | bytecode/bytecode.go:52-198 | one definition moves forward and keeps what was there; when it stops, it is at the end or has added an error |
| BytecodeDocument.Operation | bytecode/bytecode.go:64-128 | writes an operation header of the kind; takes `TargetIdx` exactly when its name is the target |
| BytecodeDocument.OperationNamed | bytecode/bytecode.go:91-128 | `TargetIdx` moves to the record exactly when the name is chosen |
| BytecodeDocument.NameChosen | bytecode/bytecode.go:91-94 | a name is chosen exactly when it is the target as written in the query |
| BytecodeDocument.Fragment | bytecode/bytecode.go:129-145 | adds one location on the `F` of the new record, followed by the fragment's name once it is parsed |
| BytecodeDocument.FragmentOrFail | bytecode/bytecode.go:129-198 | adds a location exactly when the text is `fragment` |
| BytecodeDocument.OperationArgs | bytecode/bytecode.go:96-117 | keeps the operation header and moves forward when it succeeds; the arguments flag of the header is `t` exactly when `(` follows the name, and otherwise stays as the header wrote it |
| BytecodeDocument.ArgsEnd | bytecode/bytecode.go:110-128 | after the arguments, the length slot and the directives leave the `t` flag in place and keep the header |
| BytecodeDocument.OperationDirectives | bytecode/bytecode.go:119-128 | keeps the operation header and moves forward when it succeeds; what it writes starts with the bytes it was given, except that the directives-count byte of the header now holds the number of directives read, written before a critical error is passed on |
| BytecodeDocument.DirectivesThen | bytecode/bytecode.go:120-128 | the count is written first; then a critical result, the `{` check or the selection set, none of which touches the bytes before |
| BytecodeDocument.FlagSurvives | bytecode/bytecode.go:101-120 | writing the directive count leaves the arguments flag alone |
| BytecodeDocument.TypeCondition | bytecode/bytecode.go:146-196 | moves forward when it succeeds; then the query held `on` after the ignored tokens, and the record holds, where `Res` ended, a `0` followed by the type-condition name exactly as the query spells it after the ignored tokens that follow `on` |
| BytecodeDocument.OnKeyword | bytecode/bytecode.go:146-162 | fails at the end of input or on anything but `o` then `n`; on success it only moves past `on` |
| BytecodeDocument.TypeName | bytecode/bytecode.go:164-196 | on success the record holds `0` and the name read after the ignored tokens, a whole name shorter than 255 bytes |
| BytecodeDocument.NameCondition | bytecode/bytecode.go:169-176 | a name read after the `0` and kept by what follows is that type condition |
| BytecodeParser.ParseDirectives | bytecode/bytecode.go:299-340 | at most 255 directives; on success the cursor is on a byte other than `@` and no error was added |
| BytecodeParser.DirectivesLoop | bytecode/bytecode.go:300-311 | the count only grows and stays at most 255; the loop stops on the spot with `cannot have more than 255 directives` exactly when 255 directives are read and the next significant byte is `@` |
| BytecodeParser.DirectiveAfterName | bytecode/bytecode.go:320-338 | an empty directive name fails and adds an error; success means the name was not empty, and then the cursor moves forward, no error is added and the record up to the has-arguments flag is kept |
| BytecodeParser.ParseTypeName | bytecode/bytecode.go:342-400 | on success the bytes written are a type encoding: `n`/`N` name or `l`/`L` type |
| BytecodeParser.TypeMark | bytecode/bytecode.go:388-396 | marking a type non-null keeps it a type encoding |
| BytecodeParser.ParseOperatorArguments | bytecode/bytecode.go:200-232 | moves forward and adds no error when it succeeds; the arguments end with `0 e` |
| BytecodeParser.ParseOperatorArgument | bytecode/bytecode.go:234-297 | on success it adds no error and moves on, and the record it wrote is `0 a` and the length of the rest, then reads back as the name found after the `$` (the same bytes as the query there), `0`, a type encoding, `0`, and the default flag: `t` before the default value, or `f` as the record's last byte |
| BytecodeParser.FieldsReadBack | bytecode/bytecode.go:249-289 | an argument record written with a name and a type encoding of some length reads back, up to each `0`, as exactly that name and length |
| BytecodeSelections.ParseSelectionSet | bytecode/bytecode.go:402-606 | moves forward to no further than the end when it succeeds, keeping what was there |
| BytecodeLayout.SelectionLayout | bytecode/bytecode.go:402-606 | a selection that parses is one complete field record or one complete spread record |
| BytecodeLayout.FieldRestLayout | bytecode/bytecode.go:531-591 | a field with its name in place becomes a complete field record: names, hash of the looked-up name, length covering the bytes after the header, closing `0 e` |
| BytecodeLayout.FieldAliasLayout | bytecode/bytecode.go:517-545 | after `alias:` the real name follows and the hash is that of the real name |
| BytecodeLayout.AliasHashLayout | bytecode/bytecode.go:533-540 | the hash slot gets the real name's hash |
| BytecodeLayout.NameWritten | bytecode/bytecode.go:524-530 | a nonempty name read without a critical error appends exactly that name, a valid name of at most 255 bytes, and keeps what was there |
| BytecodeLayout.AliasTargetLayout | bytecode/bytecode.go:524-545 | once a nonempty real name is read after `alias:`, the field record completes with that name after its length byte |
| BytecodeLayout.AliasReadStep | bytecode/bytecode.go:531-537 | after the real name, the length byte is set and the rest is the hash step |
| BytecodeLayout.AliasHead | bytecode/bytecode.go:531 | setting the length byte keeps the field head and leaves the real name right after its length |
| BytecodeLayout.ParenEof | bytecode/bytecode.go:556-561 | a `(` followed only by ignored tokens is a critical error |
| BytecodeLayout.ParenArgs | bytecode/bytecode.go:556-563 | after `(` and the ignored tokens, the field's argument set is parsed from the first significant byte |
| BytecodeLayout.SpreadOrFailLayout | bytecode/bytecode.go:428-490 | a spread that parses is a complete spread record |
| BytecodeLayout.SpreadTailLayout | bytecode/bytecode.go:474-490 | the length completes a fragment spread; an inline fragment's selections end in `0 e` first |
| BytecodeValues.ParseInputValue | bytecode/bytecode.go:670-774 | on success a value record was written: `0 v kind` and a length slot covering the rest; the cursor moved and no error was added |
| BytecodeValues.ParseNumberInputValue | bytecode/bytecode.go:776-899 | a number is a value record of kind int or float |
| BytecodeValues.NumberValueRead | bytecode/bytecode.go:776-899 | a number read without error spans the whole run of number bytes, which follows the grammar `[+-]? D* ('.' D*)? ([eE] [+-]? D*)?` and ends at end-of-number; its kind is float exactly when the text has `.`, `e` or `E`, otherwise int; its payload is the text with `+` and `_` dropped and `e` written `E`; a run that reaches the end of the input is an error |
| BytecodeValues.SecondMarkFails | bytecode/bytecode.go:834-880 | a `.` after a `.` or an exponent, or a second exponent marker, inside a number makes reading it fail |
| BytecodeValues.SecondMarkMalformed | bytecode/bytecode.go:834-880 | in the number grammar, a `.` after a float marker or an exponent after an exponent leaves the text malformed |
| BytecodeValues.MalformedStays | bytecode/bytecode.go:799-896 | a malformed number text stays malformed whatever follows |
| BytecodeValues.PartMarks | bytecode/bytecode.go:821-857 | the grammar state records the markers seen: int states have none, the fraction has `.` and no exponent, the exponent states have an `e` or `E` |
| BytecodeValues.UpToIsText | bytecode/bytecode.go:799-896 | reading position by position agrees with the grammar state and the float test on the text itself |
| BytecodeValues.ParseStringInputValue | bytecode/bytecode.go:901-1055 | a string is a value record whose length counts the decoded bytes |
| BytecodeValues.UnicodeEscape | bytecode/bytecode.go:1011-1045 | a `\u` escape keeps the length slot of its string record correct |
| BytecodeValues.ParseListValue | bytecode/bytecode.go:701-744 | a list is a value record whose length covers its items and `0 e` |
| BytecodeValues.ParseAssignmentSet | bytecode/bytecode.go:610-668 | an object or argument set is a value record whose length covers its fields and `0 e` |
| BytecodeValues.ParseKeywordOrEnum | bytecode/bytecode.go:751-773 | `true`, `false`, `null` and enum names are value records |
| BytecodeValues.ValueInSlot | bytecode/bytecode.go:640-664 | a value parsed inside a record keeps the enclosing record's slot promise |
| BytecodeCtx.ParserCtx.constructor | bytecode/bytecode.go:16-22 | the context holds the query and hasher, with empty output and `TargetIdx` -1 |
| BytecodeCtx.ParserCtx.ParseQueryToBytecode | bytecode/bytecode.go:24-41 | the state after the method is exactly `BytecodeQuery.ParseQueryToBytecode` |
| BytecodeCtx.ParserCtx.ParseDefinitions | bytecode/bytecode.go:36-40 | the loop ends in exactly the state `Document` describes |
| BytecodeCtx.ParserCtx.ParseOperatorOrFragment | bytecode/bytecode.go:52-198 | skips ignored tokens, stops at the end of input, and dispatches on `{`, an operation keyword or `fragment`; an operation in a query without a target sets `TargetIdx` to where its header starts; the resulting state and stop flag are those of `BytecodeDocument.ParseOperatorOrFragment` |
| BytecodeCtx.ParserCtx.WriteUint32 | bytecode/bytecode.go:43-48 | `Res` becomes `WithUint32At`; nothing else changes |
| BytecodeCtx.ParserCtx.InstructionNewOperation | bytecode/bytecode_instructions.go:50-54 | appends `0 o kind f 0` and returns the old length of `Res` |
| BytecodeCtx.ParserCtx.InstructionNewOperationArgs | bytecode/bytecode_instructions.go:56-58 | appends `0 A` |
| BytecodeCtx.ParserCtx.InstructionNewOperationArg | bytecode/bytecode_instructions.go:73-76 | appends `0 a` and four zero bytes, and returns the index of the first of them |
| BytecodeCtx.ParserCtx.InstructionNewFragment | bytecode/bytecode_instructions.go:88-92 | appends `0 F` and returns the old length |
| BytecodeCtx.ParserCtx.InstructionNewField | bytecode/bytecode_instructions.go:106-108 | appends the 7-byte header as written |
| BytecodeCtx.ParserCtx.InstructionNewFragmentSpread | bytecode/bytecode_instructions.go:124-130 | appends the 4-byte header as written, `t` exactly for an inline fragment |
| BytecodeCtx.ParserCtx.InstructionNewDirective | bytecode/bytecode_instructions.go:141-143 | appends `0 d f` |
| BytecodeCtx.ParserCtx.InstructionNewValue | bytecode/bytecode_instructions.go:155-197 | appends `0 v kind` and a zero length |
| BytecodeCtx.ParserCtx.InstructionNewValueBoolean | bytecode/bytecode_instructions.go:163-169 | appends `0 v b`, length 1, and `1` or `0` |
| BytecodeCtx.ParserCtx.InstructionStartNewValueObjectField | bytecode/bytecode_instructions.go:212-214 | appends `0 u` |
| BytecodeCtx.ParserCtx.InstructionEnd | bytecode/bytecode_instructions.go:229-231 | appends `0 e` |
| BytecodeCtx.ParserCtx.IsLineTerminator | bytecode/bytecode.go:1107-1120 | as `LineTerminator` |
| BytecodeCtx.ParserCtx.ParseComment | bytecode/bytecode.go:1133-1143 | as `BytecodeLexer.ParseComment` |
| BytecodeCtx.ParserCtx.IsIgnoredToken | bytecode/bytecode.go:1101-1104 | as `IgnoredToken` |
| BytecodeCtx.ParserCtx.MightIgnoreNextTokens | bytecode/bytecode.go:1080-1094 | as `MightIgnore` |
| BytecodeCtx.ParserCtx.Matches | bytecode/bytecode.go:1164-1221 | the key-narrowing loop gives exactly `BytecodeLexer.Matches` |
| BytecodeCtx.ParserCtx.MatchesWord | bytecode/bytecode.go:1145-1162 | as `BytecodeLexer.MatchesWord` |
| BytecodeCtx.ParserCtx.Err | bytecode/bytecode.go:1233-1263 | the line-counting loop gives exactly `BytecodeLexer.Err`, and returns true |
| BytecodeCtx.ParserCtx.UnexpectedEOF | bytecode/bytecode.go:1265-1268 | records the end-of-input error and returns true |
| BytecodeCtx.ParserCtx.ParseAndWriteName | bytecode/bytecode.go:1270-1302 | the copy loop gives exactly `BytecodeLexer.ParseAndWriteName` |
| BytecodeCtx.ParserCtx.CopyNameRest | bytecode/bytecode.go:1287-1301 | copies the run of name characters, up to 255, to `Res` |
| BytecodeCtx.ParseIsDocument | bytecode/bytecode.go:24-41 | the parse is the document loop run from the empty state |
| BytecodeCtx.DocumentStep | bytecode/bytecode.go:36-40 | one round of the loop: a critical definition ends it, otherwise it goes on from further ahead |
| BytecodeCtx.MatchIndexIs | bytecode/bytecode.go:1164-1221 | a keyword that occurs and is preferred over every other occurring one is the match |
| BytecodeCtx.FirstComplete | bytecode/bytecode.go:1200-1215 | the first key completed while narrowing is the match |
| BytecodeCtx.NameRunIs | bytecode/bytecode.go:1287-1301 | the run the copy loop stops at is `NameRun` |
| Agreement.EmptyQueryAgrees | bytecode/testing_framework.go:23-58 | `{}` parses without errors into exactly the reference bytecode of an empty query operator |
| Agreement.KeywordAgrees | bytecode/testing_framework.go:23-58 | `query {}`, `mutation {}` and `subscription {}` parse into exactly the reference bytecode of their kind |
| Agreement.NamedAgrees | bytecode/testing_framework.go:23-58 | `query banana {}` parses into exactly the reference bytecode of the operator named `banana` |
| Agreement.NameAgrees | bytecode/testing_framework.go:23-58 | for every GraphQL name shorter than 255 bytes, `query <name> {}` parses without errors into exactly the reference bytecode of the query operator with that name |
| QueryLexer.SkipIgnored | query_parser.go:1175-1189 | stops on a byte that is not ignored, or past the end; a byte that is not ignored is not skipped |
| QueryLexer.SkipIgnoredIdempotent | query_parser.go:1175-1189 | skipping twice is skipping once |
| QueryLexer.NameEndIsLongestName | query_parser.go:1134-1168 | the name read is a name and cannot be extended; it is empty exactly at the end or before a byte that cannot start a name |
| QueryLexer.FloatIffMarked | query_parser.go:550-719 | a number is a float exactly when a `.`, `e` or `E` occurs in it |
| QueryLexer.IntegerShape | query_parser.go:550-719 | an integer is an optional `-` and digits without a leading zero |
| QueryLexer.ScanString | query_parser.go:388-508 | a string that scans ends after its opening quote; what it denotes is stated by the lemmas below |
| QueryLexer.PlainLineBreakRejected | query_parser.go:430-434 | a raw carriage return or line feed in a plain string is the "use a block string" error |
| QueryLexer.BlockStringTrimmed | query_parser.go:405-428 | a block string without quotes or backslashes in it denotes its content, line breaks kept, with the surrounding white space trimmed |
| QueryLexer.OneByteEscape | query_parser.go:435-504 | `\b`, `\f`, `\n`, `\r`, `\t` denote backspace, form feed, line feed, carriage return and tab; a backslash before any other byte but `u` denotes that byte |
| QueryLexer.NotFloatCases | query_parser.go:633-703 | a `.` without a digit after it, and an exponent without a digit after its optional sign, are "not a valid float", after the integer part or after the fraction |
| QueryLexer.IntegerPartThen | query_parser.go:586-624 | after the optional `-` and the integer part (`0`, or digits), the number reads on from where the integer part ends |
| QueryLexer.ExponentNeedsDigit | query_parser.go:691-703 | an `e` or `E` whose optional sign is not followed by a digit is "not a valid float" |
| QueryLexer.EscapeRoundTrip | query_parser.go:388-508 | the string body written with `"`, `\`, line feed and carriage return escaped scans back to exactly the original bytes |
| QueryParser.IntLiteralRoundTrip | query_parser.go:550-719 | the decimal text of any 64-bit integer parses back to that integer |
| QueryParser.StringLiteral | query_parser.go:388-508 | a string that parses ends after its opening quote |
| QueryParser.StringLiteralRoundTrip | query_parser.go:388-508 | a quoted and escaped string parses back to exactly the original bytes |
| QueryParser.SweepKeys | query_parser.go:1248-1268 | one round of `matches`: a key completed by this byte, or the keys that still agree with it |
| QueryParser.NameValue | query_parser.go:369-384 | `null` is null, `true` and `false` are booleans, any other name is an enum |
| QueryParser.Iter.IsLineTerminator | query_parser.go:1202-1215 | true exactly for `\n` or `\r`; `\r\n` moves one byte |
| QueryParser.Iter.ParseComment | query_parser.go:1228-1238 | moves to the end of the comment line |
| QueryParser.Iter.IsComment | query_parser.go:1218-1226 | true exactly for `#`, and then skips the comment when asked |
| QueryParser.Iter.IsIgnoredToken | query_parser.go:1171-1173 | true exactly for an ignored byte, and then skipping goes on from after it |
| QueryParser.Iter.MightIgnoreNextTokens | query_parser.go:1175-1189 | moves to `SkipIgnored`, and returns its byte, or the end-of-input error exactly when past the end |
| QueryParser.Iter.Matches | query_parser.go:1240-1273 | returns a shortest key that occurs at the cursor and moves past it; with no key occurring it returns nothing and the cursor is restored |
| QueryParser.Iter.ParseName | query_parser.go:1134-1168 | reads the longest name at the cursor; nothing, without moving, before a byte that cannot start one; the end-of-input error exactly at the end |
| QueryParser.Iter.ParseUnicodeEscape | query_parser.go:448-488 | reads the `\u` escape exactly as `UnicodeEscape` |
| QueryParser.Iter.ParseString | query_parser.go:388-508 | returns the value and end of `StringLiteral`, or its error |
| QueryParser.Iter.ParseNumberValue | query_parser.go:550-719 | returns the value and end of `NumberLiteral`, or its error |
| QueryParser.Iter.ParseValue | query_parser.go:325-386 | by first byte: a variable named other than `null`, a number, a string, a list, an object, or a keyword or enum name; anything else is `invalid value` |
| QueryParser.Iter.ParseListValue | query_parser.go:511-545 | `]` right away gives the empty list; a leading comma is an invalid value; success ends after `]` |
| QueryParser.Iter.ParseArgumentsOrObjectValues | query_parser.go:1019-1081 | the closure right away gives no arguments; otherwise a name is needed; success ends after the closure, with every argument named |
| QueryParser.Iter.ParseVariable | query_parser.go:770-791 | a `$` is needed unless already read; the name may not be empty or `null` |
| QueryParser.Iter.ParseDirectives | query_parser.go:1084-1103 | no `@` gives no directives; otherwise at least one, and the cursor stops on a byte other than `@` |
| QueryParser.Iter.ParseDirective | query_parser.go:1106-1131 | a directive needs a name; arguments only when `(` follows |
| QueryParser.Iter.ParseType | query_parser.go:722-767 | succeeds exactly when `TypeAt` reads a type at the cursor, and returns that type and its end; the type has `TypeShape`: a list type exactly for `[`, whose element is the type read after the bracket; otherwise a named type spelled by the longest name; non-null exactly when a `!` follows, and otherwise the cursor stops on a byte other than `!`; a byte that starts neither a list nor a name gives the type-name error |
| QueryParser.TypeAtFacts | query_parser.go:722-767 | every type `TypeAt` reads is well named and has `TypeShape`, by induction over the nesting of list types |
| QueryParser.Iter.ReadType | query_parser.go:722-767 | the recursion of `parseType`: it ends in the type and position `TypeAt` gives, or in an error exactly when `TypeAt` gives none |
| QueryParser.Iter.ParseListType | query_parser.go:725-745 | after `[`: the element type, the `]` and the optional `!`, exactly as `TypeAt` reads a list type; an error exactly when it reads none |
| QueryParser.Iter.CloseListType | query_parser.go:739-745 | the `]` after ignored tokens and then the optional `!`, as `ListClosed` reads them; an error exactly when `ListClosed` reads none |
| QueryParser.Iter.ParseNamedType | query_parser.go:746-755 | a name and the optional `!` as `TypeAt` reads them; the type-name error when no name starts at the cursor |
| QueryParser.Iter.NonNullSuffix | query_parser.go:758-764 | the `!` after ignored tokens as `NonNullMark` reads it: the type becomes non-null exactly when a `!` follows, otherwise the cursor stops on the next byte; end-of-input gives the end-of-input error |
| QueryParser.Iter.ParseVariableDefinitions | query_parser.go:243-263 | `)` right away gives none; every definition starts with `$`; success ends after `)` |
| QueryParser.Iter.ParseVariableDefinition | query_parser.go:266-322 | a definition starts with `$` and yields a named variable with a type |
| QueryParser.Iter.ParseSelectionSets | query_parser.go:794-827 | `}` right away gives no selections; success ends after `}` with every selection named |
| QueryParser.Iter.ParseSelection | query_parser.go:830-869 | a field exactly when the selection does not start with `...` |
| QueryParser.Iter.ParseInlineFragment | query_parser.go:872-913 | a type condition exactly when asked for, and then a name is needed; success ends after `}` |
| QueryParser.Iter.ParseFragmentSpread | query_parser.go:916-932 | the spread keeps its name, with directives only when `@` follows |
| QueryParser.Iter.ParseField | query_parser.go:935-1014 | the name as written is the alias when there is one, otherwise the field name; a field needs a name |
| QueryParser.Iter.ParseOperatorOrFragment | query_parser.go:149-240 | nothing exactly for input of ignored tokens only; `{` gives an unnamed query; a word that does not start with a keyword gives `unknown operation type`; otherwise the keyword is the operation type; the operator begins at the first position not an ignored token and ends before where reading stops |
| QueryParser.Iter.ParseVariablesAndDirectives | query_parser.go:201-232 | `{` gives neither; a byte other than `(`, `@` or `{` gives `unexpected character` |
| QueryParser.ParseQuery | query_parser.go:104-120 | operators exactly when there is no error, every one well formed; none exactly for input of ignored tokens only; the operators are read one after the other in text order, each beginning where the previous one ended (past ignored tokens) at a `{` (an unnamed query) or at the keyword of its type, and only ignored tokens follow the last |
| QueryParser.OperatorsStartInOrder | query_parser.go:104-120 | operators read in order begin at strictly increasing positions, each at or after the end of every earlier one |

## Left out

- Reflection-driven resolving (`resolve.go`, `exec.go`, `resolveFieldDataValue`, `callQlMethod`, `bindJSONToValue`, `assignStringToValue`, `valueToJson`, `bindInputToGoValue` beyond the integer narrowing): it calls user Go code through `reflect`. `Resolver.Ctx.ResolveField` takes the directive outcomes and the field's value as parameters.
- Float parsing (`strconv.ParseFloat`) and `encodeFloat.go`: the AST parser takes the float parser as a parameter, and the bytecode parser keeps a float as its text.
- Tracing, clocks, HTTP dispatch, the schema mutex and goroutines: not part of query processing.
- UTF-16 surrogate pairs: a `\u` escape decodes one unit, and a lone surrogate becomes U+FFFD, as `utf16.Decode` does for one unit.
- Go map iteration order: `Cache.BytecodeCache.Evict` deletes buckets chosen by `:|`, so any order is allowed.
- Copies in `SetEntry` (bytecode/cache/bytecode_cache.go:59-72): the model stores values, so aliasing between the caller's buffers and the cache cannot arise.
- The field-name hasher is a parameter of the bytecode parser; `Fnv` models the FNV-1 hash every caller installs, and `SchemaNames.FieldKeyIsObjKey` ties the two together.
- Nil maps and slices are modelled as empty ones, except where the source tells them apart (`InputValue.MakeArrayValue`, `InputValue.MakeStructValue`, `Resolver.Ctx.GetValue`).
- `string(c)` of a byte in error messages is the UTF-8 encoding of the code point `c`, as `Bytes.RuneStr` states.
- BytecodeCtx.ParserCtx.ParseOperatorOrFragment: the operation's name, arguments, directives and selection set, and the fragment body, are not methods of `ParserCtx`; it takes them from the functional model.
- SchemaNames.TrimSpace: trims the six ASCII white-space bytes only; `strings.TrimSpace` also trims the UTF-8 encodings of U+0085, U+00A0, U+1680, U+2000 to U+200A, U+2028, U+2029, U+202F, U+205F and U+3000, so a `gq` tag part, a `TypeRename` name or a block string that starts or ends with one of those keeps it in the model.
- BytecodeValues.ParseStringInputValue: states the record layout only; the decoded bytes are in its body, not its contract.
- BytecodeDocument.OperationArgs: the value written into the four-byte slot after an operation's name (the byte length of its arguments, bytecode.go:115-116) is computed in the body but stated by no contract; the `t` flag before it and the directive count after it are.
- BytecodeSelections.ParseSelectionSet: states progress and framing; the record layout is stated per selection by `BytecodeLayout.SelectionLayout`.
- Resolver.Ctx.ResolveField: the value written for a field and the errors resolving it records come from a parameter, not from calling the resolver method; each directive's outcome, including the `unknown directive` error for one the schema does not define (resolver.go:638-654), is a parameter too, not looked up in the schema.
- Resolver.Ctx.Resolve: the line printed to standard output before `invalid setup` (resolver.go:151) is output, not state, and is not modelled; whether the schema is parsed is a parameter.
- QueryParser.Iter.ParseValue: lists and objects are stated by their shape and closing bracket, not by their items.
- QueryParser.Iter.ParseListValue: the list's items are not stated one by one; only the empty list, the end-of-input and leading-comma errors, and the end after `]` are.
- QueryParser.Iter.ParseArgumentsOrObjectValues: each argument is stated to be named, but its value is not stated.
- QueryParser.Iter.ParseOperatorOrFragment: fragments are stated to be well formed, not item by item.
- QueryLexer.ScanString: its own contract states where the string ends; what it denotes is stated by `PlainLineBreakRejected`, `OneByteEscape` and `EscapeRoundTrip`, and by `BlockStringTrimmed` only for block strings with no `"` or `\` inside.
- Agreement: the parser and the reference encoder are shown to agree on `{}`, on the three operation keywords and on `query <name> {}` for every name; operations with arguments, types and defaults, directives or fields, and fragments are not covered.

Behaviour kept as written, which can surprise a reader:

- `isUnicodeBom` in the AST parser compares a byte with U+FEFF, so it never holds.
- In both parsers, a comment at the end of input leaves `charNr` one past the end (`BytecodeLexer.MightIgnore`, `QueryLexer.SkipIgnored`).
- `matches`, in both the bytecode parser and the AST parser (query_parser.go:1240-1273), tests only that a keyword is a prefix, so `queryX {}` is a query named `X`; `matchesWord` also requires a non-name character after it.
- In the AST parser, the byte after an operation's directives is consumed without a check (query_parser.go:222-233, `QueryParser.Iter.ParseVariablesAndDirectives`); the bytecode parser checks that it is `{`.
- In the AST parser, `\u0000` appends nothing, `\u00XX` appends the raw byte, and a backslash before a raw line break is accepted.
- The error branches at query_parser.go:679-682 cannot be reached, and neither can the `hex.Decode` error in the AST parser.
- `parseVariable(false)` and `currentC` read the current byte without a bounds check; the model requires the byte to exist there.
- When a parser method fails, the values it returns beside the error are not specified.
- The result of the nested selection set of an inline fragment is ignored (bytecode/bytecode.go:480), so parsing goes on after an error there.
- `stringToJson` escapes `~` (`EncodeString.TildeEscaped`), because its copy test stops at `}`.
- `formatGoNameToQL` lowers the first byte of a name on its own with `bytes.ToLower`; a byte of 0x80 or more is not valid UTF-8 alone, so a name starting with a multi-byte letter gets U+FFFD in its place (`SchemaNames.FormatNonAsciiFirst`).

## Findings

| source | as written | input that shows it | evidently intended | confidence | as-written member | corrected member |
|---|---|---|---|---|---|---|
| bytecode/bytecode_instructions.go:106-108 | `instructionNewField` appends a 7-byte header, but bytecode/bytecode.go:415-427 and resolver.go:479-485 read an 11-byte header (directive count, uint32 length, uint32 name hash) | the field in `{a}`: the count is written 2 bytes before the header and the revert for a missing name cuts 4 bytes of the operation record | an 11-byte header `0 f count len4 hash4` | not executed | BytecodeInstructions.FieldHeaderAsWrittenMisplaced | BytecodeInstructions.FieldHeaderOffsets |
| bytecode/bytecode_instructions.go:124-130 | `instructionNewFragmentSpread` appends 4 bytes, but bytecode/bytecode.go:445 and 488 use the count at `len(Res)-5` and the length slot at `len(Res)-4` | `{...a}`: the length overwrites `0 s t|f count` | an 8-byte header `0 s t|f count len4` | not executed | BytecodeInstructions.SpreadHeaderAsWrittenMisplaced | BytecodeInstructions.SpreadHeaderOffsets |
| enums.go:75 | `IsNil` is called before the kind is checked, and it panics for kinds that cannot be nil | `RegisterEnum(1)` | check the kind first, and return the invalid-type error | not executed | Enums.NonMapInputPanics | Enums.CheckInput |
| enums.go:111 | `k.Interface().(string)` asserts the key's dynamic type, while line 85 only checks that the key's kind is string | `RegisterEnum(map[K]Animal{"a": 1})` with `type K string`: the assertion panics | read the key with `k.String()`, which accepts every key type line 85 accepts | not executed | Enums.NamedStringKeyPanics | Enums.KeyString |
| interfaces.go:53 | the message prints the struct's package path twice and never the struct's name | `Implements((*I)(nil), Foo{})` with `Foo` lacking a method of `I` | `<struct> does not implement <interface>` | not executed | Interfaces.NotImplementedMsgLosesName | Interfaces.NotImplementedMsg |
