/**
 * The tree the query parser builds (query_parser.go:17-100), and what it
 * means for such a tree to be well named: every name the parser stores is a
 * GraphQL name, and every map is keyed by the name of what it holds.
 * A nil Go map or slice of the tree is an empty one here.
 */
module QueryAst {
  import opened Wrappers
  import opened Bytes
  import opened InputValue
  import opened BytecodeLexer

  /** `Arguments`: argument or object field name to value. */
  type Arguments = map<seq<byte>, Value>

  /** `Directive`. */
  datatype Directive = Directive(name: seq<byte>, arguments: Arguments)

  /** `Directives`: directive name to directive. */
  type Directives = map<seq<byte>, Directive>

  /** `TypeReference`: `list` tells a list type, with `listType`, from a named one, with `name`. */
  datatype TypeReference =
    | NamedType(name: seq<byte>, nonNull: bool)
    | ListType(listType: TypeReference, nonNull: bool)

  /** `VariableDefinition`. */
  datatype VariableDefinition = VariableDefinition(name: seq<byte>, varType: TypeReference, defaultValue: Option<Value>)

  /** `VariableDefinitions`: variable name to definition. */
  type VariableDefinitions = map<seq<byte>, VariableDefinition>

  /** `Selection`, whose `selectionType` says which of the three it holds. */
  datatype Selection =
    | FieldSelection(field: Field)
    | FragmentSpreadSelection(fragmentSpread: FragmentSpread)
    | InlineFragmentSelection(inlineFragment: InlineFragment)

  /** `Field`; `alias` is empty when there is none. */
  datatype Field = Field(name: seq<byte>, alias: seq<byte>, selection: seq<Selection>, directives: Directives, arguments: Arguments)

  /** `FragmentSpread`. */
  datatype FragmentSpread = FragmentSpread(name: seq<byte>, directives: Directives)

  /** `InlineFragment`; `onTypeConditionName` is empty when there is no type condition. */
  datatype InlineFragment = InlineFragment(selection: seq<Selection>, onTypeConditionName: seq<byte>, directives: Directives)

  /** `Operator`: an operation, or a fragment definition when `operationType` is `fragment`. */
  datatype Operator = Operator(
    operationType: seq<byte>,
    name: seq<byte>,
    selection: seq<Selection>,
    directives: Directives,
    variableDefinitions: VariableDefinitions,
    fragment: Option<InlineFragment>)

  const Query: seq<byte> := Str("query")
  const Mutation: seq<byte> := Str("mutation")
  const Subscription: seq<byte> := Str("subscription")
  const Fragment: seq<byte> := Str("fragment")
  const OperationTypes: set<seq<byte>> := {Query, Mutation, Subscription, Fragment}
  const NullName: seq<byte> := Str("null")
  const On: seq<byte> := Str("on")

  /** Every argument name is a name. */
  predicate ArgumentsNamed(args: Arguments)
  {
    forall k :: k in args ==> IsName(k)
  }

  /** Every directive is stored under its own name, which is a name, and has named arguments. */
  predicate DirectivesNamed(ds: Directives)
  {
    forall k :: k in ds ==> ds[k].name == k && IsName(k) && ArgumentsNamed(ds[k].arguments)
  }

  /** A named type's name is a name, at any depth of list nesting. */
  predicate TypeNamed(t: TypeReference)
  {
    match t
    case NamedType(name, _) => IsName(name)
    case ListType(inner, _) => TypeNamed(inner)
  }

  /** A variable is a name other than `null`, of a named type. */
  predicate VariableDefinitionNamed(v: VariableDefinition)
  {
    IsName(v.name) && v.name != NullName && TypeNamed(v.varType)
  }

  /** Every definition is stored under its own variable's name. */
  predicate VariableDefinitionsNamed(defs: VariableDefinitions)
  {
    forall k :: k in defs ==> defs[k].name == k && VariableDefinitionNamed(defs[k])
  }

  /** Every selection of the set is well named. */
  predicate SelectionsNamed(ss: seq<Selection>)
    decreases ss
  {
    forall i :: 0 <= i < |ss| ==> SelectionNamed(ss[i])
  }

  /**
   * A field has a name and an alias that is empty or a name; a fragment
   * spread names a fragment other than `on`; an inline fragment's type
   * condition is empty or a name. Directives, arguments and nested
   * selections are well named too.
   */
  predicate SelectionNamed(s: Selection)
    decreases s
  {
    match s
    case FieldSelection(f) =>
      IsName(f.name) && (f.alias == [] || IsName(f.alias))
      && DirectivesNamed(f.directives) && ArgumentsNamed(f.arguments) && SelectionsNamed(f.selection)
    case FragmentSpreadSelection(fs) =>
      IsName(fs.name) && fs.name != On && DirectivesNamed(fs.directives)
    case InlineFragmentSelection(inl) =>
      (inl.onTypeConditionName == [] || IsName(inl.onTypeConditionName))
      && DirectivesNamed(inl.directives) && SelectionsNamed(inl.selection)
  }

  /**
   * An operator the parser returns: one of the four operation types; a
   * fragment definition has a name and an inline fragment with a type
   * condition, and nothing else; any other operation has no fragment.
   */
  predicate OperatorWellFormed(op: Operator)
  {
    op.operationType in OperationTypes
    && (op.name == [] || IsName(op.name))
    && DirectivesNamed(op.directives)
    && VariableDefinitionsNamed(op.variableDefinitions)
    && SelectionsNamed(op.selection)
    && (op.operationType == Fragment <==> op.fragment.Some?)
    && (op.fragment.Some? ==>
          IsName(op.name) && IsName(op.fragment.value.onTypeConditionName)
          && DirectivesNamed(op.fragment.value.directives) && SelectionsNamed(op.fragment.value.selection)
          && op.selection == [] && op.directives == map[] && op.variableDefinitions == map[])
  }
}
