/** The part of the GraphQL abstract syntax tree that query normalization
    looks at: documents, their definitions, and the selection sets inside
    operations, fragments, fields and inline fragments. The tree is immutable;
    every rewrite builds a new value. */
module GraphqlAst {
  import opened Wrappers

  /** The reserved meta-field that normalization erases. */
  const TypenameField: string := "__typename"

  /** An argument of a field; its value is kept as an opaque literal. */
  datatype Argument = Argument(name: string, value: string)

  /** A directive such as `@include(if: $x)`: its name and arguments. */
  datatype Directive = Directive(name: string, arguments: seq<Argument>)

  /** A variable declared by an operation, such as `$id: ID! = 1`: its name,
      its type and its optional default value, each kept as opaque text. */
  datatype VariableDefinition = VariableDefinition(name: string, varType: string, defaultValue: Option<string>)

  /** One entry of a `{ ... }` block. `Field` and `InlineFragment` may own a
      nested selection set (absent for a leaf field); a fragment spread only
      names its fragment. `OtherSelection` stands for any further selection
      kind the parser may produce. */
  datatype Selection =
    | Field(alias: Option<string>, name: string, arguments: seq<Argument>,
            directives: seq<Directive>, selectionSet: Option<SelectionSet>)
    | InlineFragment(typeCondition: Option<string>, directives: seq<Directive>,
                     selectionSet: Option<SelectionSet>)
    | FragmentSpread(name: string, directives: seq<Directive>)
    | OtherSelection(text: string)

  /** An ordered `{ ... }` block of selections. */
  datatype SelectionSet = SelectionSet(selections: seq<Selection>)

  datatype OperationKind = Query | Mutation | Subscription

  /** A top-level definition. Operations may be anonymous (`operationName == None`).
      `OtherDefinition` stands for schema or extension definitions, which
      normalization leaves alone. */
  datatype Definition =
    | OperationDefinition(kind: OperationKind, operationName: Option<string>,
                          variableDefinitions: seq<VariableDefinition>,
                          directives: seq<Directive>, selectionSet: Option<SelectionSet>)
    | FragmentDefinition(fragmentName: string, fragmentType: string,
                         directives: seq<Directive>, selectionSet: Option<SelectionSet>)
    | OtherDefinition(text: string)

  /** A parsed document: its definitions in source order. */
  datatype Document = Document(definitions: seq<Definition>)

  /** The selections the normalizer drops: fields named `__typename`,
      whatever their alias, arguments or sub-selections. */
  predicate IsTypenameField(s: Selection) {
    s.Field? && s.name == TypenameField
  }

  /** No field named `__typename` occurs anywhere in the set, at any depth. */
  predicate TypenameFree(ss: SelectionSet)
    decreases ss, 1
  {
    forall i :: 0 <= i < |ss.selections| ==> SelectionTypenameFree(ss.selections[i])
  }

  /** The selection is not a `__typename` field and neither is anything nested in it. */
  predicate SelectionTypenameFree(s: Selection)
    decreases s, 0
  {
    match s
    case Field(_, name, _, _, sub) =>
      name != TypenameField && (sub.Some? ==> TypenameFree(sub.value))
    case InlineFragment(_, _, sub) => sub.Some? ==> TypenameFree(sub.value)
    case FragmentSpread(_, _) => true
    case OtherSelection(_) => true
  }

  /** Every definition's selection set, where it has one, is free of `__typename` fields. */
  predicate DocumentTypenameFree(doc: Document) {
    forall i :: 0 <= i < |doc.definitions| ==> DefinitionTypenameFree(doc.definitions[i])
  }

  predicate DefinitionTypenameFree(d: Definition) {
    match d
    case OperationDefinition(_, _, _, _, sub) => sub.Some? ==> TypenameFree(sub.value)
    case FragmentDefinition(_, _, _, sub) => sub.Some? ==> TypenameFree(sub.value)
    case OtherDefinition(_) => true
  }

  /** `r` is `s` with at most its nested selection set replaced: same kind,
      same name, alias, arguments, directives and type condition, and a nested
      set exactly when `s` has one. Selections without a nested set are equal. */
  predicate SameExceptNested(s: Selection, r: Selection) {
    match s
    case Field(alias, name, args, dirs, sub) =>
      r.Field? && r.alias == alias && r.name == name && r.arguments == args
      && r.directives == dirs && r.selectionSet.Some? == sub.Some?
      && (sub.None? ==> r == s)
    case InlineFragment(cond, dirs, sub) =>
      r.InlineFragment? && r.typeCondition == cond && r.directives == dirs
      && r.selectionSet.Some? == sub.Some?
      && (sub.None? ==> r == s)
    case FragmentSpread(_, _) => r == s
    case OtherSelection(_) => r == s
  }

  /** The definition-level counterpart of `SameExceptNested`. */
  predicate DefinitionSameExceptNested(d: Definition, r: Definition) {
    match d
    case OperationDefinition(kind, name, vars, dirs, sub) =>
      r.OperationDefinition? && r.kind == kind && r.operationName == name
      && r.variableDefinitions == vars && r.directives == dirs
      && r.selectionSet.Some? == sub.Some? && (sub.None? ==> r == d)
    case FragmentDefinition(name, cond, dirs, sub) =>
      r.FragmentDefinition? && r.fragmentName == name && r.fragmentType == cond && r.directives == dirs
      && r.selectionSet.Some? == sub.Some? && (sub.None? ==> r == d)
    case OtherDefinition(_) => r == d
  }
}
