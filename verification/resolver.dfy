/** Choosing the operation to normalize from a (normalized) document. */
module OperationResolver {
  import opened Wrappers
  import opened GraphqlAst

  /** The message of the exception thrown when no operation qualifies. */
  const UnresolvableMessage: string :=
    "Cannot parse operation from query document. Please check syntax."

  datatype ResolveError = UnresolvableOperation(message: string)

  /** Whether `d` qualifies for the requested name: it must be an operation,
      and when a name is requested its name must equal it exactly (an
      anonymous operation never matches a requested name). */
  predicate Selects(d: Definition, operationName: Option<string>) {
    d.OperationDefinition? && (operationName.Some? ==> d.operationName == operationName)
  }

  /** The index of the first qualifying definition at or after `from`, if any. */
  function FirstSelectedFrom(defs: seq<Definition>, operationName: Option<string>, from: nat): (r: Option<nat>)
    requires from <= |defs|
    decreases |defs| - from
    ensures r.Some? ==> from <= r.value < |defs| && Selects(defs[r.value], operationName)
    ensures r.Some? ==> forall j :: from <= j < r.value ==> !Selects(defs[j], operationName)
    ensures r.None? ==> forall j :: from <= j < |defs| ==> !Selects(defs[j], operationName)
  {
    if from == |defs| then None
    else if Selects(defs[from], operationName) then Some(from)
    else FirstSelectedFrom(defs, operationName, from + 1)
  }

  /** The first operation in document order (with no name requested), or the
      first operation whose name equals the requested one; an error when none
      qualifies, including when the document has no operation at all. */
  function ResolveOperation(doc: Document, operationName: Option<string>): (r: Result<Definition, ResolveError>)
    ensures r.Success? <==> exists j :: 0 <= j < |doc.definitions| && Selects(doc.definitions[j], operationName)
    ensures r.Success? ==> r.value.OperationDefinition?
    ensures r.Success? && operationName.Some? ==> r.value.operationName == operationName
    ensures r.Failure? ==> r.error == UnresolvableOperation(UnresolvableMessage)
  {
    match FirstSelectedFrom(doc.definitions, operationName, 0)
    case Some(i) => Success(doc.definitions[i])
    case None => Failure(UnresolvableOperation(UnresolvableMessage))
  }

  /** The operations of a document, in document order
      (`getDefinitionsOfType(OperationDefinition)`). */
  function Operations(defs: seq<Definition>): seq<Definition>
  {
    if |defs| == 0 then []
    else (if defs[0].OperationDefinition? then [defs[0]] else []) + Operations(defs[1..])
  }

  /** Kotlin's `firstOrNull { ... }` over the operations list. */
  function FirstOrNull(ops: seq<Definition>, operationName: Option<string>): Option<Definition>
  {
    if |ops| == 0 then None
    else if operationName.None? || (ops[0].OperationDefinition? && ops[0].operationName == operationName)
    then Some(ops[0])
    else FirstOrNull(ops[1..], operationName)
  }

  /** The resolver agrees with the source's two-step formulation: list the
      operations, then take the first (matching) one; a null result is the error. */
  lemma {:induction false} ResolveIsFirstOfOperations(doc: Document, operationName: Option<string>)
    ensures ResolveOperation(doc, operationName) ==
            match FirstOrNull(Operations(doc.definitions), operationName)
            case Some(op) => Success(op)
            case None => Failure(UnresolvableOperation(UnresolvableMessage))
  {
    FirstSelectedAgrees(doc.definitions, operationName, 0);
  }

  lemma {:induction false} FirstSelectedAgrees(defs: seq<Definition>, operationName: Option<string>, from: nat)
    requires from <= |defs|
    ensures (match FirstSelectedFrom(defs, operationName, from)
             case Some(i) => Some(defs[i])
             case None => None)
            == FirstOrNull(Operations(defs[from..]), operationName)
    decreases |defs| - from
  {
    if from < |defs| {
      FirstSelectedAgrees(defs, operationName, from + 1);
      var d := defs[from];
      assert defs[from..][1..] == defs[from + 1..];
      var rest := Operations(defs[from + 1..]);
      assert Operations(defs[from..]) == (if d.OperationDefinition? then [d] else []) + rest;
      if !d.OperationDefinition? {
        assert Operations(defs[from..]) == rest;
      }
    }
  }

  /** With no name requested, the first operation in document order is chosen,
      whatever definitions come before it. */
  lemma FirstOperationChosen(doc: Document, i: int)
    requires 0 <= i < |doc.definitions| && doc.definitions[i].OperationDefinition?
    requires forall j :: 0 <= j < i ==> !doc.definitions[j].OperationDefinition?
    ensures ResolveOperation(doc, None) == Success(doc.definitions[i])
  {
    var k := FirstSelectedFrom(doc.definitions, None, 0);
    assert Selects(doc.definitions[i], None);
  }

  /** With a name requested, the first operation carrying exactly that name is
      chosen, even when other operations precede it. */
  lemma FirstNamedOperationChosen(doc: Document, name: string, i: int)
    requires 0 <= i < |doc.definitions|
    requires doc.definitions[i].OperationDefinition? && doc.definitions[i].operationName == Some(name)
    requires forall j :: 0 <= j < i ==>
               !(doc.definitions[j].OperationDefinition? && doc.definitions[j].operationName == Some(name))
    ensures ResolveOperation(doc, Some(name)) == Success(doc.definitions[i])
  {
    assert Selects(doc.definitions[i], Some(name));
  }

  /** A document without any operation never resolves, whatever name is asked for. */
  lemma NoOperationFails(doc: Document, operationName: Option<string>)
    requires forall j :: 0 <= j < |doc.definitions| ==> !doc.definitions[j].OperationDefinition?
    ensures ResolveOperation(doc, operationName).Failure?
  {
  }
}
