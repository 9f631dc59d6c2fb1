/** `removeTypenameFields` and the document-level rewrite that applies it to
    every operation and fragment definition. */
module Pruner {
  import opened Wrappers
  import opened GraphqlAst

  /** Drops every `__typename` field from the set, at every depth, and keeps
      everything else in order. */
  function RemoveTypenameFields(ss: SelectionSet): (r: SelectionSet)
    decreases ss, 2
    ensures TypenameFree(r)
    ensures |r.selections| <= |ss.selections|
  {
    SelectionSet(PruneSelections(ss.selections))
  }

  /** The filter-then-map of the source, taken one selection at a time:
      `__typename` fields are dropped, every survivor is rebuilt by `PruneSelection`. */
  function PruneSelections(sels: seq<Selection>): (r: seq<Selection>)
    decreases sels, 1
    ensures |r| <= |sels|
    ensures forall i :: 0 <= i < |r| ==> SelectionTypenameFree(r[i])
  {
    if |sels| == 0 then []
    else if IsTypenameField(sels[0]) then PruneSelections(sels[1..])
    else [PruneSelection(sels[0])] + PruneSelections(sels[1..])
  }

  /** Rebuilds a surviving selection: a field or inline fragment with a nested
      set gets that set pruned; anything else is returned as it is. */
  function PruneSelection(s: Selection): (r: Selection)
    decreases s, 0
    ensures SameExceptNested(s, r)
    ensures !IsTypenameField(s) ==> SelectionTypenameFree(r)
    ensures (s.Field? || s.InlineFragment?) && s.selectionSet.Some? ==>
              r.selectionSet == Some(RemoveTypenameFields(s.selectionSet.value))
  {
    match s
    case Field(alias, name, args, dirs, Some(sub)) =>
      Field(alias, name, args, dirs, Some(RemoveTypenameFields(sub)))
    case InlineFragment(cond, dirs, Some(sub)) =>
      InlineFragment(cond, dirs, Some(RemoveTypenameFields(sub)))
    case _ => s
  }

  /** Reference definition of which selections survive at one level: a plain
      filter that keeps every selection except `__typename` fields. */
  function Survivors(sels: seq<Selection>): seq<Selection>
  {
    if |sels| == 0 then []
    else (if IsTypenameField(sels[0]) then [] else [sels[0]]) + Survivors(sels[1..])
  }

  /** The rewrite of one top-level definition: operations and fragments that
      own a selection set get it pruned; every other definition is kept. */
  function NormalizeDefinition(d: Definition): (r: Definition)
    ensures DefinitionSameExceptNested(d, r)
    ensures DefinitionTypenameFree(r)
  {
    match d
    case OperationDefinition(kind, name, vars, dirs, Some(sub)) =>
      OperationDefinition(kind, name, vars, dirs, Some(RemoveTypenameFields(sub)))
    case FragmentDefinition(name, cond, dirs, Some(sub)) =>
      FragmentDefinition(name, cond, dirs, Some(RemoveTypenameFields(sub)))
    case _ => d
  }

  /** The document rewrite: every definition is rewritten in place, so the
      result has the same definitions, in the same order, none of them
      holding a `__typename` field. */
  function NormalizeDocument(doc: Document): (r: Document)
    ensures |r.definitions| == |doc.definitions|
    ensures forall i :: 0 <= i < |doc.definitions| ==>
              DefinitionSameExceptNested(doc.definitions[i], r.definitions[i])
    ensures DocumentTypenameFree(r)
  {
    Document(seq(|doc.definitions|, i requires 0 <= i < |doc.definitions| =>
                   NormalizeDefinition(doc.definitions[i])))
  }

  // ---------------------------------------------------------------------
  // Which selections survive, and in what order

  /** The survivors are exactly the selections of the input that are not
      `__typename` fields. */
  lemma {:induction false} SurvivorsMembership(sels: seq<Selection>, x: Selection)
    ensures x in Survivors(sels) <==> x in sels && !IsTypenameField(x)
  {
    if |sels| > 0 {
      SurvivorsMembership(sels[1..], x);
      assert sels == [sels[0]] + sels[1..];
    }
  }

  /** Filtering distributes over concatenation: the survivors of `a` all come
      before the survivors of `b`, so relative order is kept. */
  lemma {:induction false} SurvivorsConcat(a: seq<Selection>, b: seq<Selection>)
    ensures Survivors(a + b) == Survivors(a) + Survivors(b)
  {
    if |a| == 0 {
      assert a + b == b;
    } else {
      assert (a + b)[1..] == a[1..] + b;
      SurvivorsConcat(a[1..], b);
    }
  }

  /** The pruned list is the filter followed by the map: its i-th element is
      the i-th survivor, rebuilt. */
  lemma {:induction false} PruneIsFilterThenMap(sels: seq<Selection>)
    ensures |PruneSelections(sels)| == |Survivors(sels)|
    ensures forall i :: 0 <= i < |Survivors(sels)| ==>
              PruneSelections(sels)[i] == PruneSelection(Survivors(sels)[i])
  {
    if |sels| > 0 {
      PruneIsFilterThenMap(sels[1..]);
    }
  }

  /** Pruning distributes over concatenation. */
  lemma {:induction false} PruneSelectionsConcat(a: seq<Selection>, b: seq<Selection>)
    ensures PruneSelections(a + b) == PruneSelections(a) + PruneSelections(b)
  {
    if |a| == 0 {
      assert a + b == b;
    } else {
      assert (a + b)[1..] == a[1..] + b;
      PruneSelectionsConcat(a[1..], b);
    }
  }

  /** Every selection that is not a `__typename` field survives the prune,
      rebuilt with its own nested set pruned. */
  lemma EverySurvivorKept(sels: seq<Selection>, x: Selection)
    requires x in sels && !IsTypenameField(x)
    ensures PruneSelection(x) in PruneSelections(sels)
  {
  }

  /** Every selection of the output is a rebuilt input selection that was not
      a `__typename` field. */
  lemma OutputComesFromSurvivor(sels: seq<Selection>, i: int)
    requires 0 <= i < |PruneSelections(sels)|
    ensures exists x :: x in sels && !IsTypenameField(x) && PruneSelections(sels)[i] == PruneSelection(x)
  {
    PruneIsFilterThenMap(sels);
    var x := Survivors(sels)[i];
    SurvivorsMembership(sels, x);
  }

  /** Pruning keeps the length of a level exactly when that level holds no
      `__typename` field. */
  lemma {:induction false} PruneKeepsLengthIff(sels: seq<Selection>)
    ensures |PruneSelections(sels)| == |sels| <==>
            forall i :: 0 <= i < |sels| ==> !IsTypenameField(sels[i])
  {
    if |sels| > 0 {
      PruneKeepsLengthIff(sels[1..]);
      assert forall i :: 1 <= i < |sels| ==> sels[i] == sels[1..][i - 1];
    }
  }

  // ---------------------------------------------------------------------
  // Identity on typename-free trees, and idempotence

  /** On a tree that holds no `__typename` field, pruning changes nothing. */
  lemma {:induction false} RemoveTypenameFieldsIdentity(ss: SelectionSet)
    requires TypenameFree(ss)
    ensures RemoveTypenameFields(ss) == ss
    decreases ss, 2
  {
    SelectionsIdentity(ss.selections);
  }

  lemma {:induction false} SelectionsIdentity(sels: seq<Selection>)
    requires forall i :: 0 <= i < |sels| ==> SelectionTypenameFree(sels[i])
    ensures PruneSelections(sels) == sels
    decreases sels, 1
  {
    if |sels| > 0 {
      SelectionIdentity(sels[0]);
      SelectionsIdentity(sels[1..]);
      assert sels == [sels[0]] + sels[1..];
    }
  }

  lemma {:induction false} SelectionIdentity(s: Selection)
    requires SelectionTypenameFree(s)
    ensures PruneSelection(s) == s
    decreases s, 0
  {
    match s
    case Field(_, _, _, _, Some(sub)) => RemoveTypenameFieldsIdentity(sub);
    case InlineFragment(_, _, Some(sub)) => RemoveTypenameFieldsIdentity(sub);
    case _ =>
  }

  /** A set is a fixed point of the prune exactly when it holds no
      `__typename` field at any depth. */
  lemma FixedPointIff(ss: SelectionSet)
    ensures RemoveTypenameFields(ss) == ss <==> TypenameFree(ss)
  {
    if TypenameFree(ss) {
      RemoveTypenameFieldsIdentity(ss);
    }
  }

  /** Pruning twice is pruning once. */
  lemma RemoveTypenameFieldsIdempotent(ss: SelectionSet)
    ensures RemoveTypenameFields(RemoveTypenameFields(ss)) == RemoveTypenameFields(ss)
  {
    RemoveTypenameFieldsIdentity(RemoveTypenameFields(ss));
  }

  /** Adding a `__typename` field anywhere in a level does not change the
      pruned result: queries that differ only in such fields prune alike. */
  lemma TypenameInsertionInvisible(a: seq<Selection>, t: Selection, b: seq<Selection>)
    requires IsTypenameField(t)
    ensures RemoveTypenameFields(SelectionSet(a + [t] + b)) == RemoveTypenameFields(SelectionSet(a + b))
  {
    PruneSelectionsConcat(a + [t], b);
    PruneSelectionsConcat(a, [t]);
    PruneSelectionsConcat(a, b);
    assert PruneSelections([t]) == [];
  }

  // ---------------------------------------------------------------------
  // The document rewrite

  /** Each operation or fragment that owns a selection set ends up owning
      exactly the pruned set; every other definition is returned as it was. */
  lemma NormalizeDocumentPrunesEachSet(doc: Document, i: int)
    requires 0 <= i < |doc.definitions|
    ensures var d := doc.definitions[i];
            var r := NormalizeDocument(doc).definitions[i];
            if !d.OtherDefinition? && d.selectionSet.Some?
            then r.selectionSet == Some(RemoveTypenameFields(d.selectionSet.value))
            else r == d
  {
  }

  /** Normalizing a document twice is normalizing it once. */
  lemma NormalizeDocumentIdempotent(doc: Document)
    ensures NormalizeDocument(NormalizeDocument(doc)) == NormalizeDocument(doc)
  {
    NormalizeDocumentIdentity(NormalizeDocument(doc));
  }

  /** A document without `__typename` fields is left exactly as it is. */
  lemma NormalizeDocumentIdentity(doc: Document)
    requires DocumentTypenameFree(doc)
    ensures NormalizeDocument(doc) == doc
  {
    var r := NormalizeDocument(doc);
    forall i | 0 <= i < |doc.definitions|
      ensures r.definitions[i] == doc.definitions[i]
    {
      var d := doc.definitions[i];
      assert DefinitionTypenameFree(d);
      if !d.OtherDefinition? && d.selectionSet.Some? {
        RemoveTypenameFieldsIdentity(d.selectionSet.value);
      }
    }
  }
}
