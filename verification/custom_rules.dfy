/**
 * The plugin's own validation rules, run by the GraphQL validator beside
 * its built-in rules: required fields, capitalised type names and
 * deprecated fields and enum values. (The named-operations rule of the same
 * file is `Rules.OperationsMustHaveNames`.)
 *
 * A visitor reports errors through the validation context; here a visitor
 * returns the errors it reports, in order. A JavaScript `TypeError` that a
 * visitor can run into aborts the whole validation and is the `Crashed`
 * outcome. What the visitor asks the context for (the current type, field
 * definition, parent type or input type) and the visitor's ancestor list are
 * parameters.
 */
module CustomRules {
  import opened Common
  import opened Rules

  // ---------------------------------------------------------------------
  // Schema and document shapes
  // ---------------------------------------------------------------------

  /**
   * A schema type: its name, the names of its fields when it has any
   * (`_fields`), and the type it wraps when it is a list or non-null type
   * (`ofType`).
   */
  datatype GqlType = GqlType(name: string, fields: Option<set<string>>, ofType: Option<GqlType>)

  /** A field definition of the schema. */
  datatype FieldDef = FieldDef(name: string, fieldType: GqlType, isDeprecated: bool, deprecationReason: Option<string>)

  /** An enum value definition of the schema. */
  datatype EnumValueDef = EnumValueDef(name: string, isDeprecated: bool, deprecationReason: Option<string>)

  /** One entry of a selection set: a field with its name, or a fragment. */
  datatype Selection = FieldSelection(name: string) | FragmentSelection

  datatype FragmentDefinitionNode =
    FragmentDefinitionNode(id: NodeId, name: string, typeCondition: string, selections: seq<Selection>)

  datatype InlineFragmentNode =
    InlineFragmentNode(id: NodeId, typeCondition: Option<string>, selectionSet: Option<seq<Selection>>)

  datatype FieldNode = FieldNode(id: NodeId, name: string, selectionSet: Option<seq<Selection>>)

  /**
   * An entry of the visitor's ancestor list: an AST node, which may be a
   * field and may have a selection set, or a list of nodes (neither).
   */
  datatype Ancestor = Ancestor(isField: bool, selectionSet: Option<seq<Selection>>)

  /** What a visitor call comes to: the errors it reports, or a thrown `TypeError`. */
  datatype Outcome = Reported(errors: seq<GraphQLError>) | Crashed

  // ---------------------------------------------------------------------
  // Helpers of RequiredFields
  // ---------------------------------------------------------------------

  /** `selections.some(...)`: some selection is a field of that name. */
  function Selects(sels: seq<Selection>, field: string): (r: bool)
    ensures r <==> exists i :: 0 <= i < |sels| && sels[i] == FieldSelection(field)
  {
    if sels == [] then false
    else sels[0] == FieldSelection(field) || Selects(sels[1..], field)
  }

  /**
   * getFieldWasRequestedOnNode, on the node's selection set: reading the
   * selections of a node without one throws (`None`).
   */
  function FieldWasRequested(selectionSet: Option<seq<Selection>>, field: string): (r: Option<bool>)
    ensures r.Some? <==> selectionSet.Some?
    ensures r == Some(true) <==>
      selectionSet.Some? && exists i :: 0 <= i < |selectionSet.value| && selectionSet.value[i] == FieldSelection(field)
  {
    if selectionSet.None? then None else Some(Selects(selectionSet.value, field))
  }

  /** fieldAvailableOnType: the type or, through `ofType`, a type it wraps has the field. */
  function FieldAvailableOnType(t: Option<GqlType>, field: string): bool
  {
    if t.None? then false
    else (t.value.fields.Some? && field in t.value.fields.value) || FieldAvailableOnType(t.value.ofType, field)
  }

  /** A type followed by every type it wraps, outermost first. */
  function WrapChain(t: Option<GqlType>): (r: seq<GqlType>)
    ensures t.None? <==> r == []
  {
    if t.None? then [] else [t.value] + WrapChain(t.value.ofType)
  }

  predicate Declares(t: GqlType, field: string)
  {
    t.fields.Some? && field in t.fields.value
  }

  /** A field is available exactly when some type of the wrapping chain declares it. */
  lemma {:induction false} AvailableIffDeclaredInChain(t: Option<GqlType>, field: string)
    ensures FieldAvailableOnType(t, field) <==>
      exists k :: 0 <= k < |WrapChain(t)| && Declares(WrapChain(t)[k], field)
  {
    if t.Some? {
      AvailableIffDeclaredInChain(t.value.ofType, field);
      var c := WrapChain(t);
      assert c == [t.value] + WrapChain(t.value.ofType);
      if Declares(t.value, field) {
        assert Declares(c[0], field);
      }
      if FieldAvailableOnType(t.value.ofType, field) && !Declares(t.value, field) {
        var k :| 0 <= k < |WrapChain(t.value.ofType)| && Declares(WrapChain(t.value.ofType)[k], field);
        assert c[k + 1] == WrapChain(t.value.ofType)[k];
      }
      if exists k :: 0 <= k < |c| && Declares(c[k], field) {
        var k :| 0 <= k < |c| && Declares(c[k], field);
        if k > 0 {
          assert c[k] == WrapChain(t.value.ofType)[k - 1];
        }
      }
    }
  }

  // ---------------------------------------------------------------------
  // Collecting the results of a `requiredFields.forEach`
  // ---------------------------------------------------------------------

  /** What one iteration of the `forEach` over the required fields does. */
  datatype FieldResult = Satisfied | Missing(error: GraphQLError) | Crash

  /**
   * The iterations in order: errors are reported as they come, and the first
   * throw aborts the visitor.
   */
  function Collect(rs: seq<FieldResult>): Outcome
  {
    if rs == [] then Reported([])
    else
      match Collect(rs[..|rs| - 1])
      case Crashed => Crashed
      case Reported(es) =>
        match rs[|rs| - 1]
        case Satisfied => Reported(es)
        case Missing(e) => Reported(es + [e])
        case Crash => Crashed
  }

  /** The visitor throws exactly when one of its iterations does. */
  lemma {:induction false} CollectCrashes(rs: seq<FieldResult>)
    ensures Collect(rs) == Crashed <==> exists i :: 0 <= i < |rs| && rs[i].Crash?
  {
    if rs != [] {
      var init := rs[..|rs| - 1];
      CollectCrashes(init);
      if exists i :: 0 <= i < |init| && init[i].Crash? {
        var i :| 0 <= i < |init| && init[i].Crash?;
        assert rs[i] == init[i];
      }
      if exists i :: 0 <= i < |rs| && rs[i].Crash? {
        var i :| 0 <= i < |rs| && rs[i].Crash?;
        if i < |rs| - 1 {
          assert init[i] == rs[i];
        }
      }
    }
  }

  /** Without a throw, the reported errors are exactly those of the failing iterations. */
  lemma {:induction false} CollectReports(rs: seq<FieldResult>)
    ensures Collect(rs).Reported? ==>
      forall e :: e in Collect(rs).errors <==> exists i :: 0 <= i < |rs| && rs[i] == Missing(e)
  {
    if rs != [] && Collect(rs).Reported? {
      var init := rs[..|rs| - 1];
      CollectReports(init);
      forall e ensures e in Collect(rs).errors <==> exists i :: 0 <= i < |rs| && rs[i] == Missing(e) {
        if exists i :: 0 <= i < |init| && init[i] == Missing(e) {
          var i :| 0 <= i < |init| && init[i] == Missing(e);
          assert rs[i] == init[i];
        }
        if exists i :: 0 <= i < |rs| && rs[i] == Missing(e) {
          var i :| 0 <= i < |rs| && rs[i] == Missing(e);
          if i < |rs| - 1 {
            assert init[i] == rs[i];
          }
        }
      }
    }
  }

  /** One more iteration extends the collected outcome. */
  lemma CollectSnoc(rs: seq<FieldResult>, i: nat)
    requires i < |rs|
    ensures Collect(rs[..i + 1]) ==
      match Collect(rs[..i])
      case Crashed => Crashed
      case Reported(es) =>
        match rs[i]
        case Satisfied => Reported(es)
        case Missing(e) => Reported(es + [e])
        case Crash => Crashed
  {
    assert rs[..i + 1][..i] == rs[..i];
  }

  // ---------------------------------------------------------------------
  // RequiredFields: fragment definitions
  // ---------------------------------------------------------------------

  function FragmentMessage(field: string, node: FragmentDefinitionNode): string
  {
    "'" + field + "' field required on 'fragment " + node.name + " on " + node.typeCondition + "'"
  }

  /** One iteration of the FragmentDefinition visitor, on the fragment's type condition type. */
  function FragmentFieldResult(t: Option<GqlType>, node: FragmentDefinitionNode, field: string): FieldResult
  {
    if FieldAvailableOnType(t, field) && !Selects(node.selections, field) then
      Missing(GraphQLError(FragmentMessage(field, node), node.id))
    else Satisfied
  }

  function FragmentResults(requiredFields: seq<string>, t: Option<GqlType>, node: FragmentDefinitionNode): (rs: seq<FieldResult>)
    ensures |rs| == |requiredFields|
  {
    seq(|requiredFields|, i requires 0 <= i < |requiredFields| => FragmentFieldResult(t, node, requiredFields[i]))
  }

  /** The FragmentDefinition visitor of RequiredFields: the `forEach` over the required fields. */
  method RequiredFieldsOnFragment(requiredFields: seq<string>, t: Option<GqlType>, node: FragmentDefinitionNode)
    returns (errors: seq<GraphQLError>)
    ensures Reported(errors) == Collect(FragmentResults(requiredFields, t, node))
  {
    ghost var rs := FragmentResults(requiredFields, t, node);
    errors := [];
    for i := 0 to |requiredFields|
      invariant Reported(errors) == Collect(rs[..i])
    {
      CollectSnoc(rs, i);
      var field := requiredFields[i];
      if FieldAvailableOnType(t, field) {
        var requested := Selects(node.selections, field);
        if !requested {
          errors := errors + [GraphQLError(FragmentMessage(field, node), node.id)];
        }
      }
    }
    assert rs[..|requiredFields|] == rs;
  }

  /** The error `e` is the one reported for required field `f` missing from the fragment. */
  predicate FragmentMissesField(t: Option<GqlType>, node: FragmentDefinitionNode, f: string, e: GraphQLError)
  {
    FieldAvailableOnType(t, f) && !Selects(node.selections, f) && e == GraphQLError(FragmentMessage(f, node), node.id)
  }

  /**
   * A fragment definition never throws, and it is reported for exactly the
   * required fields its type offers that it does not select itself.
   */
  lemma FragmentReportsMissingFields(requiredFields: seq<string>, t: Option<GqlType>, node: FragmentDefinitionNode)
    ensures Collect(FragmentResults(requiredFields, t, node)).Reported?
    ensures forall e :: e in Collect(FragmentResults(requiredFields, t, node)).errors <==>
      (exists f :: f in requiredFields && FragmentMissesField(t, node, f, e))
  {
    var rs := FragmentResults(requiredFields, t, node);
    CollectCrashes(rs);
    CollectReports(rs);
    forall e ensures (exists i :: 0 <= i < |rs| && rs[i] == Missing(e)) <==>
      (exists f :: f in requiredFields && FragmentMissesField(t, node, f, e))
    {
      if exists f :: f in requiredFields && FragmentMissesField(t, node, f, e) {
        var f :| f in requiredFields && FragmentMissesField(t, node, f, e);
        var i :| 0 <= i < |requiredFields| && requiredFields[i] == f;
        assert rs[i] == Missing(e);
      }
      if exists i :: 0 <= i < |rs| && rs[i] == Missing(e) {
        var i :| 0 <= i < |rs| && rs[i] == Missing(e);
        assert FragmentMissesField(t, node, requiredFields[i], e);
        assert requiredFields[i] in requiredFields;
      }
    }
  }

  // ---------------------------------------------------------------------
  // RequiredFields: fields
  // ---------------------------------------------------------------------

  function FieldMessage(field: string, node: FieldNode): string
  {
    "'" + field + "' field required on '" + node.name + "'"
  }

  /** One iteration of the Field visitor, on the type of the field's definition. */
  function FieldFieldResult(def: FieldDef, node: FieldNode, field: string): FieldResult
  {
    if !FieldAvailableOnType(Some(def.fieldType), field) then Satisfied
    else
      match FieldWasRequested(node.selectionSet, field)
      case None => Crash
      case Some(requested) =>
        if requested then Satisfied else Missing(GraphQLError(FieldMessage(field, node), node.id))
  }

  function FieldResults(requiredFields: seq<string>, def: FieldDef, node: FieldNode): (rs: seq<FieldResult>)
    ensures |rs| == |requiredFields|
  {
    seq(|requiredFields|, i requires 0 <= i < |requiredFields| => FieldFieldResult(def, node, requiredFields[i]))
  }

  /**
   * The Field visitor of RequiredFields: nothing for a field without a
   * definition, else the `forEach` over the required fields.
   */
  method RequiredFieldsOnField(requiredFields: seq<string>, def: Option<FieldDef>, node: FieldNode)
    returns (r: Outcome)
    ensures def.None? ==> r == Reported([])
    ensures def.Some? ==> r == Collect(FieldResults(requiredFields, def.value, node))
  {
    if def.None? {
      return Reported([]);
    }
    ghost var rs := FieldResults(requiredFields, def.value, node);
    var errors := [];
    for i := 0 to |requiredFields|
      invariant Reported(errors) == Collect(rs[..i])
    {
      CollectSnoc(rs, i);
      var field := requiredFields[i];
      if FieldAvailableOnType(Some(def.value.fieldType), field) {
        var requested := FieldWasRequested(node.selectionSet, field);
        if requested.None? {
          CollectCrashes(rs);
          return Crashed;
        }
        if !requested.value {
          errors := errors + [GraphQLError(FieldMessage(field, node), node.id)];
        }
      }
    }
    assert rs[..|requiredFields|] == rs;
    r := Reported(errors);
  }

  /** The error `e` is the one reported for required field `f` missing from the field's selection set. */
  predicate FieldMissesField(def: FieldDef, node: FieldNode, f: string, e: GraphQLError)
    requires node.selectionSet.Some?
  {
    FieldAvailableOnType(Some(def.fieldType), f) && !Selects(node.selectionSet.value, f)
    && e == GraphQLError(FieldMessage(f, node), node.id)
  }

  /**
   * A field throws exactly when it has no selection set but its type offers
   * a required field; otherwise it is reported for exactly the offered
   * required fields it does not select.
   */
  lemma FieldReportsMissingFields(requiredFields: seq<string>, def: FieldDef, node: FieldNode)
    ensures Collect(FieldResults(requiredFields, def, node)) == Crashed <==>
      node.selectionSet.None? && (exists f :: f in requiredFields && FieldAvailableOnType(Some(def.fieldType), f))
    ensures Collect(FieldResults(requiredFields, def, node)).Reported? ==>
      node.selectionSet.Some? || (forall f :: f in requiredFields ==> !FieldAvailableOnType(Some(def.fieldType), f))
    ensures Collect(FieldResults(requiredFields, def, node)).Reported? && node.selectionSet.Some? ==>
      forall e :: e in Collect(FieldResults(requiredFields, def, node)).errors <==>
        (exists f :: f in requiredFields && FieldMissesField(def, node, f, e))
  {
    var rs := FieldResults(requiredFields, def, node);
    CollectCrashes(rs);
    CollectReports(rs);
    if node.selectionSet.None? && exists f :: f in requiredFields && FieldAvailableOnType(Some(def.fieldType), f) {
      var f :| f in requiredFields && FieldAvailableOnType(Some(def.fieldType), f);
      var i :| 0 <= i < |requiredFields| && requiredFields[i] == f;
      assert rs[i].Crash?;
    }
    if Collect(rs).Reported? && node.selectionSet.Some? {
      forall e ensures (exists i :: 0 <= i < |rs| && rs[i] == Missing(e)) <==>
        (exists f :: f in requiredFields && FieldMissesField(def, node, f, e))
      {
        if exists f :: f in requiredFields && FieldMissesField(def, node, f, e) {
          var f :| f in requiredFields && FieldMissesField(def, node, f, e);
          var i :| 0 <= i < |requiredFields| && requiredFields[i] == f;
          assert rs[i] == Missing(e);
        }
        if exists i :: 0 <= i < |rs| && rs[i] == Missing(e) {
          var i :| 0 <= i < |rs| && rs[i] == Missing(e);
          assert FieldMissesField(def, node, requiredFields[i], e);
          assert requiredFields[i] in requiredFields;
        }
      }
    }
  }

  // ---------------------------------------------------------------------
  // RequiredFields: inline fragments
  // ---------------------------------------------------------------------

  /** Where the walk up the ancestors stops. */
  datatype WalkResult =
    | FoundOnAncestor   // an ancestor's selection set requests the field
    | FieldReached      // the nearest enclosing field does not request it
    | Exhausted         // popping the empty list: `undefined.selectionSet` throws

  /** The walk up the ancestors, innermost (last) first. */
  function Walk(ancestors: seq<Ancestor>, field: string): WalkResult
  {
    if ancestors == [] then Exhausted
    else
      var a := ancestors[|ancestors| - 1];
      if FieldWasRequested(a.selectionSet, field) == Some(true) then FoundOnAncestor
      else if a.isField then FieldReached
      else Walk(ancestors[..|ancestors| - 1], field)
  }

  predicate AncestorRequests(a: Ancestor, field: string)
  {
    a.selectionSet.Some? && Selects(a.selectionSet.value, field)
  }

  /**
   * There is a nearest enclosing field, and neither it nor any ancestor
   * below it requests the field.
   */
  ghost predicate NearestFieldMisses(ancestors: seq<Ancestor>, field: string)
  {
    exists j :: 0 <= j < |ancestors| && ancestors[j].isField && MissesFrom(ancestors, j, field)
  }

  ghost predicate MissesFrom(ancestors: seq<Ancestor>, j: int, field: string)
    requires 0 <= j < |ancestors|
  {
    (forall k :: j < k < |ancestors| ==> !ancestors[k].isField)
    && (forall k :: j <= k < |ancestors| ==> !AncestorRequests(ancestors[k], field))
  }

  /** An ancestor that is neither a field nor requests the field does not change the answer. */
  lemma PassOver(ancestors: seq<Ancestor>, field: string)
    requires ancestors != []
    requires !ancestors[|ancestors| - 1].isField && !AncestorRequests(ancestors[|ancestors| - 1], field)
    ensures NearestFieldMisses(ancestors, field) <==> NearestFieldMisses(ancestors[..|ancestors| - 1], field)
  {
    if NearestFieldMisses(ancestors[..|ancestors| - 1], field) {
      PassOverGrow(ancestors, field);
    }
    if NearestFieldMisses(ancestors, field) {
      PassOverShrink(ancestors, field);
    }
  }

  lemma PassOverGrow(ancestors: seq<Ancestor>, field: string)
    requires ancestors != []
    requires !ancestors[|ancestors| - 1].isField && !AncestorRequests(ancestors[|ancestors| - 1], field)
    requires NearestFieldMisses(ancestors[..|ancestors| - 1], field)
    ensures NearestFieldMisses(ancestors, field)
  {
    var n := |ancestors| - 1;
    var init := ancestors[..n];
    var j :| 0 <= j < |init| && init[j].isField && MissesFrom(init, j, field);
    assert ancestors[j] == init[j];
    forall k | j < k < |ancestors| ensures !ancestors[k].isField {
      if k < n { assert ancestors[k] == init[k]; }
    }
    forall k | j <= k < |ancestors| ensures !AncestorRequests(ancestors[k], field) {
      if k < n { assert ancestors[k] == init[k]; }
    }
    assert MissesFrom(ancestors, j, field);
  }

  lemma PassOverShrink(ancestors: seq<Ancestor>, field: string)
    requires ancestors != []
    requires !ancestors[|ancestors| - 1].isField
    requires NearestFieldMisses(ancestors, field)
    ensures NearestFieldMisses(ancestors[..|ancestors| - 1], field)
  {
    var n := |ancestors| - 1;
    var init := ancestors[..n];
    var j :| 0 <= j < |ancestors| && ancestors[j].isField && MissesFrom(ancestors, j, field);
    assert j < n;
    assert init[j] == ancestors[j];
    forall k | j < k < |init| ensures !init[k].isField {
      assert init[k] == ancestors[k];
    }
    forall k | j <= k < |init| ensures !AncestorRequests(init[k], field) {
      assert init[k] == ancestors[k];
    }
    assert MissesFrom(init, j, field);
  }

  /**
   * The walk reaches a field without finding the required field exactly
   * when there is a nearest enclosing field and neither it nor any ancestor
   * below it requests the field.
   */
  lemma {:induction false} WalkReachesNearestField(ancestors: seq<Ancestor>, field: string)
    ensures Walk(ancestors, field) == FieldReached <==> NearestFieldMisses(ancestors, field)
  {
    if ancestors != [] {
      var n := |ancestors| - 1;
      var a := ancestors[n];
      if AncestorRequests(a, field) {
        assert Walk(ancestors, field) == FoundOnAncestor;
      } else if a.isField {
        assert MissesFrom(ancestors, n, field);
      } else {
        WalkReachesNearestField(ancestors[..n], field);
        PassOver(ancestors, field);
      }
    }
  }

  /** The `while (!nearestField)` loop: pop ancestors until one requests the field or is a field. */
  method WalkAncestors(ancestors: seq<Ancestor>, field: string) returns (w: WalkResult)
    ensures w == Walk(ancestors, field)
  {
    var ancestorClone := ancestors;
    var nearestField := false;
    while !nearestField
      invariant |ancestorClone| <= |ancestors| && ancestorClone == ancestors[..|ancestorClone|]
      invariant !nearestField ==> Walk(ancestorClone, field) == Walk(ancestors, field)
      invariant nearestField ==> Walk(ancestors, field) == FieldReached
      decreases |ancestorClone| + (if nearestField then 0 else 1)
    {
      if ancestorClone == [] {
        return Exhausted;
      }
      var nextAncestor := ancestorClone[|ancestorClone| - 1];
      ancestorClone := ancestorClone[..|ancestorClone| - 1];
      if nextAncestor.selectionSet.Some? && Selects(nextAncestor.selectionSet.value, field) {
        return FoundOnAncestor;
      }
      if nextAncestor.isField {
        nearestField := true;
      }
    }
    return FieldReached;
  }

  function InlineMessage(field: string, typeCondition: string): string
  {
    "'" + field + "' field required on '... on " + typeCondition + "'"
  }

  /**
   * One iteration of the InlineFragment visitor: the fragment's own
   * selection set, then the walk up the ancestors; reporting an inline
   * fragment without a type condition throws.
   */
  function InlineFieldResult(t: Option<GqlType>, node: InlineFragmentNode, ancestors: seq<Ancestor>, field: string): FieldResult
  {
    if !FieldAvailableOnType(t, field) then Satisfied
    else if node.selectionSet.Some? && Selects(node.selectionSet.value, field) then Satisfied
    else
      match Walk(ancestors, field)
      case FoundOnAncestor => Satisfied
      case Exhausted => Crash
      case FieldReached =>
        if node.typeCondition.None? then Crash
        else Missing(GraphQLError(InlineMessage(field, node.typeCondition.value), node.id))
  }

  function InlineResults(requiredFields: seq<string>, t: Option<GqlType>, node: InlineFragmentNode, ancestors: seq<Ancestor>): (rs: seq<FieldResult>)
    ensures |rs| == |requiredFields|
  {
    seq(|requiredFields|, i requires 0 <= i < |requiredFields| => InlineFieldResult(t, node, ancestors, requiredFields[i]))
  }

  /** The InlineFragment visitor of RequiredFields. */
  method RequiredFieldsOnInlineFragment(requiredFields: seq<string>, t: Option<GqlType>, node: InlineFragmentNode, ancestors: seq<Ancestor>)
    returns (r: Outcome)
    ensures r == Collect(InlineResults(requiredFields, t, node, ancestors))
  {
    ghost var rs := InlineResults(requiredFields, t, node, ancestors);
    var errors := [];
    for i := 0 to |requiredFields|
      invariant Reported(errors) == Collect(rs[..i])
    {
      CollectSnoc(rs, i);
      var field := requiredFields[i];
      if FieldAvailableOnType(t, field) {
        if node.selectionSet.Some? && Selects(node.selectionSet.value, field) {
          continue;
        }
        var w := WalkAncestors(ancestors, field);
        if w == FoundOnAncestor {
          continue;
        }
        if w == Exhausted || node.typeCondition.None? {
          CollectCrashes(rs);
          return Crashed;
        }
        errors := errors + [GraphQLError(InlineMessage(field, node.typeCondition.value), node.id)];
      }
    }
    assert rs[..|requiredFields|] == rs;
    r := Reported(errors);
  }

  /**
   * An inline fragment with a type condition, inside a field, is reported
   * for exactly the offered required fields that neither it nor anything up
   * to and including its nearest enclosing field selects.
   */
  lemma InlineReportsMissingFields(requiredFields: seq<string>, t: Option<GqlType>, node: InlineFragmentNode, ancestors: seq<Ancestor>, field: string)
    requires field in requiredFields && FieldAvailableOnType(t, field)
    requires node.typeCondition.Some?
    requires Collect(InlineResults(requiredFields, t, node, ancestors)).Reported?
    ensures GraphQLError(InlineMessage(field, node.typeCondition.value), node.id)
              in Collect(InlineResults(requiredFields, t, node, ancestors)).errors
      <==>
      !(node.selectionSet.Some? && Selects(node.selectionSet.value, field)) && NearestFieldMisses(ancestors, field)
  {
    var rs := InlineResults(requiredFields, t, node, ancestors);
    var e := GraphQLError(InlineMessage(field, node.typeCondition.value), node.id);
    CollectReports(rs);
    CollectCrashes(rs);
    WalkReachesNearestField(ancestors, field);
    var i :| 0 <= i < |requiredFields| && requiredFields[i] == field;
    if exists i' :: 0 <= i' < |rs| && rs[i'] == Missing(e) {
      var i' :| 0 <= i' < |rs| && rs[i'] == Missing(e);
      InlineMessageNamesField(requiredFields[i'], field, node.typeCondition.value);
    }
    if !(node.selectionSet.Some? && Selects(node.selectionSet.value, field)) && Walk(ancestors, field) == FieldReached {
      assert rs[i] == Missing(e);
    }
  }

  /** The message names the field: different fields give different messages. */
  lemma InlineMessageNamesField(f: string, g: string, typeCondition: string)
    requires InlineMessage(f, typeCondition) == InlineMessage(g, typeCondition)
    ensures f == g
  {
    var m := InlineMessage(f, typeCondition);
    var tail := "' field required on '... on " + typeCondition + "'";
    assert m == "'" + f + tail;
    assert InlineMessage(g, typeCondition) == "'" + g + tail;
    assert |f| == |g|;
    assert f == m[1..1 + |f|];
    assert g == m[1..1 + |g|];
  }

  // ---------------------------------------------------------------------
  // typeNamesShouldBeCapitalized
  // ---------------------------------------------------------------------

  const CapitalMessage := "All type names should start with a capital letter"

  /** `toLowerCase` on one character (ASCII letters; GraphQL names are ASCII). */
  function ToLower(c: char): (d: char)
    ensures 'A' <= c <= 'Z' ==> d != c && 'a' <= d <= 'z'
    ensures !('A' <= c <= 'Z') ==> d == c
  {
    if 'A' <= c <= 'Z' then (c as int - 'A' as int + 'a' as int) as char else c
  }

  /**
   * The NamedType visitor: a type name is reported exactly when its first
   * character is not an upper-case letter (so `_Type` is reported too); the
   * empty name has no first character and `undefined.toLowerCase()` throws.
   */
  function TypeNamesShouldBeCapitalized(id: NodeId, typeName: string): (r: Outcome)
    ensures r == Crashed <==> typeName == []
    ensures r.Reported? ==> |r.errors| <= 1
    ensures r.Reported? ==> (r.errors != [] <==> !('A' <= typeName[0] <= 'Z'))
    ensures r.Reported? && r.errors != [] ==> r.errors[0] == GraphQLError(CapitalMessage, id)
  {
    if typeName == [] then Crashed
    else if typeName[0] == ToLower(typeName[0]) then Reported([GraphQLError(CapitalMessage, id)])
    else Reported([])
  }

  // ---------------------------------------------------------------------
  // noDeprecatedFields
  // ---------------------------------------------------------------------

  /** `(reason ? " " + reason : "")` */
  function ReasonSuffix(reason: Option<string>): (s: string)
    ensures Truthy(reason) ==> s == " " + reason.value
    ensures !Truthy(reason) ==> s == ""
  {
    if Truthy(reason) then " " + reason.value else ""
  }

  function DeprecatedFieldMessage(parent: GqlType, def: FieldDef): string
  {
    "The field " + parent.name + "." + def.name + " is deprecated." + ReasonSuffix(def.deprecationReason)
  }

  /**
   * The Field visitor: a deprecated field with a parent type is reported,
   * once, with its reason when it has a non-empty one.
   */
  function NoDeprecatedField(id: NodeId, fieldDef: Option<FieldDef>, parentType: Option<GqlType>): (errors: seq<GraphQLError>)
    ensures |errors| <= 1
    ensures errors != [] <==> fieldDef.Some? && fieldDef.value.isDeprecated && parentType.Some?
    ensures errors != [] ==> errors[0].node == id && DeprecationMessageShape(
      errors[0].message, "The field " + parentType.value.name + "." + fieldDef.value.name, fieldDef.value.deprecationReason)
  {
    if fieldDef.Some? && fieldDef.value.isDeprecated && parentType.Some? then
      DeprecationMessage(parentType.value.name, fieldDef.value.name, fieldDef.value.deprecationReason);
      [GraphQLError(DeprecatedFieldMessage(parentType.value, fieldDef.value), id)]
    else []
  }

  /**
   * The message is the subject, " is deprecated.", then the reason after a
   * space exactly when the reason is non-empty.
   */
  ghost predicate DeprecationMessageShape(message: string, subject: string, reason: Option<string>)
  {
    var head := subject + " is deprecated.";
    |head| <= |message| && message[..|head|] == head
    && (Truthy(reason) ==> message[|head|..] == " " + reason.value)
    && (!Truthy(reason) ==> message == head)
  }

  lemma DeprecationMessage(typeName: string, memberName: string, reason: Option<string>)
    ensures DeprecationMessageShape(
      "The field " + typeName + "." + memberName + " is deprecated." + ReasonSuffix(reason),
      "The field " + typeName + "." + memberName, reason)
    ensures DeprecationMessageShape(
      "The enum value " + typeName + "." + memberName + " is deprecated." + ReasonSuffix(reason),
      "The enum value " + typeName + "." + memberName, reason)
  {
  }

  /** graphql's getNamedType: strip list and non-null wrappers down to the named type. */
  function GetNamedType(t: Option<GqlType>): (r: Option<GqlType>)
    ensures r.None? <==> t.None?
    ensures r.Some? ==> r.value.ofType.None? && r.value == WrapChain(t)[|WrapChain(t)| - 1]
  {
    if t.None? then None
    else if t.value.ofType.None? then t
    else GetNamedType(t.value.ofType)
  }

  function DeprecatedEnumMessage(named: GqlType, enumVal: EnumValueDef): string
  {
    "The enum value " + named.name + "." + enumVal.name + " is deprecated." + ReasonSuffix(enumVal.deprecationReason)
  }

  /**
   * The EnumValue visitor: a deprecated enum value is reported, once, under
   * the named type of the current input type, when there is one.
   */
  function NoDeprecatedEnumValue(id: NodeId, enumVal: Option<EnumValueDef>, inputType: Option<GqlType>): (errors: seq<GraphQLError>)
    ensures |errors| <= 1
    ensures errors != [] <==> enumVal.Some? && enumVal.value.isDeprecated && inputType.Some?
    ensures errors != [] ==> errors[0].node == id && DeprecationMessageShape(
      errors[0].message, "The enum value " + GetNamedType(inputType).value.name + "." + enumVal.value.name,
      enumVal.value.deprecationReason)
  {
    if enumVal.Some? && enumVal.value.isDeprecated then
      var named := GetNamedType(inputType);
      if named.None? then []
      else
        DeprecationMessage(named.value.name, enumVal.value.name, enumVal.value.deprecationReason);
        [GraphQLError(DeprecatedEnumMessage(named.value, enumVal.value), id)]
    else []
  }
}
