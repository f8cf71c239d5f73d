/**
 * Removal of matching directives from a GraphQL document, in place, and the
 * decision whether the document's operation is left with anything to query.
 *
 * The document's selection sets and selections are objects whose fields the
 * procedures overwrite. Each object keeps a ghost `model` (its value as a
 * tree) and a ghost `Repr` (the objects it owns); `Valid()` ties the two to
 * the real fields. The procedures are proved against `StripSet`, a function
 * on the value trees, and the properties of the removal are proved about
 * that function.
 */
module RemoveDirectives {
  import opened Common

  // ---------------------------------------------------------------------
  // Directives and matching
  // ---------------------------------------------------------------------

  /** A directive occurrence `@name(...)`; of its arguments only the names are kept. */
  datatype Directive = Directive(name: string, argumentNames: seq<string>)

  /**
   * One entry of the caller's list: a directive name to match, a predicate
   * to match with, and whether a field carrying a match is itself removed.
   */
  datatype DirectiveSpec = DirectiveSpec(name: Option<string>, test: Option<Directive -> bool>, remove: bool)

  predicate SpecMatches(spec: DirectiveSpec, d: Directive)
  {
    (Truthy(spec.name) && spec.name.value == d.name) || (spec.test.Some? && spec.test.value(d))
  }

  /**
   * The matcher of getDirectiveMatcher: a directive matches when some entry
   * names it (with a non-empty name) or some entry's test accepts it.
   */
  function Matches(specs: seq<DirectiveSpec>, d: Directive): (b: bool)
    ensures b <==> exists i :: 0 <= i < |specs| && SpecMatches(specs[i], d)
  {
    if specs == [] then false
    else SpecMatches(specs[0], d) || Matches(specs[1..], d)
  }

  /** `directives.some(dir => dir.remove)`. */
  function AggressiveRemove(specs: seq<DirectiveSpec>): (b: bool)
    ensures b <==> exists i :: 0 <= i < |specs| && specs[i].remove
  {
    if specs == [] then false else specs[0].remove || AggressiveRemove(specs[1..])
  }

  /** The directives a field keeps: those that do not match, in order. */
  function KeepDirectives(specs: seq<DirectiveSpec>, ds: seq<Directive>): seq<Directive>
  {
    if ds == [] then []
    else KeepDirectives(specs, ds[..|ds| - 1])
         + (if Matches(specs, ds[|ds| - 1]) then [] else [ds[|ds| - 1]])
  }

  /** The kept directives are no more than the field had, and exactly its non-matching ones. */
  lemma {:induction false} KeepDirectivesMembers(specs: seq<DirectiveSpec>, ds: seq<Directive>)
    ensures |KeepDirectives(specs, ds)| <= |ds|
    ensures forall d :: d in KeepDirectives(specs, ds) <==> d in ds && !Matches(specs, d)
  {
    if ds != [] {
      var init := ds[..|ds| - 1];
      KeepDirectivesMembers(specs, init);
      assert forall d :: d in ds <==> d in init || d == ds[|ds| - 1] by {
        assert ds == init + [ds[|ds| - 1]];
      }
    }
  }

  /** Some directive of the list matches. */
  predicate AnyMatches(specs: seq<DirectiveSpec>, ds: seq<Directive>)
  {
    exists d :: d in ds && Matches(specs, d)
  }

  /**
   * The `filter` callback over one field's directives: keeps the
   * non-matching directives and raises `remove` once a directive matched
   * while some entry asks for aggressive removal.
   */
  method FilterDirectives(specs: seq<DirectiveSpec>, ds: seq<Directive>, aggressive: bool)
    returns (kept: seq<Directive>, remove: bool)
    ensures kept == KeepDirectives(specs, ds)
    ensures remove <==> aggressive && AnyMatches(specs, ds)
  {
    kept := [];
    remove := false;
    var j := 0;
    while j < |ds|
      invariant 0 <= j <= |ds|
      invariant kept == KeepDirectives(specs, ds[..j])
      invariant remove <==> aggressive && AnyMatches(specs, ds[..j])
    {
      var shouldKeep := !Matches(specs, ds[j]);
      if !remove && !shouldKeep && aggressive {
        remove := true;
      }
      if shouldKeep {
        kept := kept + [ds[j]];
      }
      FilterStep(specs, ds, j);
      j := j + 1;
    }
    assert ds[..|ds|] == ds;
  }

  /** One more directive extends the kept list and the match test by that directive alone. */
  lemma FilterStep(specs: seq<DirectiveSpec>, ds: seq<Directive>, j: nat)
    requires j < |ds|
    ensures KeepDirectives(specs, ds[..j + 1])
      == KeepDirectives(specs, ds[..j]) + (if Matches(specs, ds[j]) then [] else [ds[j]])
    ensures AnyMatches(specs, ds[..j + 1]) <==> AnyMatches(specs, ds[..j]) || Matches(specs, ds[j])
  {
    assert ds[..j + 1][..j] == ds[..j];
    assert forall d :: d in ds[..j + 1] <==> d in ds[..j] || d == ds[j];
  }

  // ---------------------------------------------------------------------
  // Selection trees as values
  // ---------------------------------------------------------------------

  /** The kinds of selection: a field (with its name), an inline fragment, a fragment spread. */
  datatype Kind = FieldKind(name: string) | InlineFragmentKind | FragmentSpreadKind(spreadName: string)

  /** A selection: its kind, its directive list when it has one, its selection set when it has one. */
  datatype SelValue = SelValue(kind: Kind, directives: Option<seq<Directive>>, child: Option<SetValue>)

  /** A selection set: without a `selections` list, or with its list. */
  datatype SetValue = NoSelections | Selections(items: seq<SelValue>)

  /** A field that aggressive removal drops: some directive of its list matched. */
  predicate Dropped(specs: seq<DirectiveSpec>, s: SelValue)
  {
    && AggressiveRemove(specs)
    && s.kind.FieldKind?
    && s.directives.Some?
    && AnyMatches(specs, s.directives.value)
  }

  /** The recursion descends into fields and inline fragments that have a selection set. */
  predicate Descends(s: SelValue)
  {
    (s.kind.FieldKind? || s.kind.InlineFragmentKind?) && s.child.Some?
  }

  /**
   * The `map` callback at one level: selections other than fields with a
   * directive list are kept as they are; a field loses its matching
   * directives, or is dropped altogether under aggressive removal.
   */
  function StripLevel(specs: seq<DirectiveSpec>, s: SelValue): (r: Option<SelValue>)
    ensures r.None? <==> Dropped(specs, s)
    ensures r.Some? ==> r.value.kind == s.kind && r.value.child == s.child
    ensures r.Some? && s.kind.FieldKind? && s.directives.Some? ==>
      r.value.directives == Some(KeepDirectives(specs, s.directives.value))
    ensures !s.kind.FieldKind? || s.directives.None? ==> r == Some(s)
  {
    if !s.kind.FieldKind? || s.directives.None? then Some(s)
    else if Dropped(specs, s) then None
    else Some(s.(directives := Some(KeepDirectives(specs, s.directives.value))))
  }

  /**
   * The directive list a surviving selection ends with: a field's list keeps
   * its non-matching directives in order; any other list is left as it is.
   */
  function KeptDirectives(specs: seq<DirectiveSpec>, s: SelValue): Option<seq<Directive>>
  {
    if s.kind.FieldKind? && s.directives.Some? then Some(KeepDirectives(specs, s.directives.value))
    else s.directives
  }

  /**
   * The selection set a surviving selection ends with: the recursion strips
   * the sets of fields and inline fragments; any other is left as it is.
   */
  function FinishedChild(specs: seq<DirectiveSpec>, s: SelValue): Option<SetValue>
    decreases s, 0
  {
    if Descends(s) then Some(StripSet(specs, s.child.value)) else s.child
  }

  function OptionToSeq(o: Option<SelValue>): seq<SelValue>
  {
    if o.Some? then [o.value] else []
  }

  /** removeDirectivesFromSelectionSet on a value: a set without `selections` is returned as it is. */
  function StripSet(specs: seq<DirectiveSpec>, sv: SetValue): SetValue
    decreases sv, 2
  {
    match sv
    case NoSelections => sv
    case Selections(sels) => Selections(StripAll(specs, sels))
  }

  function StripAll(specs: seq<DirectiveSpec>, sels: seq<SelValue>): seq<SelValue>
    decreases sels, 1
  {
    if sels == [] then []
    else StripAll(specs, sels[..|sels| - 1]) + OptionToSeq(StripSelection(specs, sels[|sels| - 1]))
  }

  /** One selection: the level step, then the recursion into its selection set. */
  function StripSelection(specs: seq<DirectiveSpec>, s: SelValue): (r: Option<SelValue>)
    ensures r.None? <==> Dropped(specs, s)
    ensures r.Some? ==> r.value.kind == s.kind && r.value.directives == KeptDirectives(specs, s)
    ensures r.Some? ==> r.value.child == (if Descends(s) then Some(StripSet(specs, s.child.value)) else s.child)
    decreases s, 0
  {
    match StripLevel(specs, s)
    case None => None
    case Some(l) =>
      if Descends(s) then Some(l.(child := Some(StripSet(specs, s.child.value)))) else Some(l)
  }

  /** The first pass of the procedure: the level step over a whole list. */
  function LevelAll(specs: seq<DirectiveSpec>, sels: seq<SelValue>): seq<SelValue>
  {
    if sels == [] then []
    else LevelAll(specs, sels[..|sels| - 1]) + OptionToSeq(StripLevel(specs, sels[|sels| - 1]))
  }

  /** The second pass on one surviving selection: the recursion into its selection set. */
  function Finish(specs: seq<DirectiveSpec>, v: SelValue): SelValue
  {
    if Descends(v) then v.(child := Some(StripSet(specs, v.child.value))) else v
  }

  function MapFinish(specs: seq<DirectiveSpec>, vs: seq<SelValue>): (r: seq<SelValue>)
    ensures |r| == |vs|
    ensures forall a :: 0 <= a < |vs| ==> r[a] == Finish(specs, vs[a])
  {
    if vs == [] then [] else MapFinish(specs, vs[..|vs| - 1]) + [Finish(specs, vs[|vs| - 1])]
  }

  lemma MapFinishConcat(specs: seq<DirectiveSpec>, a: seq<SelValue>, b: seq<SelValue>)
    ensures MapFinish(specs, a + b) == MapFinish(specs, a) + MapFinish(specs, b)
  {
  }

  /** The two passes of the procedure together are the one-pass definition. */
  lemma {:induction false} TwoPasses(specs: seq<DirectiveSpec>, sels: seq<SelValue>)
    ensures StripAll(specs, sels) == MapFinish(specs, LevelAll(specs, sels))
  {
    if sels != [] {
      var init := sels[..|sels| - 1];
      var last := sels[|sels| - 1];
      TwoPasses(specs, init);
      MapFinishConcat(specs, LevelAll(specs, init), OptionToSeq(StripLevel(specs, last)));
    }
  }

  // ---------------------------------------------------------------------
  // Properties of the removal
  // ---------------------------------------------------------------------

  /** No field reached by the recursion carries a matching directive. */
  ghost predicate CleanSet(specs: seq<DirectiveSpec>, sv: SetValue)
    decreases sv, 1
  {
    sv.Selections? ==>
      forall i :: 0 <= i < |sv.items| ==> CleanSel(specs, sv.items[i])
  }

  ghost predicate CleanSel(specs: seq<DirectiveSpec>, s: SelValue)
    decreases s, 0
  {
    && (s.kind.FieldKind? && s.directives.Some? ==>
          forall d :: d in s.directives.value ==> !Matches(specs, d))
    && (Descends(s) ==> CleanSet(specs, s.child.value))
  }

  /** After the removal no visited field keeps a matching directive. */
  lemma {:induction false} StripSetIsClean(specs: seq<DirectiveSpec>, sv: SetValue)
    ensures CleanSet(specs, StripSet(specs, sv))
    decreases sv, 2
  {
    if sv.Selections? {
      StripAllIsClean(specs, sv.items);
    }
  }

  lemma {:induction false} StripAllIsClean(specs: seq<DirectiveSpec>, sels: seq<SelValue>)
    ensures forall i :: 0 <= i < |StripAll(specs, sels)| ==> CleanSel(specs, StripAll(specs, sels)[i])
    decreases sels, 1
  {
    if sels != [] {
      StripAllIsClean(specs, sels[..|sels| - 1]);
      var last := sels[|sels| - 1];
      StripSelectionIsClean(specs, last);
    }
  }

  lemma {:induction false} StripSelectionIsClean(specs: seq<DirectiveSpec>, s: SelValue)
    ensures StripSelection(specs, s).Some? ==> CleanSel(specs, StripSelection(specs, s).value)
    decreases s, 0
  {
    if s.kind.FieldKind? && s.directives.Some? {
      KeepDirectivesMembers(specs, s.directives.value);
    }
    if Descends(s) {
      StripSetIsClean(specs, s.child.value);
    }
  }

  /** The selections that survive the level step, in order. */
  function Survivors(specs: seq<DirectiveSpec>, sels: seq<SelValue>): (r: seq<SelValue>)
    ensures |r| <= |sels|
  {
    if sels == [] then []
    else Survivors(specs, sels[..|sels| - 1])
         + (if Dropped(specs, sels[|sels| - 1]) then [] else [sels[|sels| - 1]])
  }

  /**
   * A list keeps exactly its surviving selections, in order and with their
   * kinds; a field is dropped only under aggressive removal and exactly when
   * one of its directives matched. Each survivor keeps its non-matching
   * directives, in order, and its selection set is stripped in turn.
   */
  lemma {:induction false} StripAllKeepsSurvivors(specs: seq<DirectiveSpec>, sels: seq<SelValue>)
    ensures |StripAll(specs, sels)| == |Survivors(specs, sels)|
    ensures forall i :: 0 <= i < |Survivors(specs, sels)| ==>
      && StripAll(specs, sels)[i].kind == Survivors(specs, sels)[i].kind
      && StripAll(specs, sels)[i].directives == KeptDirectives(specs, Survivors(specs, sels)[i])
      && StripAll(specs, sels)[i].child == FinishedChild(specs, Survivors(specs, sels)[i])
  {
    if sels != [] {
      StripAllKeepsSurvivors(specs, sels[..|sels| - 1]);
    }
  }

  /**
   * Without aggressive removal nothing is dropped: every list keeps its
   * length and kinds, and only the directive lists of fields shrink, each to
   * its non-matching directives.
   */
  lemma {:induction false} NoRemoveKeepsAll(specs: seq<DirectiveSpec>, sels: seq<SelValue>)
    requires !AggressiveRemove(specs)
    ensures |StripAll(specs, sels)| == |sels|
    ensures forall i :: 0 <= i < |sels| ==>
      && StripAll(specs, sels)[i].kind == sels[i].kind
      && StripAll(specs, sels)[i].directives == KeptDirectives(specs, sels[i])
      && StripAll(specs, sels)[i].child == FinishedChild(specs, sels[i])
  {
    StripAllKeepsSurvivors(specs, sels);
    SurvivorsAll(specs, sels);
  }

  lemma {:induction false} SurvivorsAll(specs: seq<DirectiveSpec>, sels: seq<SelValue>)
    requires !AggressiveRemove(specs)
    ensures Survivors(specs, sels) == sels
  {
    if sels != [] {
      SurvivorsAll(specs, sels[..|sels| - 1]);
    }
  }

  /**
   * `after` is `before` with only the directive lists of fields shrunk, each
   * to its non-matching directives, at every depth the recursion reaches:
   * the same lists with the same lengths and kinds in the same order, and a
   * selection set wherever there was one.
   */
  ghost predicate ShrunkSet(specs: seq<DirectiveSpec>, before: SetValue, after: SetValue)
    decreases before, 1
  {
    match before
    case NoSelections => after == NoSelections
    case Selections(items) =>
      && after.Selections?
      && |after.items| == |items|
      && forall i :: 0 <= i < |items| ==> ShrunkSel(specs, items[i], after.items[i])
  }

  ghost predicate ShrunkSel(specs: seq<DirectiveSpec>, before: SelValue, after: SelValue)
    decreases before, 0
  {
    && after.kind == before.kind
    && after.directives == KeptDirectives(specs, before)
    && (after.child.Some? <==> before.child.Some?)
    && (Descends(before) ==> ShrunkSet(specs, before.child.value, after.child.value))
    && (!Descends(before) ==> after.child == before.child)
  }

  /**
   * Without aggressive removal the whole tree keeps its shape: every list at
   * every depth keeps its length, kinds and order, and only the directive
   * lists of fields shrink.
   */
  lemma {:induction false} NoRemoveKeepsShape(specs: seq<DirectiveSpec>, sv: SetValue)
    requires !AggressiveRemove(specs)
    ensures ShrunkSet(specs, sv, StripSet(specs, sv))
    decreases sv, 1
  {
    if sv.Selections? {
      var items := sv.items;
      NoRemoveKeepsAll(specs, items);
      forall i | 0 <= i < |items|
        ensures ShrunkSel(specs, items[i], StripAll(specs, items)[i])
      {
        NoRemoveKeepsShapeSel(specs, items[i], StripAll(specs, items)[i]);
      }
    }
  }

  lemma {:induction false} NoRemoveKeepsShapeSel(specs: seq<DirectiveSpec>, s: SelValue, after: SelValue)
    requires !AggressiveRemove(specs)
    requires after.kind == s.kind && after.directives == KeptDirectives(specs, s)
    requires after.child == FinishedChild(specs, s)
    ensures ShrunkSel(specs, s, after)
    decreases s, 0
  {
    if Descends(s) {
      NoRemoveKeepsShape(specs, s.child.value);
    }
  }

  /** Selections that are not fields with a directive list are left as they are at their level. */
  lemma LevelKeepsOthers(specs: seq<DirectiveSpec>, s: SelValue)
    requires !s.kind.FieldKind? || s.directives.None?
    ensures StripLevel(specs, s) == Some(s)
    ensures StripSelection(specs, s) == Some(Finish(specs, s))
  {
  }

  // ---------------------------------------------------------------------
  // Emptiness of the operation
  // ---------------------------------------------------------------------

  /** The top-level selections of a set that spread the fragment `n`. */
  predicate SpreadsOf(sv: SetValue, n: string)
  {
    sv.Selections? && exists s :: s in sv.items && s.kind == FragmentSpreadKind(n)
  }

  /**
   * Every top-level spread of `sels` names a fragment of the map whose rank
   * is below `bound`.
   */
  ghost predicate SpreadsBelow(sels: seq<SelValue>, frags: map<string, SetValue>,
                               rank: map<string, nat>, bound: nat)
  {
    forall i :: 0 <= i < |sels| && sels[i].kind.FragmentSpreadKind? ==>
      && sels[i].kind.spreadName in frags
      && sels[i].kind.spreadName in rank
      && rank[sels[i].kind.spreadName] < bound
  }

  /**
   * The fragment map is acyclic: every fragment has a `selections` list and
   * its top-level spreads name fragments of smaller rank.
   */
  ghost predicate Ranked(frags: map<string, SetValue>, rank: map<string, nat>)
  {
    forall n :: n in frags ==>
      && n in rank
      && frags[n].Selections?
      && SpreadsBelow(frags[n].items, frags, rank, rank[n])
  }

  /**
   * isNotEmpty: some top-level selection is something other than a spread of
   * a fragment that is itself (recursively) empty.
   */
  function IsNotEmpty(sv: SetValue, frags: map<string, SetValue>,
                      ghost rank: map<string, nat>, ghost bound: nat): bool
    requires Ranked(frags, rank)
    requires sv.Selections? && SpreadsBelow(sv.items, frags, rank, bound)
    decreases bound, 1
  {
    AnyKept(sv.items, frags, rank, bound)
  }

  function AnyKept(sels: seq<SelValue>, frags: map<string, SetValue>,
                   ghost rank: map<string, nat>, ghost bound: nat): bool
    requires Ranked(frags, rank)
    requires SpreadsBelow(sels, frags, rank, bound)
    decreases bound, 0, |sels|
  {
    if sels == [] then false
    else
      var s := sels[0];
      var kept := !(s.kind.FragmentSpreadKind?
                    && !IsNotEmpty(frags[s.kind.spreadName], frags, rank, rank[s.kind.spreadName]));
      kept || AnyKept(sels[1..], frags, rank, bound)
  }

  /** The selections with every fragment spread replaced by the fragment's inlined selections. */
  function Inline(sels: seq<SelValue>, frags: map<string, SetValue>,
                  ghost rank: map<string, nat>, ghost bound: nat): seq<SelValue>
    requires Ranked(frags, rank)
    requires SpreadsBelow(sels, frags, rank, bound)
    decreases bound, |sels|
  {
    if sels == [] then []
    else
      var s := sels[0];
      (if s.kind.FragmentSpreadKind?
       then Inline(frags[s.kind.spreadName].items, frags, rank, rank[s.kind.spreadName])
       else [s])
      + Inline(sels[1..], frags, rank, bound)
  }

  /** The operation is non-empty exactly when inlining its fragments leaves some selection. */
  lemma {:induction false} NotEmptyIffInlinedNonEmpty(sels: seq<SelValue>, frags: map<string, SetValue>,
                                                      rank: map<string, nat>, bound: nat)
    requires Ranked(frags, rank)
    requires SpreadsBelow(sels, frags, rank, bound)
    ensures AnyKept(sels, frags, rank, bound) <==> |Inline(sels, frags, rank, bound)| > 0
    decreases bound, |sels|
  {
    if sels != [] {
      var s := sels[0];
      if s.kind.FragmentSpreadKind? {
        var n := s.kind.spreadName;
        NotEmptyIffInlinedNonEmpty(frags[n].items, frags, rank, rank[n]);
      }
      NotEmptyIffInlinedNonEmpty(sels[1..], frags, rank, bound);
    }
  }

  /** The removal never adds a top-level fragment spread, and keeps the `selections` list. */
  lemma {:induction false} StripKeepsSpreads(specs: seq<DirectiveSpec>, sels: seq<SelValue>)
    ensures forall i :: 0 <= i < |StripAll(specs, sels)| && StripAll(specs, sels)[i].kind.FragmentSpreadKind? ==>
      exists j :: 0 <= j < |sels| && sels[j].kind == StripAll(specs, sels)[i].kind
  {
    if sels != [] {
      var init := sels[..|sels| - 1];
      StripKeepsSpreads(specs, init);
      var r := StripAll(specs, sels);
      forall i | 0 <= i < |r| && r[i].kind.FragmentSpreadKind?
        ensures exists j :: 0 <= j < |sels| && sels[j].kind == r[i].kind
      {
        if i < |StripAll(specs, init)| {
          var j :| 0 <= j < |init| && init[j].kind == r[i].kind;
          assert sels[j] == init[j];
        } else {
          assert sels[|sels| - 1].kind == r[i].kind;
        }
      }
    }
  }

  /** The spreads of a stripped list still name ranked fragments, in any map with the same names. */
  lemma StripKeepsRanked(specs: seq<DirectiveSpec>, sels: seq<SelValue>,
                         frags: map<string, SetValue>, frags': map<string, SetValue>,
                         rank: map<string, nat>, bound: nat)
    requires SpreadsBelow(sels, frags, rank, bound)
    requires frags.Keys <= frags'.Keys
    ensures SpreadsBelow(StripAll(specs, sels), frags', rank, bound)
  {
    StripKeepsSpreads(specs, sels);
  }

  // ---------------------------------------------------------------------
  // The document as objects
  // ---------------------------------------------------------------------

  /** A selection node; only `directives` is overwritten in place. */
  class Selection {
    const kind: Kind
    var directives: Option<seq<Directive>>
    const selectionSet: SelectionSet?
    ghost var model: SelValue
    ghost var Repr: set<object>

    ghost predicate Valid()
      reads this, Repr
      decreases Repr, 0
    {
      && this in Repr
      && model.kind == kind
      && model.directives == directives
      && (selectionSet == null ==> model.child.None?)
      && (selectionSet != null ==>
            && selectionSet in Repr
            && selectionSet.Repr <= Repr
            && this !in selectionSet.Repr
            && model.child == Some(selectionSet.model)
            && selectionSet.Valid())
    }

    constructor (kind: Kind, directives: Option<seq<Directive>>, selectionSet: SelectionSet?)
      requires selectionSet != null ==> selectionSet.Valid()
      ensures Valid() && fresh(Repr - (if selectionSet == null then {} else selectionSet.Repr))
      ensures this.kind == kind && this.directives == directives && this.selectionSet == selectionSet
      ensures model == SelValue(kind, directives, if selectionSet == null then None else Some(selectionSet.model))
    {
      this.kind := kind;
      this.directives := directives;
      this.selectionSet := selectionSet;
      model := SelValue(kind, directives, if selectionSet == null then None else Some(selectionSet.model));
      Repr := {this} + (if selectionSet == null then {} else selectionSet.Repr);
    }
  }

  /** A selection-set node; its `selections` list is replaced in place. */
  class SelectionSet {
    var selections: Option<seq<Selection>>
    ghost var model: SetValue
    ghost var Repr: set<object>

    /** The selections are owned, pairwise separate and valid, and `model` lists their models. */
    ghost predicate Valid()
      reads this, Repr
      decreases Repr, 1
    {
      && this in Repr
      && (selections.None? ==> model.NoSelections?)
      && (selections.Some? ==>
            && model.Selections?
            && |model.items| == |selections.value|
            && (forall i :: 0 <= i < |selections.value| ==>
                  && selections.value[i] in Repr
                  && selections.value[i].Repr <= Repr
                  && this !in selections.value[i].Repr
                  && model.items[i] == selections.value[i].model
                  && selections.value[i].Valid())
            && (forall i, j :: 0 <= i < j < |selections.value| ==>
                  selections.value[i].Repr !! selections.value[j].Repr))
    }

    constructor (selections: Option<seq<Selection>>)
      requires selections.Some? ==> forall i :: 0 <= i < |selections.value| ==> selections.value[i].Valid()
      requires selections.Some? ==> forall i, j :: 0 <= i < j < |selections.value| ==>
        selections.value[i].Repr !! selections.value[j].Repr
      ensures Valid() && this.selections == selections
      ensures selections.None? ==> model == NoSelections
      ensures selections.Some? ==> model == Selections(ModelsOf(selections.value))
    {
      this.selections := selections;
      if selections.Some? {
        var sels := selections.value;
        model := Selections(ModelsOf(sels));
        Repr := {this} + ReprOf(sels);
      } else {
        model := NoSelections;
        Repr := {this};
      }
      new;
      if selections.Some? {
        var sels := selections.value;
        assert forall i :: 0 <= i < |sels| ==> this !in sels[i].Repr;
        assert forall i :: 0 <= i < |sels| ==> sels[i].Valid();
        assert forall i :: 0 <= i < |sels| ==> sels[i] in sels[i].Repr;
      }
    }
  }

  /** The objects owned by a list of selection nodes. */
  ghost function ReprOf(sels: seq<Selection>): (r: set<object>)
    reads set i | 0 <= i < |sels| :: sels[i]
    ensures forall i :: 0 <= i < |sels| ==> sels[i].Repr <= r
  {
    if sels == [] then {} else ReprOf(sels[..|sels| - 1]) + sels[|sels| - 1].Repr
  }

  /** The models of a list of selection nodes. */
  ghost function ModelsOf(sels: seq<Selection>): (r: seq<SelValue>)
    reads set i | 0 <= i < |sels| :: sels[i]
    ensures |r| == |sels| && forall i :: 0 <= i < |sels| ==> r[i] == sels[i].model
  {
    if sels == [] then [] else ModelsOf(sels[..|sels| - 1]) + [sels[|sels| - 1].model]
  }

  /**
   * removeDirectivesFromSelectionSet: strips the matching directives from
   * every field of the set, drops fields under aggressive removal, then
   * recurses into the surviving fields and inline fragments.
   */
  method RemoveDirectivesFromSelectionSet(specs: seq<DirectiveSpec>, ss: SelectionSet)
    requires ss.Valid()
    modifies ss.Repr
    ensures ss.Valid() && ss.Repr == old(ss.Repr)
    ensures ss.model == StripSet(specs, old(ss.model))
    decreases ss.Repr, 3
  {
    if ss.selections.None? {
      return;
    }
    ghost var oldModels := ss.model.items;
    StripLevelsOfSet(specs, ss);
    ghost var levelModels := ss.model.items;
    assert levelModels == LevelAll(specs, oldModels);
    StripChildrenOfSet(specs, ss);
    TwoPasses(specs, oldModels);
  }

  /**
   * The `map`/`filter` pass: overwrites each field's directives with the
   * kept ones and replaces `selections` by the selections that survive.
   */
  method StripLevelsOfSet(specs: seq<DirectiveSpec>, ss: SelectionSet)
    requires ss.Valid() && ss.selections.Some?
    modifies ss.Repr
    ensures ss.Valid() && ss.Repr == old(ss.Repr) && ss.selections.Some?
    ensures ss.model == Selections(LevelAll(specs, old(ss.model).items))
  {
    var sels := ss.selections.value;
    ghost var oldModels := ss.model.items;
    ghost var reprs := ReprsOf(sels);
    assert forall k :: 0 <= k < |sels| ==> sels[k] in ss.Repr && reprs[k] <= ss.Repr && ss !in reprs[k] && sels[k] in reprs[k];
    var kept, idx := FilterSelections(specs, sels, oldModels);
    ghost var levels := LevelAll(specs, oldModels);
    forall a | 0 <= a < |kept|
      ensures kept[a] in ss.Repr && kept[a].Repr <= ss.Repr && ss !in kept[a].Repr
    {
      assert kept[a].Repr == reprs[idx[a]];
    }
    forall a, b | 0 <= a < b < |kept| ensures kept[a].Repr !! kept[b].Repr {
      assert idx[a] < idx[b];
      assert kept[a].Repr == reprs[idx[a]] && kept[b].Repr == reprs[idx[b]];
    }
    ReplaceSelections(ss, kept, levels);
  }

  /** `selectionSet.selections = ...`: installs a new selection list that meets the validity conditions. */
  method ReplaceSelections(ss: SelectionSet, kept: seq<Selection>, ghost levels: seq<SelValue>)
    requires ss in ss.Repr && |kept| == |levels|
    requires forall a :: 0 <= a < |kept| ==> kept[a] in ss.Repr && kept[a].Repr <= ss.Repr && ss !in kept[a].Repr
    requires forall a :: 0 <= a < |kept| ==> kept[a].model == levels[a] && kept[a].Valid()
    requires forall a, b :: 0 <= a < b < |kept| ==> kept[a].Repr !! kept[b].Repr
    modifies ss
    ensures ss.Valid() && ss.Repr == old(ss.Repr)
    ensures ss.selections == Some(kept) && ss.model == Selections(levels)
  {
    ss.selections := Some(kept);
    ss.model := Selections(levels);
    SetValidFromParts(ss, kept, levels);
  }

  /** The owned objects of each node of a selection list. */
  ghost function ReprsOf(sels: seq<Selection>): (r: seq<set<object>>)
    reads set i | 0 <= i < |sels| :: sels[i]
    ensures |r| == |sels| && forall i :: 0 <= i < |sels| ==> r[i] == sels[i].Repr
  {
    if sels == [] then [] else ReprsOf(sels[..|sels| - 1]) + [sels[|sels| - 1].Repr]
  }

  /** A selection set is valid again once its new selection list meets these conditions. */
  lemma SetValidFromParts(ss: SelectionSet, kept: seq<Selection>, levels: seq<SelValue>)
    requires ss in ss.Repr && ss.selections == Some(kept) && ss.model == Selections(levels)
    requires |kept| == |levels|
    requires forall a :: 0 <= a < |kept| ==> kept[a] in ss.Repr && kept[a].Repr <= ss.Repr && ss !in kept[a].Repr
    requires forall a :: 0 <= a < |kept| ==> kept[a].model == levels[a] && kept[a].Valid()
    requires forall a, b :: 0 <= a < b < |kept| ==> kept[a].Repr !! kept[b].Repr
    ensures ss.Valid()
  {
  }

  /**
   * The `map` over a selection list, then the `filter` of the dropped
   * (`null`) entries; the survivors carry the level step's models.
   */
  method FilterSelections(specs: seq<DirectiveSpec>, sels: seq<Selection>, ghost models: seq<SelValue>)
    returns (kept: seq<Selection>, ghost idx: seq<int>)
    requires forall k :: 0 <= k < |sels| ==> sels[k].Valid()
    requires forall k, l :: 0 <= k < l < |sels| ==> sels[k].Repr !! sels[l].Repr
    requires |models| == |sels|
    requires forall k :: 0 <= k < |sels| ==> sels[k].model == models[k]
    modifies set k | 0 <= k < |sels| :: sels[k]
    ensures forall k :: 0 <= k < |sels| ==> sels[k].Valid()
    ensures forall k :: 0 <= k < |sels| ==> sels[k].Repr == old(sels[k].Repr)
    ensures |kept| == |idx| == |LevelAll(specs, models)|
    ensures forall a :: 0 <= a < |idx| ==> 0 <= idx[a] < |sels| && kept[a] == sels[idx[a]]
    ensures forall a, b :: 0 <= a < b < |idx| ==> idx[a] < idx[b]
    ensures forall a :: 0 <= a < |kept| ==> kept[a].model == LevelAll(specs, models)[a]
  {
    var mapped := MapSelections(specs, sels, models);
    kept := NonNull(mapped);
    idx := NonNullPositions(mapped);
    NonNullAtPositions(mapped);
    NonNullModels(mapped, LevelEach(specs, models));
    LevelAllIsSomes(specs, models);
  }

  /**
   * The `map` over a selection list: each entry is the selection itself,
   * with its directives stripped, or `null` when the selection is dropped.
   */
  method MapSelections(specs: seq<DirectiveSpec>, sels: seq<Selection>, ghost models: seq<SelValue>)
    returns (mapped: seq<Selection?>)
    requires forall k :: 0 <= k < |sels| ==> sels[k].Valid()
    requires forall k, l :: 0 <= k < l < |sels| ==> sels[k].Repr !! sels[l].Repr
    requires |models| == |sels|
    requires forall k :: 0 <= k < |sels| ==> sels[k].model == models[k]
    modifies set k | 0 <= k < |sels| :: sels[k]
    ensures forall k :: 0 <= k < |sels| ==> sels[k].Valid()
    ensures forall k :: 0 <= k < |sels| ==> sels[k].Repr == old(sels[k].Repr)
    ensures |mapped| == |sels|
    ensures forall k :: 0 <= k < |sels| ==> (mapped[k] == null <==> StripLevel(specs, models[k]).None?)
    ensures forall k :: 0 <= k < |sels| && mapped[k] != null ==>
      mapped[k] == sels[k] && sels[k].model == StripLevel(specs, models[k]).value
  {
    var aggressive := AggressiveRemove(specs);
    mapped := [];
    var i := 0;
    while i < |sels|
      invariant 0 <= i <= |sels| && |mapped| == i
      invariant forall k :: 0 <= k < |sels| ==> sels[k].Valid()
      invariant forall k, l :: 0 <= k < l < |sels| ==> sels[k].Repr !! sels[l].Repr
      invariant forall k :: 0 <= k < |sels| ==> sels[k].Repr == old(sels[k].Repr)
      invariant forall k :: i <= k < |sels| ==> sels[k].model == models[k]
      invariant forall k :: 0 <= k < i ==> (mapped[k] == null <==> StripLevel(specs, models[k]).None?)
      invariant forall k :: 0 <= k < i && mapped[k] != null ==>
        mapped[k] == sels[k] && sels[k].model == StripLevel(specs, models[k]).value
    {
      var keep := StripLevelAt(specs, sels, i, aggressive);
      mapped := mapped + [if keep then sels[i] else null];
      i := i + 1;
    }
  }

  /** The `map` callback applied to one entry of a list; its siblings are left alone. */
  method StripLevelAt(specs: seq<DirectiveSpec>, sels: seq<Selection>, i: int, aggressive: bool)
    returns (keep: bool)
    requires 0 <= i < |sels| && aggressive == AggressiveRemove(specs)
    requires forall k :: 0 <= k < |sels| ==> sels[k].Valid()
    requires forall k, l :: 0 <= k < l < |sels| ==> sels[k].Repr !! sels[l].Repr
    modifies sels[i]
    ensures forall k :: 0 <= k < |sels| ==> sels[k].Valid() && sels[k].Repr == old(sels[k].Repr)
    ensures forall k :: 0 <= k < |sels| && k != i ==> sels[k].model == old(sels[k].model)
    ensures keep <==> StripLevel(specs, old(sels[i].model)).Some?
    ensures keep ==> sels[i].model == StripLevel(specs, old(sels[i].model)).value
  {
    SeparateFromSiblings(sels, i);
    keep := StripLevelOfSelection(specs, sels[i], aggressive);
  }

  /** The `filter(x => !!x)`: the entries that are not `null`, in order. */
  function NonNull(xs: seq<Selection?>): seq<Selection>
  {
    if xs == [] then []
    else NonNull(xs[..|xs| - 1]) + (if xs[|xs| - 1] == null then [] else [xs[|xs| - 1]])
  }

  /** The positions of the entries that are not `null`. */
  ghost function NonNullPositions(xs: seq<Selection?>): seq<int>
  {
    if xs == [] then []
    else NonNullPositions(xs[..|xs| - 1]) + (if xs[|xs| - 1] == null then [] else [|xs| - 1])
  }

  /** The kept entries are the entries at increasing positions of the list. */
  lemma {:induction false} NonNullAtPositions(xs: seq<Selection?>)
    ensures |NonNull(xs)| == |NonNullPositions(xs)|
    ensures forall a :: 0 <= a < |NonNull(xs)| ==>
      0 <= NonNullPositions(xs)[a] < |xs| && NonNull(xs)[a] == xs[NonNullPositions(xs)[a]]
    ensures forall a, b :: 0 <= a < b < |NonNullPositions(xs)| ==> NonNullPositions(xs)[a] < NonNullPositions(xs)[b]
  {
    if xs != [] {
      var init := xs[..|xs| - 1];
      NonNullAtPositions(init);
      forall a | 0 <= a < |NonNullPositions(init)| ensures NonNullPositions(init)[a] < |xs| - 1 { }
    }
  }

  /** The values of the present entries, in order. */
  function Somes(os: seq<Option<SelValue>>): seq<SelValue>
  {
    if os == [] then [] else Somes(os[..|os| - 1]) + OptionToSeq(os[|os| - 1])
  }

  /** The level step's outcome on each selection of a list. */
  function LevelEach(specs: seq<DirectiveSpec>, sels: seq<SelValue>): (r: seq<Option<SelValue>>)
    ensures |r| == |sels| && forall k :: 0 <= k < |sels| ==> r[k] == StripLevel(specs, sels[k])
  {
    if sels == [] then [] else LevelEach(specs, sels[..|sels| - 1]) + [StripLevel(specs, sels[|sels| - 1])]
  }

  lemma {:induction false} LevelAllIsSomes(specs: seq<DirectiveSpec>, sels: seq<SelValue>)
    ensures LevelAll(specs, sels) == Somes(LevelEach(specs, sels))
  {
    if sels != [] {
      var init := sels[..|sels| - 1];
      LevelAllIsSomes(specs, init);
      assert LevelEach(specs, sels)[..|sels| - 1] == LevelEach(specs, init);
    }
  }

  /** The surviving nodes carry, in order, the models of the level step's survivors. */
  lemma {:induction false} NonNullModels(mapped: seq<Selection?>, levels: seq<Option<SelValue>>)
    requires |mapped| == |levels|
    requires forall k :: 0 <= k < |mapped| ==> (mapped[k] == null <==> levels[k].None?)
    requires forall k :: 0 <= k < |mapped| && mapped[k] != null ==> levels[k] == Some(mapped[k].model)
    ensures ModelsOf(NonNull(mapped)) == Somes(levels)
  {
    if mapped != [] {
      var n := |mapped|;
      var init, last, linit := mapped[..n - 1], mapped[n - 1], levels[..n - 1];
      assert forall k :: 0 <= k < n - 1 ==> init[k] == mapped[k] && linit[k] == levels[k];
      NonNullModels(init, linit);
      assert Somes(levels) == Somes(linit) + OptionToSeq(levels[n - 1]);
      if last == null {
        assert NonNull(mapped) == NonNull(init);
        assert OptionToSeq(levels[n - 1]) == [];
      } else {
        assert NonNull(mapped) == NonNull(init) + [last];
        ModelsOfSnoc(NonNull(init), last);
        assert OptionToSeq(levels[n - 1]) == [last.model];
      }
    }
  }

  lemma ModelsOfSnoc(xs: seq<Selection>, x: Selection)
    ensures ModelsOf(xs + [x]) == ModelsOf(xs) + [x.model]
  {
    assert (xs + [x])[..|xs|] == xs;
  }

  /**
   * The `map` callback on one selection node: a field with a directive list
   * has it overwritten by the kept directives; the answer says whether the
   * selection survives.
   */
  method StripLevelOfSelection(specs: seq<DirectiveSpec>, s: Selection, aggressive: bool)
    returns (keep: bool)
    requires s.Valid() && aggressive == AggressiveRemove(specs)
    modifies s
    ensures s.Valid() && s.Repr == old(s.Repr)
    ensures keep <==> StripLevel(specs, old(s.model)).Some?
    ensures keep ==> s.model == StripLevel(specs, old(s.model)).value
  {
    keep := true;
    if s.kind.FieldKind? && s.directives.Some? {
      var newDirectives, remove := FilterDirectives(specs, s.directives.value, aggressive);
      s.directives := Some(newDirectives);
      s.model := s.model.(directives := Some(newDirectives));
      keep := !remove;
    }
  }

  /** Changing one selection leaves the others' validity and models alone. */
  lemma SeparateFromSiblings(sels: seq<Selection>, i: int)
    requires 0 <= i < |sels|
    requires forall k :: 0 <= k < |sels| ==> sels[k] in sels[k].Repr
    requires forall k, l :: 0 <= k < l < |sels| ==> sels[k].Repr !! sels[l].Repr
    ensures forall k :: 0 <= k < |sels| && k != i ==> sels[i] !in sels[k].Repr && sels[k] != sels[i]
  {
    forall k | 0 <= k < |sels| && k != i
      ensures sels[i] !in sels[k].Repr && sels[k] != sels[i]
    {
      if k < i {
        assert sels[k].Repr !! sels[i].Repr;
      } else {
        assert sels[i].Repr !! sels[k].Repr;
      }
    }
  }

  /**
   * The `forEach` pass: recurses into the selection set of every surviving
   * field and inline fragment that has one.
   */
  method StripChildrenOfSet(specs: seq<DirectiveSpec>, ss: SelectionSet)
    requires ss.Valid() && ss.selections.Some?
    modifies ss.Repr
    ensures ss.Valid() && ss.Repr == old(ss.Repr) && ss.selections == old(ss.selections)
    ensures ss.model == Selections(MapFinish(specs, old(ss.model).items))
    decreases ss.Repr, 2
  {
    var sels := ss.selections.value;
    ghost var levelModels := ss.model.items;
    var a := 0;
    while a < |sels|
      invariant 0 <= a <= |sels|
      invariant ss.selections == Some(sels) && ss.Repr == old(ss.Repr)
      invariant forall k :: 0 <= k < |sels| ==>
        && sels[k] in ss.Repr && sels[k].Repr <= ss.Repr && ss !in sels[k].Repr && sels[k].Valid()
      invariant forall k, l :: 0 <= k < l < |sels| ==> sels[k].Repr !! sels[l].Repr
      invariant forall k :: 0 <= k < a ==> sels[k].model == Finish(specs, levelModels[k])
      invariant forall k :: a <= k < |sels| ==> sels[k].model == levelModels[k]
    {
      StripChildAt(specs, ss, sels, a);
      a := a + 1;
    }
    ss.model := Selections(MapFinish(specs, levelModels));
  }

  /** The `forEach` callback applied to one entry of a set's list; its siblings are left alone. */
  method StripChildAt(specs: seq<DirectiveSpec>, ss: SelectionSet, sels: seq<Selection>, a: int)
    requires 0 <= a < |sels|
    requires forall k :: 0 <= k < |sels| ==>
      && sels[k] in ss.Repr && sels[k].Repr <= ss.Repr && ss !in sels[k].Repr && sels[k].Valid()
    requires forall k, l :: 0 <= k < l < |sels| ==> sels[k].Repr !! sels[l].Repr
    modifies sels[a].Repr
    ensures forall k :: 0 <= k < |sels| ==> sels[k].Valid() && sels[k].Repr == old(sels[k].Repr)
    ensures forall k :: 0 <= k < |sels| && k != a ==> sels[k].model == old(sels[k].model)
    ensures sels[a].model == Finish(specs, old(sels[a].model))
    decreases ss.Repr, 1
  {
    SeparateFromSiblings(sels, a);
    StripChildOfSelection(specs, sels[a]);
  }

  /** The `forEach` callback: a field or inline fragment with a selection set has it stripped. */
  method StripChildOfSelection(specs: seq<DirectiveSpec>, s: Selection)
    requires s.Valid()
    modifies s.Repr
    ensures s.Valid() && s.Repr == old(s.Repr)
    ensures s.model == Finish(specs, old(s.model))
    decreases s.Repr, 0
  {
    if (s.kind.FieldKind? || s.kind.InlineFragmentKind?) && s.selectionSet != null {
      RemoveDirectivesFromSelectionSet(specs, s.selectionSet);
      s.model := s.model.(child := Some(s.selectionSet.model));
    }
  }

  // ---------------------------------------------------------------------
  // The document
  // ---------------------------------------------------------------------

  /** A definition of the document: an operation or a named fragment, with its selection set. */
  datatype Definition =
    | OperationDefinition(operationName: Option<string>, selectionSet: SelectionSet)
    | FragmentDefinition(fragmentName: string, selectionSet: SelectionSet)

  /** A definition as a value. */
  datatype DefinitionValue =
    | OperationValue(operationName: Option<string>, body: SetValue)
    | FragmentValue(fragmentName: string, body: SetValue)

  ghost function DefinitionModels(defs: seq<Definition>): (r: seq<DefinitionValue>)
    reads set i | 0 <= i < |defs| :: defs[i].selectionSet
    ensures |r| == |defs|
    ensures forall i :: 0 <= i < |defs| ==> r[i].body == defs[i].selectionSet.model
    ensures forall i :: 0 <= i < |defs| ==> (r[i].OperationValue? <==> defs[i].OperationDefinition?)
    ensures forall i :: 0 <= i < |defs| && defs[i].FragmentDefinition? ==> r[i].fragmentName == defs[i].fragmentName
    ensures forall i :: 0 <= i < |defs| && defs[i].OperationDefinition? ==> r[i].operationName == defs[i].operationName
  {
    if defs == [] then []
    else
      var d := defs[|defs| - 1];
      DefinitionModels(defs[..|defs| - 1])
      + [if d.OperationDefinition? then OperationValue(d.operationName, d.selectionSet.model)
         else FragmentValue(d.fragmentName, d.selectionSet.model)]
  }

  /** createFragmentMap: each fragment by name, a later definition replacing an earlier one. */
  function FragmentMap(defs: seq<DefinitionValue>): (m: map<string, SetValue>)
  {
    if defs == [] then map[]
    else
      var d := defs[|defs| - 1];
      var m := FragmentMap(defs[..|defs| - 1]);
      if d.FragmentValue? then m[d.fragmentName := d.body] else m
  }

  /** getOperationDefinition: the first operation of the document, if any. */
  function FirstOperation(defs: seq<DefinitionValue>): Option<SetValue>
  {
    if defs == [] then None
    else if defs[0].OperationValue? then Some(defs[0].body)
    else FirstOperation(defs[1..])
  }

  /** There is an operation exactly when the answer is present, and then it is the first one's body. */
  lemma {:induction false} FirstOperationIsFirst(defs: seq<DefinitionValue>)
    ensures FirstOperation(defs).Some? <==> exists i :: 0 <= i < |defs| && defs[i].OperationValue?
    ensures FirstOperation(defs).Some? ==>
      exists i :: 0 <= i < |defs| && IsFirstOperation(defs, i) && defs[i].body == FirstOperation(defs).value
  {
    if defs != [] {
      if defs[0].OperationValue? {
        assert IsFirstOperation(defs, 0);
      } else {
        var rest := defs[1..];
        FirstOperationIsFirst(rest);
        if FirstOperation(rest).Some? {
          var i :| 0 <= i < |rest| && IsFirstOperation(rest, i) && rest[i].body == FirstOperation(rest).value;
          assert IsFirstOperation(defs, i + 1);
        } else {
          forall i | 0 <= i < |defs| ensures !defs[i].OperationValue? {
            if i > 0 {
              assert defs[i] == rest[i - 1];
            }
          }
        }
      }
    }
  }

  /** Definition `i` is an operation and no earlier definition is one. */
  predicate IsFirstOperation(defs: seq<DefinitionValue>, i: int)
    requires 0 <= i < |defs|
  {
    defs[i].OperationValue? && forall j :: 0 <= j < i ==> !defs[j].OperationValue?
  }

  /** What the default export returns: the document, `null`, or an error for a document without an operation. */
  datatype DocumentOutcome = DocumentKept | DocumentNull | MissingOperation

  /** The document's selection sets are valid and own pairwise separate objects. */
  ghost predicate DocumentValid(defs: seq<Definition>)
    reads set i | 0 <= i < |defs| :: defs[i].selectionSet
    reads set i, o | 0 <= i < |defs| && o in defs[i].selectionSet.Repr :: o
  {
    && (forall i :: 0 <= i < |defs| ==> defs[i].selectionSet.Valid())
    && (forall i, j :: 0 <= i < j < |defs| ==> defs[i].selectionSet.Repr !! defs[j].selectionSet.Repr)
  }

  ghost function DocumentRepr(defs: seq<Definition>): set<object>
    reads set i | 0 <= i < |defs| :: defs[i].selectionSet
  {
    set i, o | 0 <= i < |defs| && o in defs[i].selectionSet.Repr :: o
  }

  /**
   * The preconditions of the emptiness test on the document's values: the
   * fragment map is acyclic and the first operation has a `selections` list
   * whose spreads all name fragments.
   */
  ghost predicate EmptinessDefined(values: seq<DefinitionValue>, rank: map<string, nat>, bound: nat)
  {
    && Ranked(FragmentMap(values), rank)
    && (FirstOperation(values).Some? ==>
          && FirstOperation(values).value.Selections?
          && SpreadsBelow(FirstOperation(values).value.items, FragmentMap(values), rank, bound))
  }

  /**
   * The default export: strips every definition's selection set, then
   * returns the document when its first operation is not empty after
   * following fragment spreads, `null` when it is.
   */
  method RemoveDirectivesFromDocument(specs: seq<DirectiveSpec>, defs: seq<Definition>,
                                      ghost rank: map<string, nat>, ghost bound: nat)
    returns (r: DocumentOutcome)
    requires DocumentValid(defs)
    requires EmptinessDefined(DefinitionModels(defs), rank, bound)
    modifies DocumentRepr(defs)
    ensures forall i :: 0 <= i < |defs| ==>
      defs[i].selectionSet.model == StripSet(specs, old(defs[i].selectionSet.model))
    ensures EmptinessDefined(StripDefinitions(specs, old(DefinitionModels(defs))), rank, bound)
    ensures r == Outcome(StripDefinitions(specs, old(DefinitionModels(defs))), rank, bound)
  {
    ghost var oldValues := DefinitionModels(defs);
    StripEveryDefinition(specs, defs);
    StripKeepsEmptinessDefined(specs, oldValues, rank, bound);
    r := DocumentOutcomeOf(defs, StripDefinitions(specs, oldValues), rank, bound);
  }

  /**
   * What the default export answers for a document with the given
   * definitions: an error without an operation, else the document when its
   * first operation is not empty after following fragment spreads, else `null`.
   */
  ghost function Outcome(values: seq<DefinitionValue>, rank: map<string, nat>, bound: nat): DocumentOutcome
    requires EmptinessDefined(values, rank, bound)
  {
    if FirstOperation(values).None? then MissingOperation
    else if IsNotEmpty(FirstOperation(values).value, FragmentMap(values), rank, bound) then DocumentKept
    else DocumentNull
  }

  /** The `forEach` over the definitions: each selection set is stripped in place. */
  method StripEveryDefinition(specs: seq<DirectiveSpec>, defs: seq<Definition>)
    requires DocumentValid(defs)
    modifies DocumentRepr(defs)
    ensures DocumentValid(defs)
    ensures forall i :: 0 <= i < |defs| ==>
      defs[i].selectionSet.model == StripSet(specs, old(defs[i].selectionSet.model))
    ensures DefinitionModels(defs) == StripDefinitions(specs, old(DefinitionModels(defs)))
  {
    ghost var oldValues := DefinitionModels(defs);
    var i := 0;
    while i < |defs|
      invariant 0 <= i <= |defs|
      invariant forall k :: 0 <= k < |defs| ==> defs[k].selectionSet.Valid()
      invariant forall k :: 0 <= k < |defs| ==> defs[k].selectionSet.Repr == old(defs[k].selectionSet.Repr)
      invariant forall k, l :: 0 <= k < l < |defs| ==> defs[k].selectionSet.Repr !! defs[l].selectionSet.Repr
      invariant forall k :: 0 <= k < i ==> defs[k].selectionSet.model == StripSet(specs, old(defs[k].selectionSet.model))
      invariant forall k :: i <= k < |defs| ==> defs[k].selectionSet.model == old(defs[k].selectionSet.model)
    {
      StripDefinitionAt(specs, defs, i);
      i := i + 1;
    }
    StrippedModels(specs, defs, oldValues);
  }

  /** The `forEach` callback on one definition; the other definitions are left alone. */
  method StripDefinitionAt(specs: seq<DirectiveSpec>, defs: seq<Definition>, i: int)
    requires 0 <= i < |defs|
    requires forall k :: 0 <= k < |defs| ==> defs[k].selectionSet.Valid()
    requires forall k, l :: 0 <= k < l < |defs| ==> defs[k].selectionSet.Repr !! defs[l].selectionSet.Repr
    modifies defs[i].selectionSet.Repr
    ensures forall k :: 0 <= k < |defs| ==>
      defs[k].selectionSet.Valid() && defs[k].selectionSet.Repr == old(defs[k].selectionSet.Repr)
    ensures forall k :: 0 <= k < |defs| && k != i ==> defs[k].selectionSet.model == old(defs[k].selectionSet.model)
    ensures defs[i].selectionSet.model == StripSet(specs, old(defs[i].selectionSet.model))
  {
    var ss := defs[i].selectionSet;
    forall k | 0 <= k < |defs| && k != i
      ensures defs[k].selectionSet.Repr !! ss.Repr
    {
      if k < i {
        assert defs[k].selectionSet.Repr !! defs[i].selectionSet.Repr;
      } else {
        assert defs[i].selectionSet.Repr !! defs[k].selectionSet.Repr;
      }
    }
    RemoveDirectivesFromSelectionSet(specs, ss);
  }

  /** The definitions' values once every selection set holds its stripped value. */
  lemma StrippedModels(specs: seq<DirectiveSpec>, defs: seq<Definition>, before: seq<DefinitionValue>)
    requires |before| == |defs|
    requires forall i :: 0 <= i < |defs| ==> (before[i].OperationValue? <==> defs[i].OperationDefinition?)
    requires forall i :: 0 <= i < |defs| && defs[i].FragmentDefinition? ==> before[i].fragmentName == defs[i].fragmentName
    requires forall i :: 0 <= i < |defs| && defs[i].OperationDefinition? ==> before[i].operationName == defs[i].operationName
    requires forall i :: 0 <= i < |defs| ==> defs[i].selectionSet.model == StripSet(specs, before[i].body)
    ensures DefinitionModels(defs) == StripDefinitions(specs, before)
  {
  }

  /**
   * The decision of the default export on the stripped document: `null`
   * exactly when its first operation is empty after following fragment
   * spreads.
   */
  method DocumentOutcomeOf(defs: seq<Definition>, ghost values: seq<DefinitionValue>,
                           ghost rank: map<string, nat>, ghost bound: nat)
    returns (r: DocumentOutcome)
    requires DocumentValid(defs) && values == DefinitionModels(defs)
    requires EmptinessDefined(values, rank, bound)
    ensures r == Outcome(values, rank, bound)
  {
    var op := FirstOperationNode(defs);
    FirstOperationNodeModel(defs);
    if op == null {
      return MissingOperation;
    }
    var fragments := FragmentNodes(defs);
    FragmentNodesModel(defs);
    DocumentMirrors(defs);
    var notEmpty := CheckNotEmpty(op, fragments, op.model, Models(fragments), rank, bound);
    r := if notEmpty then DocumentKept else DocumentNull;
  }

  /** In a valid document the operation and fragment nodes mirror their values. */
  lemma DocumentMirrors(defs: seq<Definition>)
    requires DocumentValid(defs)
    ensures FirstOperationNode(defs) != null ==>
      FirstOperationNode(defs).selections.Some? ==> Mirrors(FirstOperationNode(defs), FirstOperationNode(defs).model)
    ensures forall n :: n in FragmentNodes(defs) && FragmentNodes(defs)[n].selections.Some? ==>
      Mirrors(FragmentNodes(defs)[n], Models(FragmentNodes(defs))[n])
  {
    var op := FirstOperationNode(defs);
    if op != null && op.selections.Some? {
      ValidMirrors(op);
    }
    var fragments := FragmentNodes(defs);
    forall n | n in fragments && fragments[n].selections.Some?
      ensures Mirrors(fragments[n], Models(fragments)[n])
    {
      ValidMirrors(fragments[n]);
    }
  }

  /** Stripping keeps the emptiness test defined: the fragments stay acyclic and the spreads resolved. */
  lemma StripKeepsEmptinessDefined(specs: seq<DirectiveSpec>, vs: seq<DefinitionValue>,
                                   rank: map<string, nat>, bound: nat)
    requires EmptinessDefined(vs, rank, bound)
    ensures EmptinessDefined(StripDefinitions(specs, vs), rank, bound)
  {
    var ws := StripDefinitions(specs, vs);
    FragmentMapOfStripped(specs, vs);
    FirstOperationOfStripped(specs, vs);
    RankedAfterStrip(specs, FragmentMap(vs), rank);
    if FirstOperation(vs).Some? {
      StripKeepsRanked(specs, FirstOperation(vs).value.items, FragmentMap(vs), FragmentMap(ws), rank, bound);
    }
  }

  /** Each definition with its selection set stripped. */
  function StripDefinitions(specs: seq<DirectiveSpec>, vs: seq<DefinitionValue>): (r: seq<DefinitionValue>)
    ensures |r| == |vs|
    ensures forall i :: 0 <= i < |vs| ==> r[i] == vs[i].(body := StripSet(specs, vs[i].body))
  {
    if vs == [] then []
    else StripDefinitions(specs, vs[..|vs| - 1])
         + [vs[|vs| - 1].(body := StripSet(specs, vs[|vs| - 1].body))]
  }

  function StripFragments(specs: seq<DirectiveSpec>, m: map<string, SetValue>): map<string, SetValue>
  {
    map n | n in m :: StripSet(specs, m[n])
  }

  /** The fragment map of the stripped document holds the stripped fragments. */
  lemma {:induction false} FragmentMapOfStripped(specs: seq<DirectiveSpec>, vs: seq<DefinitionValue>)
    ensures FragmentMap(StripDefinitions(specs, vs)) == StripFragments(specs, FragmentMap(vs))
  {
    if vs != [] {
      var init := vs[..|vs| - 1];
      FragmentMapOfStripped(specs, init);
      assert StripDefinitions(specs, vs)[..|vs| - 1] == StripDefinitions(specs, init);
    }
  }

  /** The first operation of the stripped document is the stripped first operation. */
  lemma {:induction false} FirstOperationOfStripped(specs: seq<DirectiveSpec>, vs: seq<DefinitionValue>)
    ensures FirstOperation(StripDefinitions(specs, vs))
      == if FirstOperation(vs).None? then None else Some(StripSet(specs, FirstOperation(vs).value))
  {
    if vs != [] && !vs[0].OperationValue? {
      FirstOperationOfStripped(specs, vs[1..]);
      assert StripDefinitions(specs, vs)[1..] == StripDefinitions(specs, vs[1..]);
    }
  }

  /** Stripping keeps the fragment map acyclic under the same ranks. */
  lemma RankedAfterStrip(specs: seq<DirectiveSpec>, m: map<string, SetValue>, rank: map<string, nat>)
    requires Ranked(m, rank)
    ensures Ranked(StripFragments(specs, m), rank)
  {
    var m' := StripFragments(specs, m);
    forall n | n in m'
      ensures n in rank && m'[n].Selections?
      ensures SpreadsBelow(m'[n].items, m', rank, rank[n])
    {
      StripKeepsRanked(specs, m[n].items, m, m', rank, rank[n]);
    }
  }

  /** The value of every fragment of a map of selection-set objects. */
  ghost function Models(frags: map<string, SelectionSet>): (m: map<string, SetValue>)
    reads set n | n in frags :: frags[n]
  {
    map n | n in frags :: frags[n].model
  }

  lemma ModelsUpdate(frags: map<string, SelectionSet>, n: string, ss: SelectionSet)
    ensures Models(frags[n := ss]) == Models(frags)[n := ss.model]
  {
  }

  /** A selection-set node has a `selections` list whose kinds are those of `v`. */
  ghost predicate Mirrors(ss: SelectionSet, v: SetValue)
    reads ss
  {
    && ss.selections.Some?
    && v.Selections?
    && |ss.selections.value| == |v.items|
    && forall k :: 0 <= k < |v.items| ==> ss.selections.value[k].kind == v.items[k].kind
  }

  lemma ValidMirrors(ss: SelectionSet)
    requires ss.Valid() && ss.selections.Some?
    ensures Mirrors(ss, ss.model)
  {
  }

  /**
   * isNotEmpty on the nodes: counts the top-level selections that are not a
   * spread of an empty fragment, following spreads recursively. `model` and
   * `fm` are the values of the operation and of the fragments.
   */
  method CheckNotEmpty(ss: SelectionSet, frags: map<string, SelectionSet>,
                       ghost model: SetValue, ghost fm: map<string, SetValue>,
                       ghost rank: map<string, nat>, ghost bound: nat) returns (b: bool)
    requires Mirrors(ss, model)
    requires frags.Keys == fm.Keys && forall n :: n in frags ==> Mirrors(frags[n], fm[n])
    requires Ranked(fm, rank)
    requires SpreadsBelow(model.items, fm, rank, bound)
    ensures b == IsNotEmpty(model, fm, rank, bound)
    decreases bound
  {
    var sels := ss.selections.value;
    ghost var ms := model.items;
    var count := 0;
    var i := 0;
    while i < |sels|
      invariant 0 <= i <= |sels|
      invariant count >= 0
      invariant SpreadsBelow(ms[i..], fm, rank, bound)
      invariant (count > 0 || AnyKept(ms[i..], fm, rank, bound)) == AnyKept(ms, fm, rank, bound)
    {
      assert ms[i..][0] == ms[i] && ms[i..][1..] == ms[i + 1..];
      var s := sels[i];
      var keep := true;
      if s.kind.FragmentSpreadKind? {
        var n := s.kind.spreadName;
        keep := CheckNotEmpty(frags[n], frags, fm[n], fm, rank, rank[n]);
      }
      if keep {
        count := count + 1;
      }
      i := i + 1;
    }
    b := count > 0;
  }

  /** createFragmentMap over getFragmentDefinitions: a later fragment of a name replaces an earlier one. */
  function FragmentNodes(defs: seq<Definition>): (frags: map<string, SelectionSet>)
    ensures forall n :: n in frags ==> exists i :: 0 <= i < |defs| && frags[n] == defs[i].selectionSet
  {
    if defs == [] then map[]
    else
      var d := defs[|defs| - 1];
      var m := FragmentNodes(defs[..|defs| - 1]);
      if d.FragmentDefinition? then m[d.fragmentName := d.selectionSet] else m
  }

  lemma {:induction false} FragmentNodesModel(defs: seq<Definition>)
    ensures Models(FragmentNodes(defs)) == FragmentMap(DefinitionModels(defs))
  {
    if defs != [] {
      var n := |defs|;
      FragmentNodesModel(defs[..n - 1]);
      assert DefinitionModels(defs)[..n - 1] == DefinitionModels(defs[..n - 1]);
      var d := defs[n - 1];
      if d.FragmentDefinition? {
        ModelsUpdate(FragmentNodes(defs[..n - 1]), d.fragmentName, d.selectionSet);
      }
    }
  }

  /** getOperationDefinition: the selection set of the first operation, or `null`. */
  function FirstOperationNode(defs: seq<Definition>): (op: SelectionSet?)
    ensures op != null ==> exists i :: 0 <= i < |defs| && op == defs[i].selectionSet
  {
    if defs == [] then null
    else if defs[0].OperationDefinition? then defs[0].selectionSet
    else
      var op := FirstOperationNode(defs[1..]);
      assert op != null ==> exists i :: 0 <= i < |defs[1..]| && op == defs[1..][i].selectionSet;
      op
  }

  lemma {:induction false} FirstOperationNodeModel(defs: seq<Definition>)
    ensures FirstOperationNode(defs) == null <==> FirstOperation(DefinitionModels(defs)).None?
    ensures FirstOperationNode(defs) != null ==>
      FirstOperationNode(defs).model == FirstOperation(DefinitionModels(defs)).value
  {
    if defs != [] && !defs[0].OperationDefinition? {
      FirstOperationNodeModel(defs[1..]);
      assert DefinitionModels(defs)[1..] == DefinitionModels(defs[1..]);
    }
  }
}
