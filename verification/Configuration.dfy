/** Configuration: a JSON document that is updated by merging, checked before it is accepted,
    and dumped with its variables resolved.

    Documents consist of objects and scalars, and the values in the variables section are not
    objects themselves. The order in which the section's keys are visited is a parameter. */
module Configuration {
  import opened Common
  import opened VariableText
  import opened Variables
  import opened VariableExpansion
  import opened VariableTypes
  import opened Json
  import opened DocumentResolution
  import Updates

  const VARIABLES := "variables"

  datatype Outcome =
    | Updated
    | ParsingFailed
    | VariableUsedInKey
    | CircularDependency
    | UndefinedVariable
    | JsonException

  datatype Resolution<V> = Resolved(json: Tree<V>) | Failed(outcome: Outcome)

  // ----- walking all elements -----

  /** CheckVariablesOnlyUsedInValues */
  predicate KeysPlain<V>(j: Tree<V>) {
    j.Obj? ==> forall key :: key in j.fields ==> !Occurs(key, "${") && KeysPlain(j.fields[key])
  }

  /** CheckAllVariablesAreResolved */
  predicate FullyResolved(j: Json) {
    match j
    case Null => true
    case Leaf(v) => v.Str? ==> !HasRef(v.text)
    case Obj(fields) => forall key :: key in fields ==> FullyResolved(fields[key])
  }

  // ----- the variables section -----

  predicate HasSection<V>(j: Tree<V>) {
    j.Obj? && VARIABLES in j.fields
  }

  predicate SectionOk<V>(j: Tree<V>) {
    HasSection(j) && j.fields[VARIABLES].Obj? ==>
      forall key :: key in j.fields[VARIABLES].fields ==> j.fields[VARIABLES].fields[key].Leaf?
  }

  function SectionOf<V>(j: Tree<V>): map<string, V>
    requires SectionOk(j)
  {
    if HasSection(j) && j.fields[VARIABLES].Obj? then
      var fields := j.fields[VARIABLES].fields;
      map key | key in fields :: fields[key].value
    else map[]
  }

  function AsJson<V>(vars: map<string, V>): Tree<V> {
    Obj(map key | key in vars :: Leaf(vars[key]))
  }

  /** The iteration over a section that is not an object asks for a key, and throws. */
  function ResolveVariables(j: Json, order: seq<string>): Resolution<Value>
    requires SectionOk(j) && Enumerates(order, SectionOf(j).Keys)
  {
    if !HasSection(j) then Resolved(j)
    else if !j.fields[VARIABLES].Obj? then Failed(JsonException)
    else
      var r := EliminateAll(SectionOf(j), order);
      if r.Circular? then Failed(CircularDependency)
      else Resolved(ResolveTree(Obj(j.fields[VARIABLES := AsJson(r.value)]), r.value, order))
  }

  /** The checks of VerifyAndMerge */
  function Verify(j: Json, order: seq<string>): (outcome: Outcome)
    requires SectionOk(j) && Enumerates(order, SectionOf(j).Keys)
    ensures outcome != ParsingFailed
  {
    if !KeysPlain(j) then VariableUsedInKey
    else
      match ResolveVariables(j, order)
      case Failed(outcome) => outcome
      case Resolved(json) => if FullyResolved(json) then Updated else UndefinedVariable
  }

  // ----- what is accepted -----

  /** Every reference in every string is to one of the names. */
  ghost predicate RefersOnlyTo(j: Json, names: set<string>) {
    match j
    case Null => true
    case Leaf(v) => forall n :: HasRefTo(TextOf(v), n) ==> n in names
    case Obj(fields) => forall key :: key in fields ==> RefersOnlyTo(fields[key], names)
  }

  /** No key on any path through the document has reference syntax in it. */
  ghost predicate NoReferenceInKeys<V>(j: Tree<V>) {
    forall path: seq<string>, i :: HasPath(j, path) && 0 <= i < |path| ==> !Contains(path[i], "${")
  }

  /** No string at any path holds a reference. */
  ghost predicate NoReferenceInValues(j: Json) {
    forall path, v: Value :: At(j, path) == Some(Leaf(v)) && v.Str? ==> !HasRef(v.text)
  }

  /** Every reference in a value at any path is to one of the names. */
  ghost predicate OnlyReferencesTo(j: Json, names: set<string>) {
    forall path, v: Value, n :: At(j, path) == Some(Leaf(v)) && HasRefTo(TextOf(v), n) ==> n in names
  }

  /** No reference syntax in keys, an object for a variables section if there is one, no
      circular dependency in it, and no reference to anything it does not define. */
  ghost predicate Acceptable(j: Json)
    requires SectionOk(j)
  {
    && NoReferenceInKeys(j)
    && (j.Obj? && "variables" in j.fields ==> j.fields["variables"].Obj?)
    && !HasCycle(SectionOf(j), SectionOf(j).Keys)
    && OnlyReferencesTo(j, SectionOf(j).Keys)
  }

  /** The same as the walks over all elements find it */
  ghost predicate WalkAccepts(j: Json)
    requires SectionOk(j)
  {
    && KeysPlain(j)
    && (HasSection(j) ==> j.fields[VARIABLES].Obj?)
    && !HasCycle(SectionOf(j), SectionOf(j).Keys)
    && RefersOnlyTo(j, SectionOf(j).Keys)
  }

  // ----- what the walks find -----

  lemma {:induction false} PlainOnPath<V>(j: Tree<V>, path: seq<string>, i: nat)
    requires KeysPlain(j) && HasPath(j, path) && i < |path|
    ensures !Contains(path[i], "${")
  {
    hide Occurs, Contains;
    if i == 0 {
      OccursExactly(path[0], "${");
    } else {
      PlainOnPath(j.fields[path[0]], path[1..], i - 1);
    }
  }

  /** The walk visits every key on every path. */
  lemma {:induction false} KeysPlainExactly<V>(j: Tree<V>)
    ensures KeysPlain(j) <==> NoReferenceInKeys(j)
    decreases j
  {
    hide Occurs, Contains;
    if KeysPlain(j) {
      forall path, i: nat | HasPath(j, path) && 0 <= i < |path|
        ensures !Contains(path[i], "${")
      {
        PlainOnPath(j, path, i);
      }
    }
    if NoReferenceInKeys(j) && j.Obj? {
      forall key | key in j.fields
        ensures !Occurs(key, "${") && KeysPlain(j.fields[key])
      {
        assert HasPath(j.fields[key], []);
        assert [key][1..] == [] && HasPath(j, [key]) && [key][0] == key;
        OccursExactly(key, "${");
        forall path, i | HasPath(j.fields[key], path) && 0 <= i < |path|
          ensures !Contains(path[i], "${")
        {
          assert ([key] + path)[1..] == path && ([key] + path)[i + 1] == path[i];
          assert HasPath(j, [key] + path);
        }
        KeysPlainExactly(j.fields[key]);
      }
    }
  }

  lemma {:induction false} ResolvedAtPath(j: Json, path: seq<string>, v: Value)
    requires FullyResolved(j) && At(j, path) == Some(Leaf(v)) && v.Str?
    ensures !HasRef(v.text)
  {
    if path != [] {
      ResolvedAtPath(j.fields[path[0]], path[1..], v);
    }
  }

  lemma AtOneKey<V>(j: Tree<V>, key: string, path: seq<string>)
    requires j.Obj? && key in j.fields
    ensures At(j, [key] + path) == At(j.fields[key], path)
  {
    assert ([key] + path)[1..] == path && ([key] + path)[0] == key;
  }

  /** So it does every value at every path. */
  lemma {:induction false} FullyResolvedExactly(j: Json)
    ensures FullyResolved(j) <==> NoReferenceInValues(j)
    decreases j
  {
    hide HasRef;
    if FullyResolved(j) {
      forall path, v: Value | At(j, path) == Some(Leaf(v)) && v.Str?
        ensures !HasRef(v.text)
      {
        ResolvedAtPath(j, path, v);
      }
    }
    if NoReferenceInValues(j) {
      assert j.Leaf? ==> At(j, []) == Some(Leaf(j.value));
      if j.Obj? {
        forall key | key in j.fields
          ensures FullyResolved(j.fields[key])
        {
          forall path, v: Value | At(j.fields[key], path) == Some(Leaf(v)) && v.Str?
            ensures !HasRef(v.text)
          {
            AtOneKey(j, key, path);
            assert At(j, [key] + path) == Some(Leaf(v));
          }
          FullyResolvedExactly(j.fields[key]);
        }
      }
    }
  }

  lemma {:induction false} RefersAtPath(j: Json, names: set<string>, path: seq<string>, v: Value, n: string)
    requires RefersOnlyTo(j, names) && At(j, path) == Some(Leaf(v)) && HasRefTo(TextOf(v), n)
    ensures n in names
  {
    if path != [] {
      RefersAtPath(j.fields[path[0]], names, path[1..], v, n);
    }
  }

  lemma {:induction false} RefersOnlyToExactly(j: Json, names: set<string>)
    ensures RefersOnlyTo(j, names) <==> OnlyReferencesTo(j, names)
    decreases j
  {
    hide HasRefTo, TextOf;
    if RefersOnlyTo(j, names) {
      forall path, v: Value, n | At(j, path) == Some(Leaf(v)) && HasRefTo(TextOf(v), n)
        ensures n in names
      {
        RefersAtPath(j, names, path, v, n);
      }
    }
    if OnlyReferencesTo(j, names) {
      assert j.Leaf? ==> At(j, []) == Some(Leaf(j.value));
      if j.Obj? {
        forall key | key in j.fields
          ensures RefersOnlyTo(j.fields[key], names)
        {
          forall path, v: Value, n | At(j.fields[key], path) == Some(Leaf(v)) && HasRefTo(TextOf(v), n)
            ensures n in names
          {
            AtOneKey(j, key, path);
            assert At(j, [key] + path) == Some(Leaf(v));
          }
          RefersOnlyToExactly(j.fields[key], names);
        }
      }
    }
  }

  /** The variables are the values that stand directly in the section. */
  lemma SectionExactly(j: Json, name: string, v: Value)
    requires SectionOk(j)
    ensures name in SectionOf(j) && SectionOf(j)[name] == v <==> At(j, ["variables", name]) == Some(Leaf(v))
  {
    var path := ["variables", name];
    assert path[1..] == [name] && [name][1..] == [];
    if HasSection(j) {
      assert At(j, path) == At(j.fields[VARIABLES], [name]);
      if j.fields[VARIABLES].Obj? && name in j.fields[VARIABLES].fields {
        assert At(j.fields[VARIABLES], [name]) == At(j.fields[VARIABLES].fields[name], []);
      }
    }
  }

  lemma AcceptableByWalks(j: Json)
    requires SectionOk(j)
    ensures Acceptable(j) <==> WalkAccepts(j)
  {
    hide KeysPlain, NoReferenceInKeys, RefersOnlyTo, OnlyReferencesTo, HasCycle;
    KeysPlainExactly(j);
    RefersOnlyToExactly(j, SectionOf(j).Keys);
  }

  // ----- acceptance -----

  lemma {:induction false} ElementKeepsOthers(v: Value, vars: Section, order: seq<string>, n: string)
    requires n !in order && forall name <- order :: name in vars
    requires HasRefTo(TextOf(v), n)
    ensures HasRefTo(TextOf(ResolveElement(v, vars, order)), n)
    decreases |order|
  {
    if order != [] {
      ResolveSingleRefs(v, order[0], vars[order[0]], n);
      ElementKeepsOthers(ResolveSingle(v, order[0], vars[order[0]]), vars, order[1..], n);
    }
  }

  ghost predicate NoRefsAtAll(vars: Section) {
    forall v, n :: v in vars ==> !HasRefTo(TextOf(vars[v]), n)
  }

  lemma {:induction false} ElementLosesAll(v: Value, vars: Section, order: seq<string>, names: set<string>)
    requires Enumerates(order, names) && names <= vars.Keys && NoRefsAtAll(vars)
    requires forall n :: HasRefTo(TextOf(v), n) ==> n in names
    ensures forall n :: !HasRefTo(TextOf(ResolveElement(v, vars, order)), n)
    decreases |order|
  {
    if order == [] {
      assert forall n :: n in names ==> n in order;
    } else {
      var k := order[0];
      var v' := ResolveSingle(v, k, vars[k]);
      forall n
        ensures HasRefTo(TextOf(v'), n) <==> n != k && HasRefTo(TextOf(v), n)
      {
        ResolveSingleRefs(v, k, vars[k], n);
      }
      TailEnumerates(order, names);
      ElementLosesAll(v', vars, order[1..], names - {k});
    }
  }

  lemma RefAtSomePlace(t: Text)
    ensures HasRef(t) <==> exists n :: HasRefTo(t, n)
  {
    if HasRef(t) {
      var i :| 0 <= i < |t| && t[i].Ref?;
      assert HasRefTo(t, t[i].name);
    }
  }

  lemma {:induction false} TreeResolved(j: Json, vars: Section, order: seq<string>)
    requires Enumerates(order, vars.Keys) && NoRefsAtAll(vars) && RefersOnlyTo(j, vars.Keys)
    ensures FullyResolved(ResolveTree(j, vars, order))
    decreases j
  {
    match j
    case Null =>
    case Leaf(v) =>
      ElementLosesAll(v, vars, order, vars.Keys);
      RefAtSomePlace(TextOf(ResolveElement(v, vars, order)));
    case Obj(fields) =>
      forall key | key in fields
        ensures FullyResolved(ResolveTree(fields[key], vars, order))
      {
        TreeResolved(fields[key], vars, order);
      }
  }

  lemma {:induction false} TreeWasClosed(j: Json, vars: Section, order: seq<string>)
    requires Enumerates(order, vars.Keys) && FullyResolved(ResolveTree(j, vars, order))
    ensures RefersOnlyTo(j, vars.Keys)
    decreases j
  {
    match j
    case Null =>
    case Leaf(v) =>
      var v' := ResolveElement(v, vars, order);
      RefAtSomePlace(TextOf(v'));
      forall n | HasRefTo(TextOf(v), n)
        ensures n in vars.Keys
      {
        if n !in order {
          ElementKeepsOthers(v, vars, order, n);
          ScalarHasNoRef(v', n);
        }
      }
    case Obj(fields) =>
      forall key | key in fields
        ensures RefersOnlyTo(fields[key], vars.Keys)
      {
        var tree := ResolveTree(j, vars, order);
        assert FullyResolved(tree.fields[key]);
        TreeWasClosed(fields[key], vars, order);
      }
  }

  lemma ScalarHasNoRef(v: Value, n: string)
    ensures HasRefTo(TextOf(v), n) ==> v.Str?
  {
  }

  lemma ClosedIsFullyResolved(j: Json)
    ensures RefersOnlyTo(j, {}) <==> FullyResolved(j)
    decreases j
  {
    match j
    case Null =>
    case Leaf(v) => RefAtSomePlace(TextOf(v));
    case Obj(fields) =>
      forall key | key in fields
        ensures RefersOnlyTo(fields[key], {}) <==> FullyResolved(fields[key])
      {
        ClosedIsFullyResolved(fields[key]);
      }
  }

  /** A closed, acyclic section resolves to one without references. */
  lemma {:induction false} SectionLosesAll(vars: Section, order: seq<string>)
    requires Enumerates(order, vars.Keys) && EliminateAll(vars, order).Ok?
    requires forall v, n :: v in vars && HasRefTo(TextOf(vars[v]), n) ==> n in vars
    ensures NoRefsAtAll(EliminateAll(vars, order).value)
  {
    hide EliminateAll, Eliminate;
    NoRefsLeft(vars, order, vars.Keys, {});
    forall v, n | v in vars
      ensures !HasRefTo(TextOf(EliminateAll(vars, order).value[v]), n)
    {
      if n !in vars {
        OtherRefsStay(vars, order, n);
      }
    }
  }

  /** What the section says about its variables, field by field. */
  lemma SectionFields(j: Json, names: set<string>)
    requires SectionOk(j) && HasSection(j) && j.fields[VARIABLES].Obj?
    ensures var vars := SectionOf(j);
            RefersOnlyTo(j.fields[VARIABLES], names) <==>
              forall v, n :: v in vars && HasRefTo(TextOf(vars[v]), n) ==> n in names
  {
    VariablesAreFields(SectionOf(j), names);
    assert j.fields[VARIABLES].fields == AsJson(SectionOf(j)).fields;
  }

  lemma VariablesAreFields(vars: Section, names: set<string>)
    ensures RefersOnlyTo(AsJson(vars), names) <==>
              forall v, n :: v in vars && HasRefTo(TextOf(vars[v]), n) ==> n in names
  {
    var fields := AsJson(vars).fields;
    assert forall v :: v in vars ==> fields[v] == Leaf(vars[v]);
    if RefersOnlyTo(AsJson(vars), names) {
      assert forall v :: v in vars ==> RefersOnlyTo(fields[v], names);
    }
  }

  lemma NothingHasNoCycle(vars: Section)
    ensures !HasCycle(vars, {})
  {
    CircularIffCycle(vars, [], {});
  }

  lemma AcceptableIsUpdated(j: Json, order: seq<string>)
    requires SectionOk(j) && Enumerates(order, SectionOf(j).Keys) && WalkAccepts(j)
    ensures Verify(j, order) == Updated
  {
    hide Occurs, EliminateAll, HasCycle;
    var vars := SectionOf(j);
    if HasSection(j) {
      assert RefersOnlyTo(j.fields[VARIABLES], vars.Keys);
      SectionFields(j, vars.Keys);
      CircularIffCycle(vars, order, vars.Keys);
      SectionLosesAll(vars, order);
      var resolved := EliminateAll(vars, order).value;
      VariablesAreFields(resolved, vars.Keys);
      TreeResolved(Obj(j.fields[VARIABLES := AsJson(resolved)]), resolved, order);
    } else {
      assert vars.Keys == {};
      ClosedIsFullyResolved(j);
    }
  }

  lemma {:induction false} UpdatedIsAcceptable(j: Json, order: seq<string>)
    requires SectionOk(j) && Enumerates(order, SectionOf(j).Keys) && Verify(j, order) == Updated
    ensures WalkAccepts(j)
  {
    hide Occurs, EliminateAll;
    var vars := SectionOf(j);
    if HasSection(j) {
      CircularIffCycle(vars, order, vars.Keys);
      SectionWasClosed(j, order);
    } else {
      assert vars.Keys == {};
      NothingHasNoCycle(vars);
      ClosedIsFullyResolved(j);
    }
  }

  lemma SectionWasClosed(j: Json, order: seq<string>)
    requires SectionOk(j) && HasSection(j) && Enumerates(order, SectionOf(j).Keys) && Verify(j, order) == Updated
    ensures RefersOnlyTo(j, SectionOf(j).Keys)
  {
    hide Occurs, EliminateAll, KeysPlain, FullyResolved;
    var vars := SectionOf(j);
    var resolved := EliminateAll(vars, order).value;
    var j' := Obj(j.fields[VARIABLES := AsJson(resolved)]);
    TreeWasClosed(j', resolved, order);
    assert RefersOnlyTo(j'.fields[VARIABLES], vars.Keys);
    VariablesAreFields(resolved, vars.Keys);
    forall v, n | v in vars && HasRefTo(TextOf(vars[v]), n)
      ensures n in vars.Keys
    {
      if n !in order {
        OtherRefsStay(vars, order, n);
      }
    }
    SectionFields(j, vars.Keys);
    assert forall key :: key in j.fields && key != VARIABLES ==> j'.fields[key] == j.fields[key];
    assert forall key :: key in j.fields ==> RefersOnlyTo(j'.fields[key], vars.Keys);
  }

  /** A document passes the checks exactly if it is acceptable, whatever the key order. */
  lemma AcceptedExactly(j: Json, order: seq<string>)
    requires SectionOk(j) && Enumerates(order, SectionOf(j).Keys)
    ensures Verify(j, order) == Updated <==> Acceptable(j)
  {
    hide Verify, Acceptable, WalkAccepts;
    AcceptableByWalks(j);
    if Acceptable(j) {
      AcceptableIsUpdated(j, order);
    }
    if Verify(j, order) == Updated {
      UpdatedIsAcceptable(j, order);
    }
  }

  /** Why a document is refused, whatever the key order. */
  lemma {:induction false} RefusedExactly(j: Json, order: seq<string>)
    requires SectionOk(j) && Enumerates(order, SectionOf(j).Keys)
    ensures Verify(j, order) ==
            if !NoReferenceInKeys(j) then VariableUsedInKey
            else if j.Obj? && "variables" in j.fields && !j.fields["variables"].Obj? then JsonException
            else if HasCycle(SectionOf(j), SectionOf(j).Keys) then CircularDependency
            else if !OnlyReferencesTo(j, SectionOf(j).Keys) then UndefinedVariable
            else Updated
  {
    hide KeysPlain, HasCycle, EliminateAll, ResolveTree, FullyResolved, NoReferenceInKeys, OnlyReferencesTo;
    AcceptedExactly(j, order);
    KeysPlainExactly(j);
    CircularIffCycle(SectionOf(j), order, SectionOf(j).Keys);
    if !HasSection(j) {
      NothingHasNoCycle(SectionOf(j));
      assert SectionOf(j).Keys == {};
    }
  }

  /** `json` is the document `j` with its variables section resolved and every other element
      become what it means, and nothing else changed. */
  ghost predicate ResolvedExactly(j: Json, json: Json, order: seq<string>)
    requires SectionOk(j) && Enumerates(order, SectionOf(j).Keys)
  {
    if !HasSection(j) then json == j
    else
      EliminateAll(SectionOf(j), order).Ok? &&
      var vars := EliminateAll(SectionOf(j), order).value;
      && json.Obj? && json.fields.Keys == j.fields.Keys && json.fields[VARIABLES] == AsJson(vars)
      && forall key :: key in j.fields && key != VARIABLES ==>
           SameMeaning(j.fields[key], json.fields[key], vars, order)
  }

  lemma ResolvedMeans(j: Json, order: seq<string>)
    requires SectionOk(j) && Enumerates(order, SectionOf(j).Keys) && ResolveVariables(j, order).Resolved?
    ensures ResolvedExactly(j, ResolveVariables(j, order).json, order)
  {
    hide EliminateAll, Occurs, SameMeaning, FreeOf, ResolveElement;
    if HasSection(j) {
      var vars := EliminateAll(SectionOf(j), order).value;
      ResolvedIsFree(SectionOf(j), order);
      SectionStays(vars, order);
      forall key | key in j.fields && key != VARIABLES
        ensures SameMeaning(j.fields[key], ResolveTree(j.fields[key], vars, order), vars, order)
      {
        TreeMeans(j.fields[key], vars, order);
      }
    }
  }

  /** The walk over all elements finds nothing to do in the resolved section. */
  lemma SectionStays(vars: Section, order: seq<string>)
    requires Enumerates(order, vars.Keys) && FreeOf(vars, vars.Keys)
    ensures ResolveTree(AsJson(vars), vars, order) == AsJson(vars)
  {
    hide FreeOf;
    var tree := ResolveTree(AsJson(vars), vars, order);
    WholeOrder(vars, order);
    forall v | v in vars
      ensures tree.fields[v] == Leaf(vars[v])
    {
      RestUntouched(v, vars, order);
      assert tree.fields[v] == ResolveTree(Leaf(vars[v]), vars, order);
    }
    assert tree.fields == AsJson(vars).fields;
  }

  /** The promise about types holds for a resolved document: in the section, aliases of numbers and
      truth values and nothing else are resolved to them, and elsewhere a string becomes one exactly
      if it is nothing but the reference to one. */
  ghost predicate TypesAsPromised(j: Json, json: Json, order: seq<string>)
    requires SectionOk(j) && HasSection(j) && Enumerates(order, SectionOf(j).Keys)
  {
    EliminateAll(SectionOf(j), order).Ok? &&
    var vars := EliminateAll(SectionOf(j), order).value;
    && TypesRight(SectionOf(j), vars)
    && json.Obj? && forall key :: key in j.fields && key in json.fields && key != VARIABLES ==>
         TreeRuleHolds(j.fields[key], json.fields[key], vars)
  }

  /** Which is so, in the order in which the keys are visited, exactly if neither a variable nor any
      other element collapses. */
  lemma {:induction false} TypesAsPromisedExactly(j: Json, order: seq<string>)
    requires SectionOk(j) && HasSection(j) && Enumerates(order, SectionOf(j).Keys)
    requires ResolveVariables(j, order).Resolved?
    ensures EliminateAll(SectionOf(j), order).Ok?
    ensures TypesAsPromised(j, ResolveVariables(j, order).json, order) <==>
            && !Collapses(SectionOf(j), order)
            && forall key :: key in j.fields && key != VARIABLES ==>
                 !TreeCollapses(j.fields[key], EliminateAll(SectionOf(j), order).value, order)
  {
    hide EliminateAll, TreeRuleHolds, TreeCollapses, FreeOf, TypesRight, Collapses, ResolveElement;
    var vars := EliminateAll(SectionOf(j), order).value;
    TypesRightIffNoCollapse(SectionOf(j), order);
    ResolvedIsFree(SectionOf(j), order);
    forall key | key in j.fields && key != VARIABLES
      ensures TreeRuleHolds(j.fields[key], ResolveTree(j.fields[key], vars, order), vars) <==>
              !TreeCollapses(j.fields[key], vars, order)
    {
      TreeRuleExactly(j.fields[key], vars, order);
    }
  }

  /** Resolving an acceptable document succeeds, leaves no reference, and expands every text
      with the one solution of the section's definitions; every value, type included, is the one
      that ResolvedExactly says. */
  lemma ResolvedIsExpanded(j: Json, order: seq<string>, known: map<string, Text>)
    requires SectionOk(j) && Enumerates(order, SectionOf(j).Keys) && Acceptable(j)
    requires known.Keys == SectionOf(j).Keys && Solves(SectionOf(j), known)
    ensures ResolveVariables(j, order).Resolved?
    ensures NoReferenceInValues(ResolveVariables(j, order).json)
    ensures SameExpanded(j, ResolveVariables(j, order).json, known)
    ensures ResolvedExactly(j, ResolveVariables(j, order).json, order)
  {
    hide Occurs, EliminateAll, KeysPlain, HasCycle, Solves, RefersOnlyTo, FullyResolved, ResolvedExactly;
    AcceptableResolves(j, order);
    ResolvedMeans(j, order);
    var vars := SectionOf(j);
    if HasSection(j) {
      CircularIffCycle(vars, order, vars.Keys);
      TextsAreExpansions(vars, order, known);
      var resolved := EliminateAll(vars, order).value;
      ResolvedIsFree(vars, order);
      FieldsAreExpanded(j, order, known, resolved);
    } else {
      assert known == map[];
      NothingToExpand(j);
    }
  }

  lemma FieldsAreExpanded(j: Json, order: seq<string>, known: map<string, Text>, resolved: Section)
    requires SectionOk(j) && HasSection(j) && j.fields[VARIABLES].Obj? && resolved.Keys == SectionOf(j).Keys
    requires Enumerates(order, resolved.Keys) && FreeOf(resolved, resolved.Keys)
    requires known == TextsOf(resolved) && Solves(SectionOf(j), known)
    ensures SameExpanded(j, ResolveTree(Obj(j.fields[VARIABLES := AsJson(resolved)]), resolved, order), known)
  {
    var tree := ResolveTree(Obj(j.fields[VARIABLES := AsJson(resolved)]), resolved, order);
    forall key | key in j.fields
      ensures SameExpanded(j.fields[key], tree.fields[key], known)
    {
      if key != VARIABLES {
        TreeIsExpanded(j.fields[key], resolved, order);
      } else {
        SectionIsExpanded(j, order, known, resolved);
      }
    }
  }

  lemma SectionIsExpanded(j: Json, order: seq<string>, known: map<string, Text>, resolved: Section)
    requires SectionOk(j) && HasSection(j) && j.fields[VARIABLES].Obj? && resolved.Keys == SectionOf(j).Keys
    requires Enumerates(order, resolved.Keys) && FreeOf(resolved, resolved.Keys)
    requires known == TextsOf(resolved) && Solves(SectionOf(j), known)
    ensures SameExpanded(j.fields[VARIABLES], ResolveTree(AsJson(resolved), resolved, order), known)
  {
    hide FreeOf, ResolveElement, Expand;
    SectionStays(resolved, order);
    var section, vars := j.fields[VARIABLES], SectionOf(j);
    forall v | v in section.fields
      ensures SameExpanded(section.fields[v], AsJson(resolved).fields[v], known)
    {
      assert section.fields[v] == Leaf(vars[v]) && known[v] == TextOf(resolved[v]);
    }
  }

  lemma {:induction false} NothingToExpand(j: Json)
    ensures SameExpanded(j, j, map[])
    decreases j
  {
    match j
    case Null =>
    case Leaf(v) => ExpandAbsent(TextOf(v), map[]);
    case Obj(fields) =>
      forall key | key in fields
        ensures SameExpanded(fields[key], fields[key], map[])
      {
        NothingToExpand(fields[key]);
      }
  }

  // ----- the object -----

  class Configuration {
    const variables_supported_: bool
    const mutable_cmdline_: bool
    var json_: Json
    var immutable_json_: Json

    /** The document is an object without nulls, has absorbed the immutable part, and can be
        resolved. */
    ghost predicate Valid()
      reads this
    {
      && NullFree(json_) && Updates.Absorbed(View(), mutable_cmdline_)
      && SectionOk(json_) && (variables_supported_ ==> Acceptable(json_))
    }

    ghost function View(): Updates.Document
      reads this
    {
      Updates.Document(json_, immutable_json_)
    }

    constructor (disableVariables: bool, mutableCmdLine: bool)
      ensures Valid() && json_ == Obj(map[]) && immutable_json_ == Obj(map[])
      ensures variables_supported_ == !disableVariables && mutable_cmdline_ == mutableCmdLine
    {
      variables_supported_ := !disableVariables;
      mutable_cmdline_ := mutableCmdLine;
      json_ := Obj(map[]);
      immutable_json_ := Obj(map[]);
      new;
      Updates.MergeNothing(json_);
    }

    ghost function Merged(update: Json, immutable: Json): Json
      reads this
    {
      MergePatch(MergePatch(json_, update), immutable)
    }

    /** Checks and stores the merged document; a refused one leaves no trace. */
    method VerifyAndMerge(update: Json, immutable: Json, order: seq<string>) returns (outcome: Outcome)
      requires Valid() && immutable.Obj?
      requires SectionOk(Merged(update, immutable)) && Enumerates(order, SectionOf(Merged(update, immutable)).Keys)
      modifies this`json_
      ensures outcome == if variables_supported_ then Verify(old(Merged(update, immutable)), order) else Updated
      ensures outcome == Updated <==> !variables_supported_ || Acceptable(old(Merged(update, immutable)))
      ensures json_ == if outcome == Updated then old(Merged(update, immutable)) else old(json_)
      ensures outcome == Updated ==>
                json_.Obj? && NullFree(json_) && MergePatch(json_, immutable) == json_ &&
                SectionOk(json_) && (variables_supported_ ==> Acceptable(json_))
    {
      hide Acceptable, SectionOk, Verify;
      var newJson := MergePatch(json_, update);
      MergedIsNullFree(json_, update, immutable);
      MergeIsIdempotent(newJson, immutable);
      newJson := MergePatch(newJson, immutable);
      if variables_supported_ {
        AcceptedExactly(newJson, order);
        var result := Verify(newJson, order);
        if result != Updated {
          return result;
        }
      }
      json_ := newJson;
      return Updated;
    }

    static lemma MergedIsNullFree(target: Json, update: Json, immutable: Json)
      requires NullFree(target) && immutable.Obj?
      ensures NullFree(MergePatch(MergePatch(target, update), immutable))
    {
      if !update.Null? {
        MergeIsNullFree(target, update);
      }
      MergeIsNullFree(MergePatch(target, update), immutable);
    }

    /** `parsed` is what the parser made of the string; None is a parse error. */
    method UpdateFromString(parsed: Option<Json>, order: seq<string>) returns (outcome: Outcome)
      requires Valid()
      requires parsed.Some? ==> SectionOk(Merged(parsed.value, immutable_json_)) &&
                                Enumerates(order, SectionOf(Merged(parsed.value, immutable_json_)).Keys)
      modifies this
      ensures Valid() && immutable_json_ == old(immutable_json_)
      ensures outcome == ParsingFailed <==> parsed.None?
      ensures outcome == Updated <==>
                parsed.Some? && (!variables_supported_ || Acceptable(old(Merged(parsed.value, immutable_json_))))
      ensures json_ == if outcome == Updated then old(Merged(parsed.value, immutable_json_)) else old(json_)
      ensures parsed.Some? ==>
                var update := Updates.Update(parsed.value, None, outcome == Updated);
                View() == Updates.Apply(old(View()), mutable_cmdline_, update)
    {
      hide Acceptable, SectionOk;
      if parsed.None? {
        return ParsingFailed;
      }
      outcome := VerifyAndMerge(parsed.value, immutable_json_, order);
    }

    /** `files` and `direct` are the parser's two documents; direct is an object. What it says
        can no longer be changed, except by another command line, unless that was asked for. */
    method UpdateFromCommandLine(files: Json, direct: Json, order: seq<string>) returns (outcome: Outcome)
      requires Valid() && direct.Obj?
      requires SectionOk(Merged(files, direct)) && Enumerates(order, SectionOf(Merged(files, direct)).Keys)
      modifies this
      ensures Valid()
      ensures outcome == Updated <==> !variables_supported_ || Acceptable(old(Merged(files, direct)))
      ensures json_ == if outcome == Updated then old(Merged(files, direct)) else old(json_)
      ensures immutable_json_ == if outcome == Updated && !mutable_cmdline_ then direct else old(immutable_json_)
      ensures var update := Updates.Update(files, Some(direct), outcome == Updated);
              View() == Updates.Apply(old(View()), mutable_cmdline_, update)
    {
      hide Acceptable, SectionOk;
      outcome := VerifyAndMerge(files, direct, order);
      Updates.MergeNothing(json_);
      if outcome == Updated && !mutable_cmdline_ {
        immutable_json_ := direct;
      }
    }

    /** The document before it is written out as text; None if resolving is not supported. */
    method Dump(resolveVariables: bool, order: seq<string>) returns (r: Option<Json>)
      requires Valid() && Enumerates(order, SectionOf(json_).Keys)
      ensures r.None? <==> resolveVariables && !variables_supported_
      ensures !resolveVariables ==> r == Some(json_)
      ensures resolveVariables && r.Some? ==>
                NoReferenceInValues(r.value) && ResolvedExactly(json_, r.value, order) &&
                forall known: map<string, Text> ::
                  known.Keys == SectionOf(json_).Keys && Solves(SectionOf(json_), known) ==>
                    SameExpanded(json_, r.value, known)
    {
      if !resolveVariables {
        return Some(json_);
      }
      if !variables_supported_ {
        return None;
      }
      hide Acceptable, FullyResolved, SameExpanded, Solves, SectionOk, ResolveVariables, ResolvedExactly;
      AcceptableResolves(json_, order);
      ResolvedMeans(json_, order);
      forall known: map<string, Text> | known.Keys == SectionOf(json_).Keys && Solves(SectionOf(json_), known)
        ensures SameExpanded(json_, ResolveVariables(json_, order).json, known)
      {
        ResolvedIsExpanded(json_, order, known);
      }
      return Some(ResolveVariables(json_, order).json);
    }
  }

  lemma AcceptableResolves(j: Json, order: seq<string>)
    requires SectionOk(j) && Enumerates(order, SectionOf(j).Keys) && Acceptable(j)
    ensures ResolveVariables(j, order).Resolved?
    ensures FullyResolved(ResolveVariables(j, order).json) && NoReferenceInValues(ResolveVariables(j, order).json)
  {
    hide Acceptable, FullyResolved, SectionOk, ResolveVariables, NoReferenceInValues;
    AcceptedExactly(j, order);
    VerifiedResolves(j, order);
    FullyResolvedExactly(ResolveVariables(j, order).json);
  }

  lemma VerifiedResolves(j: Json, order: seq<string>)
    requires SectionOk(j) && Enumerates(order, SectionOf(j).Keys) && Verify(j, order) == Updated
    ensures ResolveVariables(j, order).Resolved? && FullyResolved(ResolveVariables(j, order).json)
  {
    hide KeysPlain, EliminateAll, ResolveTree, FullyResolved;
  }
}
