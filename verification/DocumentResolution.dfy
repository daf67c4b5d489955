/** Replacing the references in a document by the values of resolved variables: what becomes of
    every element, its type included. */
module DocumentResolution {
  import opened Common
  import opened VariableText
  import opened Variables
  import opened VariableExpansion
  import opened VariableTypes
  import opened Json

  /** What WalkAllElements does to one element when resolving. */
  function ResolveElement(v: Value, vars: Section, order: seq<string>): Value
    requires forall name <- order :: name in vars
    decreases order
  {
    if order == [] then v
    else ResolveElement(ResolveSingle(v, order[0], vars[order[0]]), vars, order[1..])
  }

  function ResolveTree(j: Json, vars: Section, order: seq<string>): Json
    requires forall name <- order :: name in vars
    decreases j
  {
    match j
    case Null => Null
    case Leaf(v) => Leaf(ResolveElement(v, vars, order))
    case Obj(fields) => Obj(map key | key in fields :: ResolveTree(fields[key], vars, order))
  }

  // ----- texts -----

  /** The resolved texts of some of the variables. */
  function Known(vars: Section, names: set<string>): map<string, Text>
    requires names <= vars.Keys
  {
    map n | n in names :: TextOf(vars[n])
  }

  lemma {:induction false} SubstThenExpand(t: Text, k: string, insert: Text,
                                           rest: map<string, Text>, known: map<string, Text>)
    requires k !in rest && known == rest[k := insert]
    requires forall n :: n in rest ==> !HasRefTo(insert, n)
    ensures Expand(Subst(t, k, insert), rest) == Expand(t, known)
  {
    if t != [] {
      SubstThenExpand(t[1..], k, insert, rest, known);
      var head := if t[0] == Ref(k) then insert else [t[0]];
      ExpandConcat(head, Subst(t[1..], k, insert), rest);
      if t[0] == Ref(k) {
        ExpandAbsent(insert, rest);
      } else {
        assert [t[0]][1..] == [];
        assert Expand([t[0]], rest) == (if t[0].Ref? && t[0].name in rest then rest[t[0].name] else [t[0]]) + [];
      }
    }
  }

  /** An element's text after resolving is its expansion. */
  lemma {:induction false} ElementIsExpanded(v: Value, vars: Section, order: seq<string>, names: set<string>)
    requires Enumerates(order, names) && names <= vars.Keys && FreeOf(vars, names)
    ensures TextOf(ResolveElement(v, vars, order)) == Expand(TextOf(v), Known(vars, names))
    decreases |order|
  {
    if order == [] {
      assert forall n :: n in names ==> n in order;
      ExpandAbsent(TextOf(v), Known(vars, names));
    } else {
      var k := order[0];
      TailEnumerates(order, names);
      assert FreeOf(vars, names - {k});
      ElementIsExpanded(ResolveSingle(v, k, vars[k]), vars, order[1..], names - {k});
      ResolveSingleText(v, k, vars[k]);
      assert Known(vars, names) == Known(vars, names - {k})[k := TextOf(vars[k])];
      SubstThenExpand(TextOf(v), k, TextOf(vars[k]), Known(vars, names - {k}), Known(vars, names));
    }
  }

  /** `resolved` is `j` with every text expanded; types aside, nothing else differs. */
  ghost predicate SameExpanded(j: Json, resolved: Json, known: map<string, Text>) {
    match j
    case Null => resolved.Null?
    case Leaf(v) => resolved.Leaf? && TextOf(resolved.value) == Expand(TextOf(v), known)
    case Obj(fields) =>
      resolved.Obj? && resolved.fields.Keys == fields.Keys &&
      forall key :: key in fields ==> SameExpanded(fields[key], resolved.fields[key], known)
  }

  lemma {:induction false} TreeIsExpanded(j: Json, vars: Section, order: seq<string>)
    requires Enumerates(order, vars.Keys) && FreeOf(vars, vars.Keys)
    ensures SameExpanded(j, ResolveTree(j, vars, order), TextsOf(vars))
    decreases j
  {
    match j
    case Null =>
    case Leaf(v) =>
      ElementIsExpanded(v, vars, order, vars.Keys);
      assert Known(vars, vars.Keys) == TextsOf(vars);
    case Obj(fields) =>
      forall key | key in fields
        ensures SameExpanded(fields[key], ResolveTree(fields[key], vars, order), TextsOf(vars))
      {
        TreeIsExpanded(fields[key], vars, order);
      }
  }

  /** A string that is one bare reference takes over the variable's value, type included. */
  lemma {:induction false} BareReferenceTakesValue(name: string, vars: Section, order: seq<string>)
    requires Enumerates(order, vars.Keys) && FreeOf(vars, vars.Keys) && name in vars
    ensures ResolveElement(Str([Ref(name)]), vars, order) == vars[name]
  {
    FirstMatch(name, vars, order, vars.Keys);
  }

  lemma {:induction false} FirstMatch(name: string, vars: Section, order: seq<string>, names: set<string>)
    requires Enumerates(order, names) && names <= vars.Keys && FreeOf(vars, vars.Keys) && name in names
    ensures ResolveElement(Str([Ref(name)]), vars, order) == vars[name]
    decreases |order|
  {
    assert name in order;
    TailEnumerates(order, names);
    if order[0] == name {
      Untouched(vars[name], vars, order[1..]);
    } else {
      SubstAbsent([Ref(name)], order[0], TextOf(vars[order[0]]));
      FirstMatch(name, vars, order[1..], names - {order[0]});
    }
  }

  lemma {:induction false} Untouched(v: Value, vars: Section, order: seq<string>)
    requires forall n <- order :: n in vars && !HasRefTo(TextOf(v), n)
    ensures ResolveElement(v, vars, order) == v
    decreases |order|
  {
    if order != [] {
      if v.Str? {
        SubstAbsent(v.text, order[0], TextOf(vars[order[0]]));
        assert HasRefTo([Ref(order[0])], order[0]);
      }
      Untouched(v, vars, order[1..]);
    }
  }

  // ----- values -----

  /** When the turn of the variable at position `i` comes, the text is the bare reference to it. */
  ghost predicate BareAt(t: Text, vars: Section, order: seq<string>, i: nat)
    requires forall name <- order :: name in vars
  {
    i < |order| && Expand(t, KnownFirst(vars, order, i)) == [Ref(order[i])]
  }

  function KnownFirst(vars: Section, order: seq<string>, i: nat): map<string, Text>
    requires i <= |order|
  {
    map n | n in order[..i] && n in vars :: TextOf(vars[n])
  }

  /** A string takes over the value of the variable to which it is the bare reference at that
      variable's turn, and if there is none it stays a string, with all references expanded. */
  ghost predicate Means(v: Value, resolved: Value, vars: Section, order: seq<string>)
    requires forall name <- order :: name in vars
  {
    if v.Scalar? then resolved == v
    else
      && (forall i: nat :: BareAt(v.text, vars, order, i) ==> resolved == vars[order[i]])
      && ((forall i: nat :: !BareAt(v.text, vars, order, i)) ==> resolved == Str(Expand(v.text, TextsOf(vars))))
  }

  /** The text after the first turn comes to the same at all later ones. */
  lemma LaterTurns(t: Text, vars: Section, order: seq<string>, i: nat)
    requires Enumerates(order, NamesIn(order)) && NamesIn(order) <= vars.Keys && FreeOf(vars, vars.Keys)
    requires 0 < i <= |order|
    ensures Expand(Subst(t, order[0], TextOf(vars[order[0]])), KnownFirst(vars, order[1..], i - 1)) ==
            Expand(t, KnownFirst(vars, order, i))
  {
    var k := order[0];
    var rest, known := KnownFirst(vars, order[1..], i - 1), KnownFirst(vars, order, i);
    assert order[..i] == [k] + order[1..][..i - 1];
    var head := order[1..][..i - 1];
    assert forall j :: 0 <= j < |head| ==> head[j] in order[1..];
    TailOfOrder(vars, order);
    assert k !in head;
    assert known == rest[k := TextOf(vars[k])];
    SubstThenExpand(t, k, TextOf(vars[k]), rest, known);
  }

  lemma ExpandWithNothing(t: Text)
    ensures Expand(t, map[]) == t
  {
    ExpandAbsent(t, map[]);
  }

  lemma TailOfOrder(vars: Section, order: seq<string>)
    requires Enumerates(order, NamesIn(order)) && NamesIn(order) <= vars.Keys && order != []
    ensures Enumerates(order[1..], NamesIn(order[1..])) && NamesIn(order[1..]) <= vars.Keys
    ensures order[0] in vars && order[0] !in order[1..]
  {
    assert order[0] in order && forall j :: 0 <= j < |order| - 1 ==> order[1..][j] == order[j + 1];
    assert forall j :: 0 < j < |order| ==> order[j] in order;
  }

  lemma {:induction false} BareElement(t: Text, vars: Section, order: seq<string>, i: nat)
    requires Enumerates(order, NamesIn(order)) && NamesIn(order) <= vars.Keys && FreeOf(vars, vars.Keys)
    requires BareAt(t, vars, order, i)
    ensures ResolveElement(Str(t), vars, order) == vars[order[i]]
    decreases |order|
  {
    hide FreeOf;
    var k := order[0];
    TailOfOrder(vars, order);
    if i == 0 {
      assert KnownFirst(vars, order, 0) == map[];
      ExpandWithNothing(t);
      RestUntouched(k, vars, order[1..]);
    } else {
      LaterTurns(t, vars, order, i);
      if t == [Ref(k)] {
        NotBareLater(t, vars, order, i);
      }
      BareElement(Subst(t, k, TextOf(vars[k])), vars, order[1..], i - 1);
    }
  }

  lemma RestUntouched(n: string, vars: Section, order: seq<string>)
    requires NamesIn(order) <= vars.Keys && FreeOf(vars, vars.Keys) && n in vars
    ensures ResolveElement(vars[n], vars, order) == vars[n]
  {
    assert forall name <- order :: name in NamesIn(order);
    Untouched(vars[n], vars, order);
  }

  /** A bare reference does not become another one. */
  lemma NotBareLater(t: Text, vars: Section, order: seq<string>, i: nat)
    requires Enumerates(order, NamesIn(order)) && NamesIn(order) <= vars.Keys && FreeOf(vars, vars.Keys)
    requires 0 < i < |order| && t == [Ref(order[0])]
    ensures !BareAt(t, vars, order, i)
  {
    var known := KnownFirst(vars, order, i);
    assert order[..i][0] == order[0] && order[0] in known;
    assert t[1..] == [] && Expand(t, known) == known[order[0]] + [];
    assert order[i] in order;
    assert [Ref(order[i])][0] == Ref(order[i]);
  }

  lemma {:induction false} NoBareElement(t: Text, vars: Section, order: seq<string>)
    requires Enumerates(order, NamesIn(order)) && NamesIn(order) <= vars.Keys && FreeOf(vars, vars.Keys)
    requires forall i: nat :: !BareAt(t, vars, order, i)
    ensures ResolveElement(Str(t), vars, order) == Str(Expand(t, KnownFirst(vars, order, |order|)))
    decreases |order|
  {
    hide FreeOf;
    if order == [] {
      assert KnownFirst(vars, order, 0) == map[];
      ExpandWithNothing(t);
    } else {
      var k := order[0];
      TailOfOrder(vars, order);
      assert !BareAt(t, vars, order, 0);
      assert KnownFirst(vars, order, 0) == map[];
      ExpandWithNothing(t);
      var t' := Subst(t, k, TextOf(vars[k]));
      forall i: nat
        ensures !BareAt(t', vars, order[1..], i)
      {
        if i < |order[1..]| {
          assert !BareAt(t, vars, order, i + 1);
          LaterTurns(t, vars, order, i + 1);
        }
      }
      NoBareElement(t', vars, order[1..]);
      LaterTurns(t, vars, order, |order|);
    }
  }

  lemma ElementMeans(v: Value, vars: Section, order: seq<string>)
    requires Enumerates(order, vars.Keys) && FreeOf(vars, vars.Keys)
    ensures Means(v, ResolveElement(v, vars, order), vars, order)
  {
    hide FreeOf, Expand;
    WholeOrder(vars, order);
    if v.Scalar? {
      ScalarStays(v, vars, order);
    } else {
      forall i: nat | BareAt(v.text, vars, order, i)
        ensures ResolveElement(v, vars, order) == vars[order[i]]
      {
        BareElement(v.text, vars, order, i);
      }
      if forall i: nat :: !BareAt(v.text, vars, order, i) {
        NoBareElement(v.text, vars, order);
      }
    }
  }

  lemma WholeOrder(vars: Section, order: seq<string>)
    requires Enumerates(order, vars.Keys)
    ensures NamesIn(order) == vars.Keys && Enumerates(order, NamesIn(order))
    ensures KnownFirst(vars, order, |order|) == TextsOf(vars)
  {
    assert order[..|order|] == order;
  }

  lemma {:induction false} ScalarStays(v: Value, vars: Section, order: seq<string>)
    requires v.Scalar? && forall name <- order :: name in vars
    ensures ResolveElement(v, vars, order) == v
    decreases |order|
  {
    if order != [] {
      ScalarStays(v, vars, order[1..]);
    }
  }

  /** Every element becomes what it means, and nothing else differs. */
  ghost predicate SameMeaning(j: Json, resolved: Json, vars: Section, order: seq<string>)
    requires forall name <- order :: name in vars
  {
    match j
    case Null => resolved.Null?
    case Leaf(v) => resolved.Leaf? && Means(v, resolved.value, vars, order)
    case Obj(fields) =>
      resolved.Obj? && resolved.fields.Keys == fields.Keys &&
      forall key :: key in fields ==> SameMeaning(fields[key], resolved.fields[key], vars, order)
  }

  lemma {:induction false} TreeMeans(j: Json, vars: Section, order: seq<string>)
    requires Enumerates(order, vars.Keys) && FreeOf(vars, vars.Keys)
    ensures SameMeaning(j, ResolveTree(j, vars, order), vars, order)
    decreases j
  {
    hide FreeOf, Means;
    match j
    case Null =>
    case Leaf(v) => ElementMeans(v, vars, order);
    case Obj(fields) =>
      forall key | key in fields
        ensures SameMeaning(fields[key], ResolveTree(fields[key], vars, order), vars, order)
      {
        TreeMeans(fields[key], vars, order);
      }
  }

  // ----- the promise about types -----

  /** A string becomes a number or truth value exactly if it is nothing but the reference to one. */
  ghost predicate RuleHolds(v: Value, resolved: Value, vars: Section) {
    v.Str? ==> (resolved.Scalar? <==> exists n :: n in vars && vars[n].Scalar? && v == Str([Ref(n)]))
  }

  /** A string that is more than one reference comes down to the reference to a number or truth
      value at the turn of that variable. */
  ghost predicate CollapsesTo(t: Text, vars: Section, order: seq<string>, i: nat)
    requires forall name <- order :: name in vars
  {
    BareAt(t, vars, order, i) && vars[order[i]].Scalar? && t != [Ref(order[i])]
  }

  ghost predicate ElementCollapses(v: Value, vars: Section, order: seq<string>)
    requires forall name <- order :: name in vars
  {
    v.Str? && exists i: nat :: CollapsesTo(v.text, vars, order, i)
  }

  lemma {:induction false} BareFromTheStart(n: string, vars: Section, order: seq<string>, i: nat)
    requires Enumerates(order, vars.Keys) && i < |order|
    ensures order[i] == n ==> BareAt([Ref(n)], vars, order, i)
  {
    if order[i] == n {
      assert forall k :: 0 <= k < i ==> order[..i][k] != n;
      ExpandAbsent([Ref(n)], KnownFirst(vars, order, i));
    }
  }

  /** The promise is kept for an element exactly if it does not collapse. */
  lemma RuleExactly(v: Value, vars: Section, order: seq<string>)
    requires Enumerates(order, vars.Keys) && FreeOf(vars, vars.Keys)
    ensures RuleHolds(v, ResolveElement(v, vars, order), vars) <==> !ElementCollapses(v, vars, order)
  {
    hide FreeOf, ResolveElement, BareAt;
    ElementMeans(v, vars, order);
    if v.Str? {
      if n :| n in vars && v == Str([Ref(n)]) {
        SingleIsRight(n, vars, order);
      } else if i: nat :| BareAt(v.text, vars, order, i) {
        BareIsInOrder(v.text, vars, order, i);
        assert vars[order[i]].Scalar? ==> CollapsesTo(v.text, vars, order, i);
      }
    }
  }

  lemma BareIsInOrder(t: Text, vars: Section, order: seq<string>, i: nat)
    requires Enumerates(order, vars.Keys) && BareAt(t, vars, order, i)
    ensures i < |order| && order[i] in vars
  {
    assert order[i] in order;
  }

  lemma SingleIsRight(n: string, vars: Section, order: seq<string>)
    requires Enumerates(order, vars.Keys) && FreeOf(vars, vars.Keys) && n in vars
    ensures !ElementCollapses(Str([Ref(n)]), vars, order)
    ensures RuleHolds(Str([Ref(n)]), ResolveElement(Str([Ref(n)]), vars, order), vars)
  {
    hide FreeOf, ResolveElement, BareAt;
    var i :| 0 <= i < |order| && order[i] == n;
    BareFromTheStart(n, vars, order, i);
    ElementMeans(Str([Ref(n)]), vars, order);
    forall k: nat
      ensures !CollapsesTo([Ref(n)], vars, order, k)
    {
      if BareAt([Ref(n)], vars, order, k) {
        SingleTurn(n, vars, order, k);
      }
    }
    assert [Ref(n)][0] == Ref(n);
  }

  lemma ExpandSingle(n: string, known: map<string, Text>)
    ensures Expand([Ref(n)], known) == if n in known then known[n] else [Ref(n)]
  {
    assert [Ref(n)][1..] == [];
    assert n in known ==> known[n] + [] == known[n];
  }

  lemma SingleTurn(n: string, vars: Section, order: seq<string>, i: nat)
    requires Enumerates(order, vars.Keys) && FreeOf(vars, vars.Keys) && BareAt([Ref(n)], vars, order, i)
    ensures order[i] == n
  {
    ExpandSingle(n, KnownFirst(vars, order, i));
    assert order[i] in order && Ref(order[i]) in [Ref(order[i])];
    assert n in vars ==> !HasRefTo(TextOf(vars[n]), order[i]);
  }

  ghost predicate TreeRuleHolds(j: Json, resolved: Json, vars: Section) {
    match j
    case Null => true
    case Leaf(v) => resolved.Leaf? ==> RuleHolds(v, resolved.value, vars)
    case Obj(fields) =>
      forall key :: key in fields && resolved.Obj? && key in resolved.fields ==>
        TreeRuleHolds(fields[key], resolved.fields[key], vars)
  }

  ghost predicate TreeCollapses(j: Json, vars: Section, order: seq<string>)
    requires forall name <- order :: name in vars
  {
    match j
    case Null => false
    case Leaf(v) => ElementCollapses(v, vars, order)
    case Obj(fields) => exists key :: key in fields && TreeCollapses(fields[key], vars, order)
  }

  /** And for a document exactly if none of its elements does. */
  lemma {:induction false} TreeRuleExactly(j: Json, vars: Section, order: seq<string>)
    requires Enumerates(order, vars.Keys) && FreeOf(vars, vars.Keys)
    ensures TreeRuleHolds(j, ResolveTree(j, vars, order), vars) <==> !TreeCollapses(j, vars, order)
    decreases j
  {
    hide FreeOf, RuleHolds, ElementCollapses;
    match j
    case Null =>
    case Leaf(v) => RuleExactly(v, vars, order);
    case Obj(fields) =>
      var tree := ResolveTree(j, vars, order);
      forall key | key in fields
        ensures TreeRuleHolds(fields[key], tree.fields[key], vars) <==> !TreeCollapses(fields[key], vars, order)
      {
        TreeRuleExactly(fields[key], vars, order);
      }
  }

  /** With E empty and N five, "${E}${N}" becomes the number if E has its turn first, and stays a
      string if N has. */
  lemma DocumentCollapseExample()
    ensures var vars: Section, v := map["E" := Str([]), "N" := Scalar("5")], Str([Ref("E"), Ref("N")]);
            && ResolveElement(v, vars, ["E", "N"]) == Scalar("5")
            && ResolveElement(v, vars, ["N", "E"]) == Str([Ch('5')])
  {
    var vars: Section := map["E" := Str([]), "N" := Scalar("5")];
    var v, five := Str([Ref("E"), Ref("N")]), [Ch('5')];
    assert Literal("5") == five;
    SubstTwo(Ref("E"), Ref("N"), "E", []);
    assert [] + [Ref("N")] == [Ref("N")];
    SubstTwo(Ref("E"), Ref("N"), "N", five);
    SubstTwo(Ref("E"), Ch('5'), "E", []);
    assert [Ref("E")] + five == [Ref("E"), Ch('5')] && [] + five == five;
    ResolveInTwo(v, vars, "E", "N");
    ResolveInTwo(v, vars, "N", "E");
  }

  lemma ResolveInTwo(v: Value, vars: Section, a: string, b: string)
    requires a in vars && b in vars
    ensures ResolveElement(v, vars, [a, b]) == ResolveSingle(ResolveSingle(v, a, vars[a]), b, vars[b])
  {
    assert [a, b][1..] == [b] && [b][1..] == [];
    var v' := ResolveSingle(v, a, vars[a]);
    assert ResolveElement(v', vars, [b]) == ResolveElement(ResolveSingle(v', b, vars[b]), vars, []);
  }
}
