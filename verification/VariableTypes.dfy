/** A string that is nothing but one reference takes over the type of the variable. That is
    promised for strings written that way; because references are replaced one after the
    other, it can also happen to a string whose other references have become empty by the
    time its last one is replaced. This module says exactly when. */
module VariableTypes {
  import opened Common
  import opened VariableText
  import opened Variables
  import opened VariableExpansion

  ghost predicate IsSingleRef(v: Value, name: string) {
    v == Str([Ref(name)])
  }

  /** `v` is, or is an alias over `n` steps of, the number or truth value `value`. */
  ghost predicate Leads(vars: Section, v: string, value: Value, n: nat)
    decreases n
  {
    v in vars && value.Scalar? &&
    if n == 0 then vars[v] == value
    else
      vars[v].Str? && |vars[v].text| == 1 && vars[v].text[0].Ref? && Leads(vars, vars[v].text[0].name, value, n - 1)
  }

  ghost predicate IsAliasOf(vars: Section, v: string, value: Value) {
    exists n: nat :: Leads(vars, v, value, n)
  }

  ghost predicate IsAlias(vars: Section, v: string) {
    exists value :: IsAliasOf(vars, v, value)
  }

  /** Exactly the aliases of numbers and truth values are resolved to them; all other
      variables stay strings. */
  ghost predicate TypesRight(vars: Section, resolved: Section) {
    resolved.Keys == vars.Keys &&
    forall v, value: Value :: v in vars && value.Scalar? ==> (resolved[v] == value <==> IsAliasOf(vars, v, value))
  }

  function NamesIn(order: seq<string>): set<string> {
    set name | name in order
  }

  /** When the turn of `u` comes, an alias of a number or truth value, the references replaced
      before it have made the bare reference to `u` out of `v`, which is no such alias. */
  ghost predicate CollapsesAt(vars: Section, order: seq<string>, i: nat, v: string, known: map<string, Text>) {
    && i < |order| && v in vars && !IsAlias(vars, v) && IsAlias(vars, order[i])
    && known.Keys == NamesIn(order[..i]) && Solves(vars, known)
    && Expand(TextOf(vars[v]), known) == [Ref(order[i])]
  }

  ghost predicate Collapses(vars: Section, order: seq<string>) {
    exists i, v, known :: CollapsesAt(vars, order, i, v, known)
  }

  // ----- aliases under elimination -----

  lemma {:induction false} LeadsSurvives(vars: Section, k: string, v: string, value: Value, n: nat) returns (n': nat)
    requires k in vars && Eliminate(vars, k).Ok? && Leads(vars, v, value, n)
    ensures Leads(Eliminate(vars, k).value, v, value, n')
    decreases n
  {
    var vars' := Eliminate(vars, k).value;
    if n == 0 {
      n' := 0;
    } else {
      var x := vars[v].text[0].name;
      assert vars[v].text == [Ref(x)];
      if x == k {
        if n == 1 {
          n' := 0;
        } else {
          var y := vars[k].text[0].name;
          assert vars[k].text == [Ref(y)];
          n' := LeadsSurvives(vars, k, y, value, n - 2);
          n' := n' + 1;
        }
      } else {
        SubstAbsent([Ref(x)], k, TextOf(vars[k]));
        n' := LeadsSurvives(vars, k, x, value, n - 1);
        n' := n' + 1;
      }
    }
  }

  /** An alias that elimination creates out of a string that was not a single reference. */
  ghost predicate Created(vars: Section, k: string, v: string, u: string)
    requires k in vars && Eliminate(vars, k).Ok?
  {
    && v in vars && u in vars
    && IsSingleRef(Eliminate(vars, k).value[v], u)
    && (forall x :: !IsSingleRef(vars[v], x))
    && IsAlias(vars, u)
  }

  lemma {:induction false} LeadsCameFrom(vars: Section, k: string, v: string, value: Value, n: nat) returns (n': nat)
    requires k in vars && Eliminate(vars, k).Ok? && Leads(Eliminate(vars, k).value, v, value, n)
    requires forall w, u :: !Created(vars, k, w, u)
    ensures Leads(vars, v, value, n')
    decreases n
  {
    var vars' := Eliminate(vars, k).value;
    if n == 0 {
      if vars[v].Scalar? {
        n' := 0;
      } else {
        n' := 1;
        assert Leads(vars, k, value, 0);
      }
    } else {
      var u := vars'[v].text[0].name;
      assert vars'[v].text == [Ref(u)];
      var m := LeadsCameFrom(vars, k, u, value, n - 1);
      assert IsAliasOf(vars, u, value);
      assert IsAlias(vars, u);
      if IsSingleRef(vars[v], k) {
        assert Leads(vars, k, value, m + 1);
        n' := m + 2;
      } else {
        assert !Created(vars, k, v, u);
        var x :| IsSingleRef(vars[v], x);
        SubstAbsent([Ref(x)], k, TextOf(vars[k]));
        n' := m + 1;
      }
    }
  }

  lemma {:induction false} AliasesSurvive(vars: Section, order: seq<string>, v: string, value: Value)
    requires forall name <- order :: name in vars
    requires EliminateAll(vars, order).Ok? && IsAliasOf(vars, v, value)
    ensures IsAliasOf(EliminateAll(vars, order).value, v, value)
    decreases |order|
  {
    if order != [] {
      var n: nat :| Leads(vars, v, value, n);
      n := LeadsSurvives(vars, order[0], v, value, n);
      AliasesSurvive(Eliminate(vars, order[0]).value, order[1..], v, value);
    }
  }

  lemma AliasTarget(vars: Section, v: string, value: Value, n: nat) returns (x: string)
    requires n > 0 && Leads(vars, v, value, n)
    ensures x in vars && IsSingleRef(vars[v], x) && HasRefTo(TextOf(vars[v]), x)
  {
    x := vars[v].text[0].name;
    assert Leads(vars, x, value, n - 1);
    assert vars[v].text == [Ref(x)];
  }

  /** Where no references are left, an alias is the value itself. */
  lemma FreeAlias(vars: Section, v: string, value: Value)
    requires FreeOf(vars, vars.Keys) && v in vars && value.Scalar?
    ensures IsAliasOf(vars, v, value) <==> vars[v] == value
  {
    if vars[v] == value {
      assert Leads(vars, v, value, 0);
    }
    if IsAliasOf(vars, v, value) {
      var n: nat :| Leads(vars, v, value, n);
      if n > 0 {
        var x := AliasTarget(vars, v, value, n);
      }
    }
  }

  lemma NotAnAlias(vars: Section, v: string)
    requires v in vars && vars[v].Str? && forall x :: !IsSingleRef(vars[v], x)
    ensures !IsAlias(vars, v)
  {
    if IsAlias(vars, v) {
      var value, n: nat :| Leads(vars, v, value, n);
      assert vars[v].text == [Ref(vars[v].text[0].name)];
      assert IsSingleRef(vars[v], vars[v].text[0].name);
    }
  }

  lemma SameAliases(vars: Section, k: string, v: string, value: Value)
    requires k in vars && Eliminate(vars, k).Ok? && forall w, u :: !Created(vars, k, w, u)
    ensures IsAliasOf(Eliminate(vars, k).value, v, value) <==> IsAliasOf(vars, v, value)
  {
    if IsAliasOf(vars, v, value) {
      var n: nat :| Leads(vars, v, value, n);
      n := LeadsSurvives(vars, k, v, value, n);
    }
    if IsAliasOf(Eliminate(vars, k).value, v, value) {
      var n: nat :| Leads(Eliminate(vars, k).value, v, value, n);
      n := LeadsCameFrom(vars, k, v, value, n);
    }
  }

  lemma OnlyStringsRefer(value: Value, u: string)
    requires TextOf(value) == [Ref(u)]
    ensures value == Str([Ref(u)])
  {
    assert HasRefTo(TextOf(value), u);
    if value.Scalar? {
      LiteralHasNoRef(value.dump, u);
    }
  }

  // ----- the section half way through -----

  ghost predicate Ordered(vars: Section, order: seq<string>) {
    Enumerates(order, vars.Keys) && EliminateAll(vars, order).Ok?
  }

  lemma {:induction false} EliminateInTwo(vars: Section, a: seq<string>, b: seq<string>)
    requires forall name <- a + b :: name in vars
    requires EliminateAll(vars, a + b).Ok?
    ensures EliminateAll(vars, a).Ok?
    ensures EliminateAll(EliminateAll(vars, a).value, b) == EliminateAll(vars, a + b)
    decreases |a|
  {
    if a == [] {
      assert a + b == b;
    } else {
      assert (a + b)[1..] == a[1..] + b && (a + b)[0] == a[0];
      EliminateInTwo(Eliminate(vars, a[0]).value, a[1..], b);
    }
  }

  /** The section after the first `i` variables of the order */
  ghost function Stage(vars: Section, order: seq<string>, i: nat): (current: Section)
    requires Ordered(vars, order) && i <= |order|
    ensures current.Keys == vars.Keys
    ensures EliminateAll(vars, order[..i]) == Ok(current)
    ensures EliminateAll(current, order[i..]) == EliminateAll(vars, order)
  {
    assert order[..i] + order[i..] == order;
    EliminateInTwo(vars, order[..i], order[i..]);
    EliminateAll(vars, order[..i]).value
  }

  lemma NextStage(vars: Section, order: seq<string>, i: nat)
    requires Ordered(vars, order) && i < |order|
    ensures order[i] in vars && Eliminate(Stage(vars, order, i), order[i]) == Ok(Stage(vars, order, i + 1))
  {
    hide Eliminate;
    assert order[i] in order;
    assert order[..i + 1] == order[..i] + [order[i]];
    EliminateInTwo(vars, order[..i + 1], order[i + 1..]) by { assert order[..i + 1] + order[i + 1..] == order; }
    EliminateInTwo(vars, order[..i], [order[i]]);
    assert [order[i]][1..] == [];
  }

  lemma StageIsFree(vars: Section, order: seq<string>, i: nat)
    requires Ordered(vars, order) && i <= |order|
    ensures FreeOf(Stage(vars, order, i), NamesIn(order[..i]))
  {
    hide EliminateAll;
    var current := Stage(vars, order, i);
    assert forall k :: 0 <= k < i ==> order[k] in order;
    NoRefsLeft(vars, order[..i], NamesIn(order[..i]), {});
    assert {} + NamesIn(order[..i]) == NamesIn(order[..i]);
  }

  ghost function TextsAt(vars: Section, order: seq<string>, i: nat): map<string, Text>
    requires Ordered(vars, order) && i <= |order|
  {
    map n | n in NamesIn(order[..i]) && n in vars :: TextOf(Stage(vars, order, i)[n])
  }

  lemma {:induction false} AllKeepExpansion(vars: Section, order: seq<string>, v: string, known: map<string, Text>)
    requires forall name <- order :: name in vars && name in known
    requires EliminateAll(vars, order).Ok? && v in vars && Solves(vars, known)
    ensures Expand(TextOf(EliminateAll(vars, order).value[v]), known) == Expand(TextOf(vars[v]), known)
    decreases |order|
  {
    hide Eliminate;
    if order != [] {
      EliminateKeepsExpansion(vars, order[0], v, known);
      EliminateKeepsSolutions(vars, order[0], known);
      AllKeepExpansion(Eliminate(vars, order[0]).value, order[1..], v, known);
    }
  }

  /** Half way through, the texts of the variables eliminated so far are the one solution of their
      definitions, */
  lemma StageSolves(vars: Section, order: seq<string>, i: nat, known: map<string, Text>)
    requires Ordered(vars, order) && i <= |order| && known.Keys == NamesIn(order[..i])
    ensures Solves(vars, known) <==> known == TextsAt(vars, order, i)
  {
    hide Eliminate, EliminateAll, HasRefTo, Solves, FreeOf;
    var current := Stage(vars, order, i);
    NamesAreDefined(vars, order, i);
    StageIsFree(vars, order, i);
    AllKeepSolutions(vars, order[..i], known);
    FreeIsSolved(current, known);
    assert (forall v :: v in known ==> known[v] == TextOf(current[v])) <==> known == TextsAt(vars, order, i);
  }

  lemma NamesAreDefined(vars: Section, order: seq<string>, i: nat)
    requires Enumerates(order, vars.Keys) && i <= |order|
    ensures NamesIn(order[..i]) <= vars.Keys && forall name <- order[..i] :: name in vars
  {
    assert forall k :: 0 <= k < i ==> order[k] in order;
  }

  /** and every text is its definition with just these expanded. */
  lemma {:induction false} StageExpands(vars: Section, order: seq<string>, i: nat, known: map<string, Text>, v: string)
    requires Ordered(vars, order) && i <= |order| && known.Keys == NamesIn(order[..i])
    requires Solves(vars, known) && v in vars
    ensures Expand(TextOf(vars[v]), known) == TextOf(Stage(vars, order, i)[v])
  {
    hide Eliminate, EliminateAll, HasRefTo, Solves;
    var current := Stage(vars, order, i);
    NamesAreDefined(vars, order, i);
    StageIsFree(vars, order, i);
    AllKeepExpansion(vars, order[..i], v, known);
    ExpandAbsent(TextOf(current[v]), known);
  }

  /** A string that has become a bare reference stays one until the turn of that reference. */
  lemma {:induction false} StaysSingle(vars: Section, order: seq<string>, i: nat, j: nat, v: string, u: string)
    requires Ordered(vars, order) && i <= j <= |order| && v in vars && u !in order[i..j]
    requires IsSingleRef(Stage(vars, order, i)[v], u)
    ensures IsSingleRef(Stage(vars, order, j)[v], u)
    decreases j - i
  {
    hide EliminateAll;
    if i < j {
      assert order[i..j][0] == order[i] && order[i + 1..j] == order[i..j][1..];
      NextStage(vars, order, i);
      SubstAbsent([Ref(u)], order[i], TextOf(Stage(vars, order, i)[order[i]]));
      StaysSingle(vars, order, i + 1, j, v, u);
    }
  }

  // ----- a collapse gets a type wrong -----

  lemma CollapseTypesWrong(vars: Section, order: seq<string>, i: nat, v: string, known: map<string, Text>)
    requires Ordered(vars, order) && CollapsesAt(vars, order, i, v, known)
    ensures !TypesRight(vars, EliminateAll(vars, order).value)
  {
    hide Eliminate, EliminateAll, Leads, Solves;
    var current, u := Stage(vars, order, i), order[i];
    StageExpands(vars, order, i, known, v);
    OnlyStringsRefer(current[v], u);
    var value :| IsAliasOf(vars, u, value);
    assert forall k :: 0 <= k < |order| ==> order[k] in order;
    AliasesSurvive(vars, order[..i], u, value);
    AliasOfAlias(current, v, u, value);
    AliasesSurvive(current, order[i..], v, value);
    var resolved := EliminateAll(vars, order).value;
    ResolvedIsFree(vars, order);
    AliasIsScalar(resolved, v, value);
    FreeAlias(resolved, v, value);
    assert !IsAliasOf(vars, v, value);
  }

  lemma AliasOfAlias(vars: Section, v: string, u: string, value: Value)
    requires v in vars && IsSingleRef(vars[v], u) && IsAliasOf(vars, u, value)
    ensures IsAliasOf(vars, v, value)
  {
    var n: nat :| Leads(vars, u, value, n);
    assert Leads(vars, v, value, n + 1);
  }

  lemma AliasIsScalar(vars: Section, v: string, value: Value)
    requires IsAliasOf(vars, v, value)
    ensures v in vars && value.Scalar?
  {
    var n: nat :| Leads(vars, v, value, n);
  }

  // ----- without a collapse the types are right -----

  lemma CreatedMeansCollapse(vars: Section, order: seq<string>, i: nat, v: string, u: string)
    requires Ordered(vars, order) && i < |order| && order[i] in vars && Eliminate(Stage(vars, order, i), order[i]).Ok?
    requires Created(Stage(vars, order, i), order[i], v, u)
    requires IsAlias(vars, u) && !IsAlias(vars, v)
    ensures Collapses(vars, order)
  {
    hide Eliminate, EliminateAll, Solves, IsAlias, Ordered, FreeOf;
    NextStage(vars, order, i);
    var j := LaterTurn(vars, order, i + 1, v, u);
    StaysSingle(vars, order, i + 1, j, v, u);
    var known := TextsAt(vars, order, j);
    OrderEnumerates(vars, order);
    NamesAreDefined(vars, order, j);
    StageSolves(vars, order, j, known);
    StageExpands(vars, order, j, known, v);
    assert CollapsesAt(vars, order, j, v, known);
  }

  lemma OrderEnumerates(vars: Section, order: seq<string>)
    requires Ordered(vars, order)
    ensures Enumerates(order, vars.Keys)
  {
  }

  /** The turn of a variable that is still referred to has yet to come. */
  lemma LaterTurn(vars: Section, order: seq<string>, i: nat, v: string, u: string) returns (j: nat)
    requires Ordered(vars, order) && i <= |order| && v in vars && u in vars
    requires HasRefTo(TextOf(Stage(vars, order, i)[v]), u)
    ensures i <= j < |order| && order[j] == u && u !in order[i..j]
  {
    hide EliminateAll, TextOf;
    assert forall k :: 0 <= k < i ==> order[..i][k] == order[k] && order[k] in NamesIn(order[..i]);
    StageIsFree(vars, order, i);
    j :| 0 <= j < |order| && order[j] == u;
  }

  ghost predicate SameAliasesAs(vars: Section, current: Section) {
    forall v, value :: IsAliasOf(current, v, value) <==> IsAliasOf(vars, v, value)
  }

  lemma {:induction false} StagesKeepAliases(vars: Section, order: seq<string>, i: nat)
    requires Ordered(vars, order) && i <= |order| && !Collapses(vars, order)
    ensures SameAliasesAs(vars, Stage(vars, order, i))
  {
    hide Eliminate, Leads, IsAliasOf, Collapses;
    if i > 0 {
      StagesKeepAliases(vars, order, i - 1);
      NextStage(vars, order, i - 1);
      var current, k := Stage(vars, order, i - 1), order[i - 1];
      forall v, u
        ensures !Created(current, k, v, u)
      {
        if Created(current, k, v, u) {
          CreatedFromString(current, k, v, u);
          CreatedMeansCollapse(vars, order, i - 1, v, u);
        }
      }
      forall v, value
        ensures IsAliasOf(Stage(vars, order, i), v, value) <==> IsAliasOf(vars, v, value)
      {
        SameAliases(current, k, v, value);
      }
    }
  }

  lemma CreatedFromString(vars: Section, k: string, v: string, u: string)
    requires k in vars && Eliminate(vars, k).Ok? && Created(vars, k, v, u)
    ensures v in vars && IsAlias(vars, u) && !IsAlias(vars, v)
  {
    NotAnAlias(vars, v);
  }

  /** In the order in which the source goes through the section, the aliases of numbers and truth
      values, and nothing else, are resolved to them exactly if no string collapses on the way. */
  lemma {:induction false} TypesRightIffNoCollapse(vars: Section, order: seq<string>)
    requires Ordered(vars, order)
    ensures TypesRight(vars, EliminateAll(vars, order).value) <==> !Collapses(vars, order)
  {
    hide Eliminate, EliminateAll, IsAliasOf;
    var resolved := EliminateAll(vars, order).value;
    if i, v, known :| CollapsesAt(vars, order, i, v, known) {
      CollapseTypesWrong(vars, order, i, v, known);
    } else {
      assert order[..|order|] == order;
      StagesKeepAliases(vars, order, |order|);
      ResolvedIsFree(vars, order);
      forall v, value: Value | v in vars && value.Scalar?
        ensures resolved[v] == value <==> IsAliasOf(vars, v, value)
      {
        FreeAlias(resolved, v, value);
      }
    }
  }

  /** A section that collapses: E is empty, N is five, V is "${E}${N}". */
  function CollapsingSection(v: Value): Section {
    map["E" := Str([]), "N" := Scalar("5"), "V" := v]
  }

  /** With E first, V becomes the number; with N first, it becomes the string. */
  lemma CollapseExample()
    ensures var vars := CollapsingSection(Str([Ref("E"), Ref("N")]));
            && EliminateAll(vars, ["E", "N", "V"]) == Ok(CollapsingSection(Scalar("5")))
            && EliminateAll(vars, ["N", "E", "V"]) == Ok(CollapsingSection(Str([Ch('5')])))
  {
    hide EliminateAll, Eliminate;
    var five := [Ch('5')];
    assert Literal("5") == five;
    var vars := CollapsingSection(Str([Ref("E"), Ref("N")]));
    var afterE, afterN := CollapsingSection(Str([Ref("N")])), CollapsingSection(Str([Ref("E"), Ch('5')]));
    var number, digit := CollapsingSection(Scalar("5")), CollapsingSection(Str(five));

    SubstTwo(Ref("E"), Ref("N"), "E", []);
    assert [] + [Ref("N")] == [Ref("N")];
    Round(Str([Ref("E"), Ref("N")]), "E");
    Round(Str([Ref("N")]), "N");
    Round(Scalar("5"), "V");
    InThreeRounds(vars, "E", "N", "V", afterE, number, number);

    SubstTwo(Ref("E"), Ref("N"), "N", five);
    assert [Ref("E")] + five == [Ref("E"), Ch('5')];
    SubstTwo(Ref("E"), Ch('5'), "E", []);
    assert [] + five == five;
    SubstAbsent(five, "V", five);
    Round(Str([Ref("E"), Ref("N")]), "N");
    Round(Str([Ref("E"), Ch('5')]), "E");
    Round(Str(five), "V");
    InThreeRounds(vars, "N", "E", "V", afterN, digit, digit);
  }

  /** One round on that section changes V only. */
  lemma Round(v: Value, name: string)
    requires name in CollapsingSection(v) && !HasRefTo(TextOf(CollapsingSection(v)[name]), name)
    ensures Eliminate(CollapsingSection(v), name) ==
            Ok(CollapsingSection(ResolveSingle(v, name, CollapsingSection(v)[name])))
  {
    var vars := CollapsingSection(v);
    SubstAbsent([], name, TextOf(vars[name]));
    var after := CollapsingSection(ResolveSingle(v, name, vars[name]));
    if name == "V" {
      if v.Str? {
        SubstAbsent(v.text, name, v.text);
      }
    }
    assert Eliminate(vars, name).value == after;
  }

  lemma {:induction false} InThreeRounds(vars: Section, a: string, b: string, c: string,
                                         x: Section, y: Section, z: Section)
    requires a in vars && b in vars && c in vars
    requires Eliminate(vars, a) == Ok(x) && Eliminate(x, b) == Ok(y) && Eliminate(y, c) == Ok(z)
    ensures EliminateAll(vars, [a, b, c]) == Ok(z)
  {
    hide Eliminate;
    assert [a, b, c][1..] == [b, c] && [b, c][1..] == [c] && [c][1..] == [];
    assert EliminateAll(y, [c]) == Ok(z);
    assert EliminateAll(x, [b, c]) == EliminateAll(y, [c]);
  }

  lemma SubstTwo(a: Token, b: Token, name: string, insert: Text)
    ensures Subst([a, b], name, insert) ==
            (if a == Ref(name) then insert else [a]) + (if b == Ref(name) then insert else [b])
  {
    assert [a, b][1..] == [b] && [b][1..] == [];
    assert Subst([b], name, insert) == (if b == Ref(name) then insert else [b]) + [];
  }
}
