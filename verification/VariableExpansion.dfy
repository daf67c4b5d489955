/** What the resolved variables mean: each one is its definition with every reference
    expanded, all the way down. */
module VariableExpansion {
  import opened Common
  import opened VariableText
  import opened Variables

  // ----- the text of a variable -----

  /** References to variables with a known text are replaced by it. */
  function Expand(t: Text, known: map<string, Text>): Text {
    if t == [] then []
    else (if t[0].Ref? && t[0].name in known then known[t[0].name] else [t[0]]) + Expand(t[1..], known)
  }

  function TextsOf(vars: Section): map<string, Text> {
    map v | v in vars :: TextOf(vars[v])
  }

  /** `known` gives every variable the text of its definition, expanded with `known` itself. */
  ghost predicate Solves(vars: Section, known: map<string, Text>) {
    known.Keys <= vars.Keys && forall v :: v in known ==> known[v] == Expand(TextOf(vars[v]), known)
  }

  lemma {:induction false} ExpandConcat(a: Text, b: Text, known: map<string, Text>)
    ensures Expand(a + b, known) == Expand(a, known) + Expand(b, known)
  {
    if a == [] {
      assert a + b == b;
    } else {
      assert (a + b)[1..] == a[1..] + b;
      ExpandConcat(a[1..], b, known);
    }
  }

  lemma {:induction false} ExpandAbsent(t: Text, known: map<string, Text>)
    requires forall n :: n in known ==> !HasRefTo(t, n)
    ensures Expand(t, known) == t
  {
    if t != [] {
      assert t == [t[0]] + t[1..];
      assert forall n :: n in known ==> !HasRefTo(t[1..], n);
      ExpandAbsent(t[1..], known);
    }
  }

  /** Substituting a text that expands to the known one changes no expansion. */
  lemma {:induction false} ExpandSubst(t: Text, name: string, insert: Text, known: map<string, Text>)
    requires name in known && Expand(insert, known) == known[name]
    ensures Expand(Subst(t, name, insert), known) == Expand(t, known)
  {
    if t != [] {
      ExpandSubst(t[1..], name, insert, known);
      ExpandConcat(if t[0] == Ref(name) then insert else [t[0]], Subst(t[1..], name, insert), known);
      assert Expand([t[0]], known) ==
             (if t[0].Ref? && t[0].name in known then known[t[0].name] else [t[0]]) + Expand([t[0]][1..], known);
    }
  }

  lemma EliminateKeepsExpansion(vars: Section, k: string, v: string, known: map<string, Text>)
    requires k in vars && Eliminate(vars, k).Ok? && v in vars
    requires k in known && Expand(TextOf(vars[k]), known) == known[k]
    ensures Expand(TextOf(Eliminate(vars, k).value[v]), known) == Expand(TextOf(vars[v]), known)
  {
    ResolveSingleText(vars[v], k, vars[k]);
    ExpandSubst(TextOf(vars[v]), k, TextOf(vars[k]), known);
  }

  lemma EliminatedKeepsOwnText(vars: Section, k: string)
    requires k in vars && Eliminate(vars, k).Ok?
    ensures TextOf(Eliminate(vars, k).value[k]) == TextOf(vars[k])
  {
    ResolveSingleText(vars[k], k, vars[k]);
    SubstAbsent(TextOf(vars[k]), k, TextOf(vars[k]));
  }

  /** One round leaves the solutions as they were. */
  lemma EliminateKeepsSolutions(vars: Section, k: string, known: map<string, Text>)
    requires k in vars && k in known && Eliminate(vars, k).Ok?
    ensures Solves(vars, known) <==> Solves(Eliminate(vars, k).value, known)
  {
    var vars' := Eliminate(vars, k).value;
    EliminatedKeepsOwnText(vars, k);
    if known.Keys <= vars.Keys && Expand(TextOf(vars[k]), known) == known[k] {
      forall v | v in known
        ensures Expand(TextOf(vars'[v]), known) == Expand(TextOf(vars[v]), known)
      {
        EliminateKeepsExpansion(vars, k, v, known);
      }
    }
  }

  lemma {:induction false} AllKeepSolutions(vars: Section, order: seq<string>, known: map<string, Text>)
    requires forall name <- order :: name in vars && name in known
    requires EliminateAll(vars, order).Ok?
    ensures Solves(vars, known) <==> Solves(EliminateAll(vars, order).value, known)
    decreases |order|
  {
    if order != [] {
      EliminateKeepsSolutions(vars, order[0], known);
      AllKeepSolutions(Eliminate(vars, order[0]).value, order[1..], known);
    }
  }

  // ----- which references are left -----

  ghost predicate FreeOf(vars: Section, names: set<string>) {
    forall v, n :: v in vars && n in names ==> !HasRefTo(TextOf(vars[v]), n)
  }

  lemma EliminateFrees(vars: Section, k: string, names: set<string>)
    requires k in vars && Eliminate(vars, k).Ok? && FreeOf(vars, names)
    ensures FreeOf(Eliminate(vars, k).value, names + {k})
  {
    var vars' := Eliminate(vars, k).value;
    forall v, n | v in vars' && n in names + {k}
      ensures !HasRefTo(TextOf(vars'[v]), n)
    {
      ResolveSingleRefs(vars[v], k, vars[k], n);
    }
  }

  lemma {:induction false} NoRefsLeft(vars: Section, order: seq<string>, names: set<string>, done: set<string>)
    requires Enumerates(order, names) && names <= vars.Keys
    requires EliminateAll(vars, order).Ok? && FreeOf(vars, done)
    ensures FreeOf(EliminateAll(vars, order).value, done + names)
    decreases |order|
  {
    hide Eliminate, FreeOf;
    if order == [] {
      assert forall n :: n in names ==> n in order;
      assert done + names == done;
    } else {
      var k := order[0];
      EliminateFrees(vars, k, done);
      TailEnumerates(order, names);
      NoRefsLeft(Eliminate(vars, k).value, order[1..], names - {k}, done + {k});
      assert done + {k} + (names - {k}) == done + names;
    }
  }

  /** So a resolved section is free of its own names. */
  lemma {:induction false} ResolvedIsFree(vars: Section, order: seq<string>)
    requires Enumerates(order, vars.Keys) && EliminateAll(vars, order).Ok?
    ensures FreeOf(EliminateAll(vars, order).value, vars.Keys)
  {
    hide EliminateAll;
    NoRefsLeft(vars, order, vars.Keys, {});
    assert {} + vars.Keys == vars.Keys;
  }

  /** References to names outside the order neither appear nor vanish altogether. */
  lemma {:induction false} OtherRefsStay(vars: Section, order: seq<string>, n: string)
    requires forall name <- order :: name in vars
    requires EliminateAll(vars, order).Ok? && n !in order
    ensures forall v :: v in vars && HasRefTo(TextOf(vars[v]), n) ==>
              HasRefTo(TextOf(EliminateAll(vars, order).value[v]), n)
    ensures (forall v :: v in vars ==> !HasRefTo(TextOf(vars[v]), n)) ==>
              forall v :: v in vars ==> !HasRefTo(TextOf(EliminateAll(vars, order).value[v]), n)
    decreases |order|
  {
    if order != [] {
      var k := order[0];
      var vars' := Eliminate(vars, k).value;
      forall v | v in vars
        ensures HasRefTo(TextOf(vars'[v]), n) <==>
                HasRefTo(TextOf(vars[v]), n) || (HasRefTo(TextOf(vars[v]), k) && HasRefTo(TextOf(vars[k]), n))
      {
        ResolveSingleRefs(vars[v], k, vars[k], n);
      }
      OtherRefsStay(vars', order[1..], n);
    }
  }

  // ----- texts are the expansions -----

  /** The resolved texts expand every definition in full, and nothing else does: they do not
      depend on the key order. */
  lemma TextsAreExpansions(vars: Section, order: seq<string>, known: map<string, Text>)
    requires Enumerates(order, vars.Keys) && EliminateAll(vars, order).Ok?
    requires known.Keys == vars.Keys
    ensures Solves(vars, known) <==> known == TextsOf(EliminateAll(vars, order).value)
  {
    hide Eliminate, EliminateAll, HasRefTo;
    var resolved := EliminateAll(vars, order).value;
    AllKeepSolutions(vars, order, known);
    ResolvedIsFree(vars, order);
    FreeIsSolved(resolved, known);
  }

  /** A section without references is its own, and only, solution. */
  lemma FreeIsSolved(vars: Section, known: map<string, Text>)
    requires known.Keys <= vars.Keys && FreeOf(vars, known.Keys)
    ensures Solves(vars, known) <==> forall v :: v in known ==> known[v] == TextOf(vars[v])
    ensures known.Keys == vars.Keys ==> (Solves(vars, known) <==> known == TextsOf(vars))
  {
    forall v | v in known
      ensures Expand(TextOf(vars[v]), known) == TextOf(vars[v])
    {
      ExpandAbsent(TextOf(vars[v]), known);
    }
  }

  lemma OrderDoesNotMatter(vars: Section, order: seq<string>, order': seq<string>)
    requires Enumerates(order, vars.Keys) && Enumerates(order', vars.Keys)
    ensures EliminateAll(vars, order).Ok? <==> EliminateAll(vars, order').Ok?
    ensures EliminateAll(vars, order).Ok? ==>
              TextsOf(EliminateAll(vars, order).value) == TextsOf(EliminateAll(vars, order').value)
  {
    CircularIffCycle(vars, order, vars.Keys);
    CircularIffCycle(vars, order', vars.Keys);
    if EliminateAll(vars, order).Ok? {
      var known := TextsOf(EliminateAll(vars, order).value);
      TextsAreExpansions(vars, order, known);
      TextsAreExpansions(vars, order', known);
    }
  }
}
