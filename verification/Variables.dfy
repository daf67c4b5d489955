/** Resolving the variables section of a configuration: one variable after the other, in key
    order, is replaced by its current value in all of them. */
module Variables {
  import opened Common
  import opened VariableText

  /** A value that is not an object: a string, or a number or truth value with its dump. */
  datatype Value = Scalar(dump: string) | Str(text: Text)

  type Section = map<string, Value>

  function Literal(s: string): (t: Text)
    ensures |t| == |s|
    ensures forall i :: 0 <= i < |t| ==> t[i] == Ch(s[i])
  {
    seq(|s|, i requires 0 <= i < |s| => Ch(s[i]))
  }

  /** The string that a reference inside a longer string is replaced by. */
  function TextOf(v: Value): Text {
    match v
    case Scalar(dump) => Literal(dump)
    case Str(text) => text
  }

  datatype Result<T> = Ok(value: T) | Circular(name: string)

  /** ResolveSingleVariable: a string that is nothing but the reference takes over the value,
      type included. */
  function ResolveSingle(elem: Value, name: string, value: Value): Value {
    if elem.Scalar? then elem
    else if elem.text == [Ref(name)] then value
    else Str(Subst(elem.text, name, TextOf(value)))
  }

  /** One round of ResolveVariablesSections. */
  function Eliminate(vars: Section, name: string): (r: Result<Section>)
    requires name in vars
    ensures r.Ok? ==> r.value.Keys == vars.Keys
  {
    var value := vars[name];
    if HasRefTo(TextOf(value), name) then Circular(name)
    else Ok(map v | v in vars :: ResolveSingle(vars[v], name, value))
  }

  /** ResolveVariablesSections, for keys in the given order. */
  function EliminateAll(vars: Section, order: seq<string>): (r: Result<Section>)
    requires forall name <- order :: name in vars
    ensures r.Ok? ==> r.value.Keys == vars.Keys
  {
    if order == [] then Ok(vars)
    else
      var r := Eliminate(vars, order[0]);
      if r.Circular? then r else EliminateAll(r.value, order[1..])
  }

  ghost predicate Enumerates(order: seq<string>, names: set<string>) {
    NoDuplicates(order) && forall n :: n in order <==> n in names
  }

  /** The loops of ResolveVariablesSections update the section in place; the value being
      substituted is copied before. */
  method ResolveVariablesSections(vars: Section, order: seq<string>) returns (r: Result<Section>)
    requires Enumerates(order, vars.Keys)
    ensures r == EliminateAll(vars, order)
  {
    hide Eliminate;
    var current := vars;
    for i := 0 to |order|
      invariant current.Keys == vars.Keys
      invariant EliminateAll(current, order[i..]) == EliminateAll(vars, order)
    {
      var name := order[i];
      assert name in order;
      assert order[i..][1..] == order[i + 1..];
      var value := current[name];
      CheckCircular(current, name);
      if HasRefTo(TextOf(value), name) {
        return Circular(name);
      }
      current := ResolveInAll(current, order, name, value);
    }
    return Ok(current);
  }

  lemma CheckCircular(vars: Section, name: string)
    requires name in vars
    ensures HasRefTo(TextOf(vars[name]), name) ==> Eliminate(vars, name) == Circular(name)
  {
  }

  /** The inner loop. */
  method ResolveInAll(vars: Section, order: seq<string>, name: string, value: Value) returns (vars': Section)
    requires Enumerates(order, vars.Keys) && name in vars && value == vars[name]
    requires !HasRefTo(TextOf(value), name)
    ensures Eliminate(vars, name) == Ok(vars')
  {
    vars' := vars;
    for j := 0 to |order|
      invariant vars'.Keys == vars.Keys
      invariant forall k :: 0 <= k < j ==>
                  order[k] in vars && vars'[order[k]] == ResolveSingle(vars[order[k]], name, value)
      invariant forall k :: j <= k < |order| ==> order[k] in vars && vars'[order[k]] == vars[order[k]]
    {
      assert order[j] in order;
      vars' := vars'[order[j] := ResolveSingle(vars'[order[j]], name, value)];
    }
    ghost var expected := Eliminate(vars, name).value;
    forall v | v in vars'
      ensures vars'[v] == expected[v]
    {
      assert v in order;
    }
    assert vars' == expected;
  }

  // ----- references under substitution -----

  lemma {:induction false} SubstRefs(t: Text, name: string, insert: Text, n: string)
    ensures HasRefTo(Subst(t, name, insert), n) <==>
              (n != name && HasRefTo(t, n)) || (HasRefTo(t, name) && HasRefTo(insert, n))
  {
    if t != [] {
      SubstRefs(t[1..], name, insert, n);
      assert t == [t[0]] + t[1..];
    }
  }

  lemma {:induction false} SubstAbsent(t: Text, name: string, insert: Text)
    requires !HasRefTo(t, name)
    ensures Subst(t, name, insert) == t
  {
    if t != [] {
      assert t == [t[0]] + t[1..];
      SubstAbsent(t[1..], name, insert);
    }
  }

  lemma {:induction false} LiteralHasNoRef(s: string, n: string)
    ensures !HasRefTo(Literal(s), n)
  {
  }

  /** What the text of a resolved element refers to. */
  lemma ResolveSingleRefs(elem: Value, name: string, value: Value, n: string)
    ensures HasRefTo(TextOf(ResolveSingle(elem, name, value)), n) <==>
              (n != name && HasRefTo(TextOf(elem), n)) || (HasRefTo(TextOf(elem), name) && HasRefTo(TextOf(value), n))
  {
    if elem.Str? {
      SubstRefs(elem.text, name, TextOf(value), n);
    }
  }

  /** The text of a resolved element, whether or not it took over the type. */
  lemma ResolveSingleText(elem: Value, name: string, value: Value)
    ensures TextOf(ResolveSingle(elem, name, value)) == Subst(TextOf(elem), name, TextOf(value))
  {
    if elem.Scalar? {
      SubstAbsent(TextOf(elem), name, TextOf(value));
    } else if elem.text == [Ref(name)] {
      assert Subst(elem.text[1..], name, TextOf(value)) == [];
      assert TextOf(value) + [] == TextOf(value);
    }
  }

  // ----- cycles -----

  ghost predicate DependsOn(vars: Section, a: string, b: string) {
    a in vars && HasRefTo(TextOf(vars[a]), b)
  }

  ghost predicate IsWalk(vars: Section, names: set<string>, w: seq<string>) {
    && |w| > 0
    && (forall i :: 0 <= i < |w| ==> w[i] in names)
    && forall i :: 0 <= i < |w| - 1 ==> DependsOn(vars, w[i], w[i + 1])
  }

  /** Some of the variables `names` depend on each other in a circle. */
  ghost predicate HasCycle(vars: Section, names: set<string>) {
    exists w :: |w| > 1 && IsWalk(vars, names, w) && w[0] == w[|w| - 1]
  }

  /** Elimination bridges the eliminated variable. */
  lemma EliminateDepends(vars: Section, k: string, a: string, b: string)
    requires k in vars && Eliminate(vars, k).Ok? && a in vars
    ensures DependsOn(Eliminate(vars, k).value, a, b) <==>
              (b != k && DependsOn(vars, a, b)) || (DependsOn(vars, a, k) && DependsOn(vars, k, b))
  {
    ResolveSingleRefs(vars[a], k, vars[k], b);
  }

  lemma WalkTail(vars: Section, names: set<string>, w: seq<string>, n: nat)
    requires IsWalk(vars, names, w) && n < |w|
    ensures IsWalk(vars, names, w[n..])
  {
    forall i | 0 <= i < |w[n..]| - 1
      ensures DependsOn(vars, w[n..][i], w[n..][i + 1])
    {
      assert DependsOn(vars, w[n + i], w[n + i + 1]);
    }
  }

  lemma WalkCons(vars: Section, names: set<string>, a: string, w: seq<string>)
    requires IsWalk(vars, names, w) && a in names && DependsOn(vars, a, w[0])
    ensures IsWalk(vars, names, [a] + w)
  {
    var w' := [a] + w;
    forall i | 0 <= i < |w'| - 1
      ensures DependsOn(vars, w'[i], w'[i + 1])
    {
      assert i > 0 ==> DependsOn(vars, w[i - 1], w[i - 1 + 1]);
    }
  }

  /** A walk between other variables becomes a walk around the eliminated one. */
  lemma {:induction false} ShortenWalk(vars: Section, names: set<string>, k: string, w: seq<string>)
    returns (w': seq<string>)
    requires names <= vars.Keys && k in names && Eliminate(vars, k).Ok?
    requires IsWalk(vars, names, w) && w[0] != k && w[|w| - 1] != k
    ensures IsWalk(Eliminate(vars, k).value, names - {k}, w')
    ensures w'[0] == w[0] && w'[|w'| - 1] == w[|w| - 1] && (|w| > 1 ==> |w'| > 1)
  {
    if |w| == 1 {
      return w;
    }
    assert DependsOn(vars, w[0], w[1]);
    var n := 1;
    if w[1] == k {
      assert DependsOn(vars, w[1], w[2]);
      n := 2;
    }
    EliminateDepends(vars, k, w[0], w[n]);
    WalkTail(vars, names, w, n);
    var rest := ShortenWalk(vars, names, k, w[n..]);
    WalkCons(Eliminate(vars, k).value, names - {k}, w[0], rest);
    w' := [w[0]] + rest;
  }

  /** And back. */
  lemma {:induction false} LengthenWalk(vars: Section, names: set<string>, k: string, w: seq<string>)
    returns (w': seq<string>)
    requires names <= vars.Keys && k in names && Eliminate(vars, k).Ok?
    requires IsWalk(Eliminate(vars, k).value, names - {k}, w)
    ensures IsWalk(vars, names, w')
    ensures w'[0] == w[0] && w'[|w'| - 1] == w[|w| - 1] && |w'| >= |w|
  {
    if |w| == 1 {
      return w;
    }
    var vars' := Eliminate(vars, k).value;
    assert DependsOn(vars', w[0], w[1]);
    EliminateDepends(vars, k, w[0], w[1]);
    WalkTail(vars', names - {k}, w, 1);
    var rest := LengthenWalk(vars, names, k, w[1..]);
    if DependsOn(vars, w[0], w[1]) {
      WalkCons(vars, names, w[0], rest);
      w' := [w[0]] + rest;
    } else {
      WalkCons(vars, names, k, rest);
      WalkCons(vars, names, w[0], [k] + rest);
      w' := [w[0]] + ([k] + rest);
    }
  }

  /** A circle can be entered elsewhere than at a variable that does not refer to itself. */
  lemma RotateCycle(vars: Section, names: set<string>, k: string, w: seq<string>) returns (w': seq<string>)
    requires |w| > 1 && IsWalk(vars, names, w) && w[0] == w[|w| - 1] && !DependsOn(vars, k, k)
    ensures |w'| > 1 && IsWalk(vars, names, w') && w'[0] == w'[|w'| - 1] != k
  {
    if w[0] != k {
      return w;
    }
    assert DependsOn(vars, w[0], w[1]);
    w' := w[1..] + [w[1]];
    forall i | 0 <= i < |w'| - 1
      ensures DependsOn(vars, w'[i], w'[i + 1])
    {
      assert i + 1 < |w| - 1 ==> DependsOn(vars, w[i + 1], w[i + 1 + 1]);
    }
  }

  lemma CycleSurvives(vars: Section, names: set<string>, k: string)
    requires names <= vars.Keys && k in names && Eliminate(vars, k).Ok?
    ensures HasCycle(vars, names) <==> HasCycle(Eliminate(vars, k).value, names - {k})
  {
    if HasCycle(vars, names) {
      var w :| |w| > 1 && IsWalk(vars, names, w) && w[0] == w[|w| - 1];
      w := RotateCycle(vars, names, k, w);
      w := ShortenWalk(vars, names, k, w);
    }
    if HasCycle(Eliminate(vars, k).value, names - {k}) {
      var w :| |w| > 1 && IsWalk(Eliminate(vars, k).value, names - {k}, w) && w[0] == w[|w| - 1];
      w := LengthenWalk(vars, names, k, w);
    }
  }

  /** Resolution is refused exactly if there is a circular dependency, whatever the order. */
  lemma {:induction false} CircularIffCycle(vars: Section, order: seq<string>, names: set<string>)
    requires Enumerates(order, names) && names <= vars.Keys
    ensures EliminateAll(vars, order).Circular? <==> HasCycle(vars, names)
    decreases |order|
  {
    if order == [] {
      assert forall w :: |w| > 1 && IsWalk(vars, names, w) ==> w[0] !in order;
    } else {
      var k := order[0];
      var r := Eliminate(vars, k);
      if r.Circular? {
        assert IsWalk(vars, names, [k, k]);
      } else {
        TailEnumerates(order, names);
        CycleSurvives(vars, names, k);
        CircularIffCycle(r.value, order[1..], names - {k});
      }
    }
  }

  /** The variable named in the error lies on a circle. */
  lemma {:induction false} NamedIsOnCycle(vars: Section, order: seq<string>, names: set<string>)
    returns (w: seq<string>)
    requires Enumerates(order, names) && names <= vars.Keys && EliminateAll(vars, order).Circular?
    ensures |w| > 1 && IsWalk(vars, names, w) && w[0] == w[|w| - 1] == EliminateAll(vars, order).name
    decreases |order|
  {
    var k := order[0];
    var r := Eliminate(vars, k);
    if r.Circular? {
      w := [k, k];
    } else {
      TailEnumerates(order, names);
      w := NamedIsOnCycle(r.value, order[1..], names - {k});
      w := LengthenWalk(vars, names, k, w);
    }
  }

  lemma TailEnumerates(order: seq<string>, names: set<string>)
    requires Enumerates(order, names) && order != []
    ensures Enumerates(order[1..], names - {order[0]})
  {
    assert order == [order[0]] + order[1..];
    assert forall i :: 0 <= i < |order[1..]| ==> order[1..][i] == order[i + 1];
  }
}
