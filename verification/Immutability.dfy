/** How far the promise goes that values given on the command line are never updated from another
    source. */
module Immutability {
  import opened Common
  import opened VariableText
  import opened Variables
  import opened Json
  import opened Updates
  import opened Configuration

  /** What holds between updates, with variables supported or not */
  ghost predicate Fine(d: Document, variables: bool, mutableCmdLine: bool) {
    Absorbed(d, mutableCmdLine) && (variables ==> SectionOk(d.json) && Acceptable(d.json))
  }

  /** The update is accepted or refused as the checks say; of documents outside this model it is
      not known what they say. */
  ghost predicate Judged(d: Document, variables: bool, u: Update) {
    if variables then SectionOk(Merged(d, u)) ==> (u.accepted <==> Acceptable(Merged(d, u)))
    else u.accepted
  }

  /** Updates from strings and files only */
  ghost predicate Possible(d: Document, variables: bool, mutableCmdLine: bool, updates: seq<Update>) {
    && (forall u <- updates :: u.direct.None?)
    && forall i :: 0 <= i < |updates| ==> Judged(Run(d, mutableCmdLine, updates[..i]), variables, updates[i])
  }

  ghost predicate Survives(d: Document, variables: bool, mutableCmdLine: bool, path: seq<string>, v: Value) {
    forall updates :: Possible(d, variables, mutableCmdLine, updates) ==>
      At(Run(d, mutableCmdLine, updates).json, path) == Some(Leaf(v))
  }

  /** A value survives every later update from a string or file exactly if the immutable part, the
      direct part of the last accepted command line, puts it there. */
  lemma ImmutableStays(d: Document, variables: bool, mutableCmdLine: bool, path: seq<string>, v: Value)
    requires Fine(d, variables, mutableCmdLine) && At(d.json, path) == Some(Leaf(v))
    ensures Survives(d, variables, mutableCmdLine, path, v) <==> At(d.immutable, path) == Some(Leaf(v))
  {
    hide Absorbed, SectionOk, Acceptable;
    if At(d.immutable, path) == Some(Leaf(v)) {
      forall updates | Possible(d, variables, mutableCmdLine, updates)
        ensures At(Run(d, mutableCmdLine, updates).json, path) == Some(Leaf(v))
      {
        ProtectedStays(d, mutableCmdLine, updates, path, v);
      }
    } else {
      var u := Overwrite(d, variables, mutableCmdLine, path, v);
      assert [u][..0] == [];
      assert Run(d, mutableCmdLine, [u]) == Apply(d, mutableCmdLine, u);
      assert Possible(d, variables, mutableCmdLine, [u]);
    }
  }

  lemma {:induction false} SameImmutable(d: Document, mutableCmdLine: bool, updates: seq<Update>)
    requires forall u <- updates :: u.direct.None?
    ensures Run(d, mutableCmdLine, updates).immutable == d.immutable
  {
    if updates != [] {
      SameImmutable(d, mutableCmdLine, updates[..|updates| - 1]);
    }
  }

  lemma ProtectedStays(d: Document, mutableCmdLine: bool, updates: seq<Update>, path: seq<string>, v: Value)
    requires Absorbed(d, mutableCmdLine) && At(d.immutable, path) == Some(Leaf(v))
    requires forall u <- updates :: u.direct.None?
    ensures At(Run(d, mutableCmdLine, updates).json, path) == Some(Leaf(v))
  {
    RunKeepsAbsorbed(d, mutableCmdLine, updates);
    SameImmutable(d, mutableCmdLine, updates);
    AbsorbedValues(Run(d, mutableCmdLine, updates).json, d.immutable, path, v);
  }

  /** Any other value can be overwritten by an update that passes the checks. */
  lemma Overwrite(d: Document, variables: bool, mutableCmdLine: bool, path: seq<string>, v: Value)
    returns (u: Update)
    requires Fine(d, variables, mutableCmdLine)
    requires At(d.json, path) == Some(Leaf(v)) && At(d.immutable, path) != Some(Leaf(v))
    ensures u.direct.None? && u.accepted && Judged(d, variables, u)
    ensures At(Apply(d, mutableCmdLine, u).json, path) != Some(Leaf(v))
  {
    hide SectionOk, Acceptable;
    var w := if v == Scalar("0") then Scalar("1") else Scalar("0");
    u := Update(PatchFor(path, w), None, true);
    MergedValues(d.json, d.immutable, path, v);
    PatchReplaces(d.json, path, w);
    ReplacedStays(d.json, d.immutable, path, w);
    if variables {
      ReplacedIsAcceptable(d.json, path, v, w);
    }
  }

  // ----- a plain value in the place of another is acceptable -----

  lemma ReplacedIsAcceptable(j: Json, path: seq<string>, v: Value, w: Value)
    requires SectionOk(j) && Acceptable(j) && j.Obj? && At(j, path) == Some(Leaf(v)) && w.Scalar?
    ensures SectionOk(Replaced(j, path, w)) && Acceptable(Replaced(j, path, w))
  {
    hide HasCycle, KeysPlain, RefersOnlyTo, Acceptable;
    AcceptableByWalks(j);
    ReplacedKeysPlain(j, path, w);
    ReplacedRefers(j, path, w, SectionOf(j).Keys);
    ReplacedSection(j, path, v, w);
    FewerDependencies(SectionOf(j), SectionOf(Replaced(j, path, w)));
    AcceptableByWalks(Replaced(j, path, w));
  }

  lemma {:induction false} ReplacedKeysPlain(j: Json, path: seq<string>, w: Value)
    requires At(j, path).Some? && KeysPlain(j)
    ensures KeysPlain(Replaced(j, path, w))
  {
    if path != [] {
      ReplacedKeysPlain(j.fields[path[0]], path[1..], w);
    }
  }

  lemma {:induction false} ReplacedRefers(j: Json, path: seq<string>, w: Value, names: set<string>)
    requires At(j, path).Some? && RefersOnlyTo(j, names) && w.Scalar?
    ensures RefersOnlyTo(Replaced(j, path, w), names)
  {
    if path != [] {
      ReplacedRefers(j.fields[path[0]], path[1..], w, names);
    } else {
      forall n
        ensures !HasRefTo(TextOf(w), n)
      {
        LiteralHasNoRef(w.dump, n);
      }
    }
  }

  /** The variables section loses dependencies at most. */
  lemma ReplacedSection(j: Json, path: seq<string>, v: Value, w: Value)
    requires SectionOk(j) && j.Obj? && At(j, path) == Some(Leaf(v)) && w.Scalar?
    requires HasSection(j) ==> j.fields[VARIABLES].Obj?
    ensures var j' := Replaced(j, path, w);
            && SectionOk(j') && (HasSection(j') ==> j'.fields[VARIABLES].Obj?)
            && SectionOf(j').Keys == SectionOf(j).Keys
            && forall a, b :: DependsOn(SectionOf(j'), a, b) ==> DependsOn(SectionOf(j), a, b)
  {
    var j' := Replaced(j, path, w);
    if path[0] == VARIABLES {
      var fields := j.fields[VARIABLES].fields;
      var tail := path[1..];
      assert At(j.fields[VARIABLES], tail) == Some(Leaf(v));
      assert tail != [] && At(fields[tail[0]], tail[1..]) == Some(Leaf(v));
      assert tail[1..] == [];
      assert j'.fields[VARIABLES] == Replaced(j.fields[VARIABLES], tail, w);
      assert Replaced(fields[tail[0]], tail[1..], w) == Leaf(w);
      assert j'.fields[VARIABLES].fields == fields[tail[0] := Leaf(w)];
      assert SectionOf(j') == SectionOf(j)[tail[0] := w];
      forall b
        ensures !HasRefTo(TextOf(w), b)
      {
        LiteralHasNoRef(w.dump, b);
      }
    }
  }

  lemma FewerDependencies(vars: Section, vars': Section)
    requires vars'.Keys == vars.Keys
    requires forall a, b :: DependsOn(vars', a, b) ==> DependsOn(vars, a, b)
    ensures HasCycle(vars', vars'.Keys) ==> HasCycle(vars, vars.Keys)
  {
    if HasCycle(vars', vars'.Keys) {
      var walk :| |walk| > 1 && IsWalk(vars', vars'.Keys, walk) && walk[0] == walk[|walk| - 1];
      assert IsWalk(vars, vars.Keys, walk);
    }
  }

  // ----- the protection that a second command line lifts -----

  /** The three updates of FirstCommandLineLost pass the checks. */
  lemma FirstCommandLineLostIsAccepted(variables: bool)
    ensures var one, two := Leaf(Scalar("1")), Leaf(Scalar("2"));
            var nothing, a1, a2 := Obj(map[]), Obj(map["a" := one]), Obj(map["a" := two]);
            && Judged(Begin(), variables, Update(nothing, Some(a1), true))
            && Judged(Document(a1, a1), variables, Update(nothing, Some(nothing), true))
            && Judged(Document(a1, nothing), variables, Update(a2, None, true))
  {
    hide Acceptable, SectionOk;
    var one, two := Leaf(Scalar("1")), Leaf(Scalar("2"));
    var nothing, a1, a2 := Obj(map[]), Obj(map["a" := one]), Obj(map["a" := two]);
    MergeNothing(nothing);
    MergeNothing(a1);
    MergeNothing(a2);
    assert MergePatch(nothing, a1).fields == a1.fields;
    assert MergePatch(a1, a2).fields == a2.fields;
    PlainIsAcceptable("1");
    PlainIsAcceptable("2");
  }

  lemma PlainIsAcceptable(dump: string)
    ensures Acceptable(Obj(map["a" := Leaf(Scalar(dump))]))
  {
    hide HasCycle, Acceptable;
    var leaf := Leaf(Scalar(dump));
    var j := Obj(map["a" := leaf]);
    assert "a"[1..] == "" && !Occurs("", "${") && !Occurs("a", "${");
    assert |VARIABLES| != |"a"| && !HasSection(j);
    assert SectionOf(j).Keys == {};
    NothingHasNoCycle(SectionOf(j));
    forall n
      ensures !HasRefTo(TextOf(Scalar(dump)), n)
    {
      LiteralHasNoRef(dump, n);
    }
    assert KeysPlain(leaf) && RefersOnlyTo(leaf, {});
    AcceptableByWalks(j);
  }
}
