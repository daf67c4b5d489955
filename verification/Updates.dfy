/** Updating a configuration, apart from the checks: what a sequence of accepted and refused
    updates makes of the document and of the part that is immutable. */
module Updates {
  import opened Common
  import opened Variables
  import opened Json

  datatype Document = Document(json: Json, immutable: Json)

  /** A command line update has a direct part besides the files it names. */
  datatype Update = Update(doc: Json, direct: Option<Json>, accepted: bool)

  function Begin(): Document {
    Document(Obj(map[]), Obj(map[]))
  }

  function Merged(d: Document, u: Update): Json {
    MergePatch(MergePatch(d.json, u.doc), if u.direct.Some? then u.direct.value else d.immutable)
  }

  function Apply(d: Document, mutableCmdLine: bool, u: Update): Document {
    if !u.accepted then d
    else Document(Merged(d, u), if u.direct.Some? && !mutableCmdLine then u.direct.value else d.immutable)
  }

  function Run(d: Document, mutableCmdLine: bool, updates: seq<Update>): Document {
    if updates == [] then d
    else
      var n := |updates| - 1;
      Apply(Run(d, mutableCmdLine, updates[..n]), mutableCmdLine, updates[n])
  }

  ghost predicate DirectOk(u: Update) {
    u.direct.Some? ==> u.direct.value.Obj?
  }

  /** The document is an object that merging the immutable part once more would not change. */
  ghost predicate Absorbed(d: Document, mutableCmdLine: bool) {
    && d.json.Obj? && d.immutable.Obj? && MergePatch(d.json, d.immutable) == d.json
    && (mutableCmdLine ==> d.immutable == Obj(map[]))
  }

  lemma MergeNothing(j: Json)
    requires j.Obj?
    ensures MergePatch(j, Obj(map[])) == j
  {
    assert MergePatch(j, Obj(map[])).fields == j.fields;
  }

  lemma ApplyKeepsAbsorbed(d: Document, mutableCmdLine: bool, u: Update)
    requires Absorbed(d, mutableCmdLine) && DirectOk(u)
    ensures Absorbed(Apply(d, mutableCmdLine, u), mutableCmdLine)
  {
    MergeIsIdempotent(MergePatch(d.json, u.doc), if u.direct.Some? then u.direct.value else d.immutable);
    if u.accepted {
      MergeNothing(Merged(d, u));
    }
  }

  lemma {:induction false} RunKeepsAbsorbed(d: Document, mutableCmdLine: bool, updates: seq<Update>)
    requires Absorbed(d, mutableCmdLine) && forall u <- updates :: DirectOk(u)
    ensures Absorbed(Run(d, mutableCmdLine, updates), mutableCmdLine)
  {
    hide Absorbed;
    if updates != [] {
      var n := |updates| - 1;
      RunKeepsAbsorbed(d, mutableCmdLine, updates[..n]);
      ApplyKeepsAbsorbed(Run(d, mutableCmdLine, updates[..n]), mutableCmdLine, updates[n]);
    }
  }

  /** The position of the last accepted command line, or -1 */
  function LastCommandLine(updates: seq<Update>): (i: int)
    ensures -1 <= i < |updates|
    ensures i >= 0 ==> updates[i].direct.Some? && updates[i].accepted
    ensures forall k :: i < k < |updates| ==> updates[k].direct.None? || !updates[k].accepted
  {
    if updates == [] then -1
    else
      var n := |updates| - 1;
      if updates[n].direct.Some? && updates[n].accepted then n else LastCommandLine(updates[..n])
  }

  /** Immutable is what the last accepted command line gave directly, and nothing else: a further
      command line lifts the protection of what earlier ones gave. */
  lemma {:induction false} ImmutableIsLast(d: Document, updates: seq<Update>)
    ensures var i := LastCommandLine(updates);
            Run(d, false, updates).immutable == if i >= 0 then updates[i].direct.value else d.immutable
  {
    if updates != [] {
      ImmutableIsLast(d, updates[..|updates| - 1]);
    }
  }

  /** Whatever comes after it, and whatever the checks say, the values of the last accepted command
      line stand in the document. */
  lemma LastCommandLineStands(d: Document, updates: seq<Update>, path: seq<string>, v: Value)
    requires Absorbed(d, false) && forall u <- updates :: DirectOk(u)
    requires LastCommandLine(updates) >= 0
    requires At(updates[LastCommandLine(updates)].direct.value, path) == Some(Leaf(v))
    ensures At(Run(d, false, updates).json, path) == Some(Leaf(v))
  {
    ImmutableIsLast(d, updates);
    RunKeepsAbsorbed(d, false, updates);
    AbsorbedValues(Run(d, false, updates).json, Run(d, false, updates).immutable, path, v);
  }

  /** What a command line itself does to a value: its direct part decides, then its files, and only
      what neither decides about stays. */
  lemma {:induction false} CommandLineValues(d: Document, mutableCmdLine: bool, files: Json, direct: Json,
                                             path: seq<string>, v: Value)
    ensures var d' := Apply(d, mutableCmdLine, Update(files, Some(direct), true));
            At(d'.json, path) == Some(Leaf(v)) <==>
              At(if Decides(direct, path) then direct else if Decides(files, path) then files else d.json, path)
              == Some(Leaf(v))
  {
    MergedValues(MergePatch(d.json, files), direct, path, v);
    MergedValues(d.json, files, path, v);
  }

  /** A second command line without a value, then an update: the value of the first is gone. */
  lemma FirstCommandLineLost()
    ensures var one, two := Leaf(Scalar("1")), Leaf(Scalar("2"));
            var nothing, a1, a2 := Obj(map[]), Obj(map["a" := one]), Obj(map["a" := two]);
            var run := [Update(nothing, Some(a1), true), Update(nothing, Some(nothing), true), Update(a2, None, true)];
            && Run(Begin(), false, run[..1]) == Document(a1, a1)
            && Run(Begin(), false, run) == Document(a2, nothing)
  {
    var one, two := Leaf(Scalar("1")), Leaf(Scalar("2"));
    var nothing, a1, a2 := Obj(map[]), Obj(map["a" := one]), Obj(map["a" := two]);
    var run := [Update(nothing, Some(a1), true), Update(nothing, Some(nothing), true), Update(a2, None, true)];
    MergeNothing(nothing);
    MergeNothing(a1);
    MergeNothing(a2);
    assert MergePatch(nothing, a1).fields == a1.fields;
    assert MergePatch(a1, a2).fields == a2.fields;
    assert run[..1][..0] == [] && run[..2][..1] == run[..1] && run[..3] == run;
    assert Run(Begin(), false, run[..1]) == Apply(Begin(), false, run[0]) == Document(a1, a1);
    assert Run(Begin(), false, run[..2]) == Apply(Document(a1, a1), false, run[1]) == Document(a1, nothing);
    assert Run(Begin(), false, run) == Apply(Document(a1, nothing), false, run[2]);
  }

  // ----- replacing one value -----

  /** The patch that puts one value at a path */
  function PatchFor(path: seq<string>, w: Value): Json {
    if path == [] then Leaf(w) else Obj(map[path[0] := PatchFor(path[1..], w)])
  }

  function Replaced(j: Json, path: seq<string>, w: Value): Json
    requires At(j, path).Some?
  {
    if path == [] then Leaf(w) else Obj(j.fields[path[0] := Replaced(j.fields[path[0]], path[1..], w)])
  }

  lemma {:induction false} PatchReplaces(j: Json, path: seq<string>, w: Value)
    requires At(j, path).Some?
    ensures MergePatch(j, PatchFor(path, w)) == Replaced(j, path, w)
    ensures At(Replaced(j, path, w), path) == Some(Leaf(w))
  {
    if path != [] {
      PatchReplaces(j.fields[path[0]], path[1..], w);
      assert MergePatch(j, PatchFor(path, w)).fields == Replaced(j, path, w).fields;
    }
  }

  /** A patch that does not decide about the path leaves the new value alone. */
  lemma {:induction false} ReplacedStays(j: Json, patch: Json, path: seq<string>, w: Value)
    requires At(j, path).Some? && MergePatch(j, patch) == j && !Decides(patch, path)
    ensures MergePatch(Replaced(j, path, w), patch) == Replaced(j, path, w)
    decreases path
  {
    var key, fields := path[0], j.fields;
    var fields' := Replaced(j, path, w).fields;
    var merged, merged' := MergePatch(j, patch), MergePatch(Replaced(j, path, w), patch);
    assert merged.fields == fields;
    if key in patch.fields {
      ReplacedStays(fields[key], patch.fields[key], path[1..], w);
    }
    assert merged'.fields.Keys == fields.Keys by {
      assert merged.fields.Keys == fields.Keys;
    }
    forall k | k in fields
      ensures merged'.fields[k] == fields'[k]
    {
      assert merged.fields[k] == fields[k];
    }
    assert merged'.fields == fields';
  }
}
