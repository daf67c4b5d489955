/** The checks and the resolution of whole documents on strings, as the source performs them, and
    what they amount to: reading every string as tokens, they are those of Configuration. */
module TextualConfiguration {
  import opened Common
  import opened VariableText
  import opened Variables
  import opened Json
  import opened DocumentResolution
  import opened TextualResolution
  import opened Configuration

  type TextJson = Tree<TextValue>

  // ----- the source's operations -----

  /** WalkAllElements when resolving */
  function ResolveStrings(d: TextJson, vars: TextSection, order: seq<string>): TextJson
    requires forall name <- order :: name in vars
    decreases d
  {
    match d
    case Null => Null
    case Leaf(v) => Leaf(ResolveString(v, vars, order))
    case Obj(fields) => Obj(map key | key in fields :: ResolveStrings(fields[key], vars, order))
  }

  /** CheckAllVariablesAreResolved */
  predicate NothingOpen(d: TextJson) {
    match d
    case Null => true
    case Leaf(v) => v.Written? ==> !Occurs(v.text, "${")
    case Obj(fields) => forall key :: key in fields ==> NothingOpen(fields[key])
  }

  function ResolveText(d: TextJson, order: seq<string>): Resolution<TextValue>
    requires SectionOk(d) && Enumerates(order, SectionOf(d).Keys)
  {
    if !HasSection(d) then Resolved(d)
    else if !d.fields[VARIABLES].Obj? then Failed(JsonException)
    else
      var r := EliminateAllStrings(SectionOf(d), order);
      if r.Circular? then Failed(CircularDependency)
      else Resolved(ResolveStrings(Obj(d.fields[VARIABLES := AsJson(r.value)]), r.value, order))
  }

  /** The checks of VerifyAndMerge */
  function VerifyText(d: TextJson, order: seq<string>): Outcome
    requires SectionOk(d) && Enumerates(order, SectionOf(d).Keys)
  {
    if !KeysPlain(d) then VariableUsedInKey
    else
      match ResolveText(d, order)
      case Failed(outcome) => outcome
      case Resolved(json) => if NothingOpen(json) then Updated else UndefinedVariable
  }

  // ----- reading and writing documents -----

  function ReadValue(v: TextValue): Value {
    match v
    case Dumped(dump) => Scalar(dump)
    case Written(text) => Str(Tokens(text))
  }

  function Read(d: TextJson): Json {
    match d
    case Null => Null
    case Leaf(v) => Leaf(ReadValue(v))
    case Obj(fields) => Obj(map key | key in fields :: Read(fields[key]))
  }

  function Write(j: Json): TextJson {
    match j
    case Null => Null
    case Leaf(v) => Leaf(RenderValue(v))
    case Obj(fields) => Obj(map key | key in fields :: Write(fields[key]))
  }

  ghost predicate TreeOk(j: Json) {
    match j
    case Null => true
    case Leaf(v) => ValueOk(v)
    case Obj(fields) => forall key :: key in fields ==> TreeOk(fields[key])
  }

  /** In every string, a dollar sign begins a reference or is followed by an ordinary character
      other than an opening brace; and no variable's name holds a closing brace. */
  ghost predicate Tidy(d: TextJson)
    requires SectionOk(d)
  {
    TreeOk(Read(d)) && forall name :: name in SectionOf(d) ==> '}' !in name
  }

  lemma ValueIsRead(v: TextValue)
    ensures RenderValue(ReadValue(v)) == v
  {
    if v.Written? {
      TokensRender(v.text);
    }
  }

  lemma {:induction false} ReadThenWrite(d: TextJson)
    ensures Write(Read(d)) == d
    decreases d
  {
    match d
    case Null =>
    case Leaf(v) => ValueIsRead(v);
    case Obj(fields) =>
      forall key | key in fields
        ensures Write(Read(fields[key])) == fields[key]
      {
        ReadThenWrite(fields[key]);
      }
      assert Write(Read(d)).fields == fields;
  }

  lemma {:induction false} WriteThenRead(j: Json)
    requires TreeOk(j)
    ensures Read(Write(j)) == j
    decreases j
  {
    match j
    case Null =>
    case Leaf(v) =>
      if v.Str? {
        RenderTokens(v.text);
      }
    case Obj(fields) =>
      forall key | key in fields
        ensures Read(Write(fields[key])) == fields[key]
      {
        WriteThenRead(fields[key]);
      }
      assert Read(Write(j)).fields == fields;
  }

  lemma {:induction false} SameKeys(d: TextJson)
    ensures KeysPlain(Read(d)) <==> KeysPlain(d)
    decreases d
  {
    hide Occurs;
    if d.Obj? {
      forall key | key in d.fields
        ensures KeysPlain(Read(d.fields[key])) <==> KeysPlain(d.fields[key])
      {
        SameKeys(d.fields[key]);
      }
    }
  }

  lemma {:induction false} FoundLater(s: string, i: nat, pattern: string)
    requires i <= |s| && pattern <= s[i..] && pattern != ""
    ensures Occurs(s, pattern)
  {
    if i > 0 {
      assert s[1..][i - 1..] == s[i..];
      FoundLater(s[1..], i - 1, pattern);
    }
  }

  lemma PlainKey(name: string)
    requires !Occurs(name, "${") && '}' !in name
    ensures NameOk(name)
  {
    hide Occurs;
    forall i | 0 <= i < |name|
      ensures i + 1 < |name| ==> !(name[i] == '$' && name[i + 1] == '{')
    {
      if "${" <= name[i..] {
        FoundLater(name, i, "${");
      }
    }
  }

  lemma KindIsRead(d: TextJson)
    ensures (Read(d).Obj? <==> d.Obj?) && (Read(d).Null? <==> d.Null?)
    ensures d.Leaf? ==> Read(d) == Leaf(ReadValue(d.value))
    ensures d.Obj? ==> Read(d).fields.Keys == d.fields.Keys
  {
  }

  lemma FieldIsRead(d: TextJson, key: string)
    ensures key in FieldsOf(Read(d)) <==> key in FieldsOf(d)
    ensures key in FieldsOf(d) ==>
              FieldsOf(Read(d))[key] == Read(FieldsOf(d)[key]) &&
              (Read(FieldsOf(d)[key]).Null? <==> FieldsOf(d)[key].Null?)
  {
  }

  /** The variables section of the document that was read */
  lemma SectionIsRead(d: TextJson)
    requires SectionOk(d)
    ensures SectionOk(Read(d)) && HasSection(Read(d)) == HasSection(d)
    ensures HasSection(d) ==> (Read(d).fields[VARIABLES].Obj? <==> d.fields[VARIABLES].Obj?)
    ensures SectionOf(Read(d)) == map name | name in SectionOf(d) :: ReadValue(SectionOf(d)[name])
    ensures SectionOf(Read(d)).Keys == SectionOf(d).Keys
  {
    hide Read, ReadValue;
    KindIsRead(d);
    if HasSection(d) {
      var section := d.fields[VARIABLES];
      FieldIsRead(d, VARIABLES);
      KindIsRead(section);
      if section.Obj? {
        forall name | name in section.fields
          ensures Read(section).fields[name] == Leaf(ReadValue(section.fields[name].value))
        {
          FieldIsRead(section, name);
          KindIsRead(section.fields[name]);
        }
      }
    }
  }

  lemma SectionIsWritten(d: TextJson)
    requires SectionOk(d) && SectionOk(Read(d))
    ensures RenderSection(SectionOf(Read(d))) == SectionOf(d)
  {
    hide Read, ReadValue, RenderValue, SectionOf;
    SectionIsRead(d);
    forall name | name in SectionOf(d)
      ensures RenderValue(SectionOf(Read(d))[name]) == SectionOf(d)[name]
    {
      ValueIsRead(SectionOf(d)[name]);
    }
  }

  lemma SectionIsWellFormed(d: TextJson)
    requires SectionOk(d) && SectionOk(Read(d)) && Tidy(d) && KeysPlain(d)
    ensures SectionWellFormed(SectionOf(Read(d)))
  {
    hide Occurs, NameOk, ValueOk, ReadValue, Read;
    SectionIsRead(d);
    if HasSection(d) && d.fields[VARIABLES].Obj? {
      var section := d.fields[VARIABLES];
      FieldIsRead(d, VARIABLES);
      assert KeysPlain(section) && TreeOk(Read(section));
      forall name | name in section.fields
        ensures NameOk(name) && ValueOk(ReadValue(section.fields[name].value))
      {
        FieldIsRead(section, name);
        KindIsRead(section.fields[name]);
        assert TreeOk(Read(section).fields[name]);
        PlainKey(name);
      }
    }
  }

  // ----- agreement -----

  lemma {:induction false} TreeAgrees(j: Json, vars: Section, order: seq<string>)
    requires SectionWellFormed(vars) && TreeOk(j) && forall name <- order :: name in vars
    ensures ResolveStrings(Write(j), RenderSection(vars), order) == Write(ResolveTree(j, vars, order))
    ensures TreeOk(ResolveTree(j, vars, order))
    decreases j
  {
    hide SectionWellFormed, ValueOk;
    match j
    case Null =>
    case Leaf(v) => ResolveAgrees(v, vars, order);
    case Obj(fields) =>
      forall key | key in fields
        ensures ResolveStrings(Write(fields[key]), RenderSection(vars), order) ==
                Write(ResolveTree(fields[key], vars, order))
        ensures TreeOk(ResolveTree(fields[key], vars, order))
      {
        TreeAgrees(fields[key], vars, order);
      }
      assert ResolveStrings(Write(j), RenderSection(vars), order).fields == Write(ResolveTree(j, vars, order)).fields;
  }

  lemma {:induction false} OpenAgrees(j: Json)
    requires TreeOk(j)
    ensures NothingOpen(Write(j)) <==> FullyResolved(j)
    decreases j
  {
    hide Occurs;
    match j
    case Null =>
    case Leaf(v) =>
      if v.Str? {
        OpeningIsHasRef(v.text);
      }
    case Obj(fields) =>
      forall key | key in fields
        ensures NothingOpen(Write(j).fields[key]) <==> FullyResolved(fields[key])
      {
        OpenAgrees(fields[key]);
      }
      assert Write(j).fields.Keys == fields.Keys;
  }

  /** A document with a resolved section, written out. */
  lemma WriteSection(fields: map<string, Json>, vars: Section)
    ensures Write(Obj(fields[VARIABLES := AsJson(vars)])) ==
            Obj(Write(Obj(fields)).fields[VARIABLES := AsJson(RenderSection(vars))])
  {
    assert Write(AsJson(vars)).fields == AsJson(RenderSection(vars)).fields;
    assert Write(Obj(fields[VARIABLES := AsJson(vars)])).fields ==
           Write(Obj(fields)).fields[VARIABLES := AsJson(RenderSection(vars))];
  }

  lemma SectionTreeOk(j: Json, vars: Section)
    requires j.Obj? && TreeOk(j) && SectionWellFormed(vars)
    ensures TreeOk(Obj(j.fields[VARIABLES := AsJson(vars)]))
  {
    var fields := j.fields[VARIABLES := AsJson(vars)];
    assert TreeOk(AsJson(vars)) by {
      forall v | v in vars
        ensures TreeOk(AsJson(vars).fields[v])
      {
      }
    }
    assert forall key :: key in fields ==> TreeOk(fields[key]);
  }

  /** Resolving a document on its strings is resolving it on tokens and writing out the result. */
  lemma ResolveTextAgrees(d: TextJson, order: seq<string>)
    requires SectionOk(d) && Tidy(d) && KeysPlain(d) && Enumerates(order, SectionOf(d).Keys)
    ensures SectionOk(Read(d)) && Enumerates(order, SectionOf(Read(d)).Keys)
    ensures ResolveText(d, order) ==
            match ResolveVariables(Read(d), order)
            case Resolved(json) => Resolved(Write(json))
            case Failed(outcome) => Failed(outcome)
    ensures ResolveVariables(Read(d), order).Resolved? ==> TreeOk(ResolveVariables(Read(d), order).json)
  {
    hide TreeOk, KeysPlain, SectionWellFormed, EliminateAll, EliminateAllStrings, ResolveTree, ResolveStrings;
    hide Read, Write;
    SectionIsRead(d);
    SectionIsWritten(d);
    SectionIsWellFormed(d);
    ReadThenWrite(d);
    var j := Read(d);
    var vars := SectionOf(j);
    if HasSection(d) && d.fields[VARIABLES].Obj? {
      EliminateAllAgrees(vars, order);
      if EliminateAll(vars, order).Ok? {
        var resolved := EliminateAll(vars, order).value;
        WriteSection(j.fields, resolved);
        SectionTreeOk(j, resolved);
        TreeAgrees(Obj(j.fields[VARIABLES := AsJson(resolved)]), resolved, order);
      }
    }
  }

  /** Checking a document on its strings is checking it on tokens. */
  lemma VerifyTextAgrees(d: TextJson, order: seq<string>)
    requires SectionOk(d) && Tidy(d) && Enumerates(order, SectionOf(d).Keys)
    ensures SectionOk(Read(d)) && Enumerates(order, SectionOf(Read(d)).Keys)
    ensures VerifyText(d, order) == Verify(Read(d), order)
  {
    hide Tidy, KeysPlain, ResolveText, ResolveVariables, FullyResolved, NothingOpen, TreeOk;
    SectionIsRead(d);
    SameKeys(d);
    if KeysPlain(d) {
      ResolveTextAgrees(d, order);
      if ResolveVariables(Read(d), order).Resolved? {
        OpenAgrees(ResolveVariables(Read(d), order).json);
      }
    }
  }

  // ----- what is promised about strings -----

  /** No string at any path holds the opening of a reference. */
  ghost predicate NoOpeningAnywhere(d: TextJson) {
    forall path, text :: At(d, path) == Some(Leaf(Written(text))) ==> !Contains(text, "${")
  }

  lemma {:induction false} NotOpenAtPath(d: TextJson, path: seq<string>, text: string)
    requires NothingOpen(d) && At(d, path) == Some(Leaf(Written(text)))
    ensures !Contains(text, "${")
  {
    hide Occurs, Contains;
    if path == [] {
      OccursExactly(text, "${");
    } else {
      NotOpenAtPath(d.fields[path[0]], path[1..], text);
    }
  }

  lemma {:induction false} NothingOpenExactly(d: TextJson)
    ensures NothingOpen(d) <==> NoOpeningAnywhere(d)
    decreases d
  {
    hide Occurs, Contains;
    if NothingOpen(d) {
      forall path, text | At(d, path) == Some(Leaf(Written(text)))
        ensures !Contains(text, "${")
      {
        NotOpenAtPath(d, path, text);
      }
    }
    if NoOpeningAnywhere(d) {
      if d.Leaf? && d.value.Written? {
        assert At(d, []) == Some(Leaf(Written(d.value.text)));
        OccursExactly(d.value.text, "${");
      } else if d.Obj? {
        forall key | key in d.fields
          ensures NothingOpen(d.fields[key])
        {
          forall path, text | At(d.fields[key], path) == Some(Leaf(Written(text)))
            ensures !Contains(text, "${")
          {
            AtOneKey(d, key, path);
            assert At(d, [key] + path) == Some(Leaf(Written(text)));
          }
          NothingOpenExactly(d.fields[key]);
        }
      }
    }
  }

  /** A document is accepted exactly if, read as tokens, it is acceptable; a resolved dump of it then
      holds the opening of a reference nowhere, and is the document that Configuration describes. */
  lemma AcceptedTextExactly(d: TextJson, order: seq<string>)
    requires SectionOk(d) && Tidy(d) && Enumerates(order, SectionOf(d).Keys)
    ensures SectionOk(Read(d)) && Enumerates(order, SectionOf(Read(d)).Keys)
    ensures VerifyText(d, order) == Updated <==> Acceptable(Read(d))
    ensures Acceptable(Read(d)) ==>
              && ResolveText(d, order).Resolved? && NoOpeningAnywhere(ResolveText(d, order).json)
              && ResolvedExactly(Read(d), Read(ResolveText(d, order).json), order)
  {
    hide Tidy, KeysPlain, ResolveText, ResolveVariables, FullyResolved, NothingOpen, TreeOk, Verify;
    hide ResolvedExactly, Acceptable, NoOpeningAnywhere;
    VerifyTextAgrees(d, order);
    AcceptedExactly(Read(d), order);
    if Acceptable(Read(d)) {
      SameKeys(d);
      ResolveTextAgrees(d, order);
      AcceptableResolves(Read(d), order);
      ResolvedMeans(Read(d), order);
      var json := ResolveVariables(Read(d), order).json;
      OpenAgrees(json);
      NothingOpenExactly(ResolveText(d, order).json);
      WriteThenRead(json);
    }
  }

  // ----- strings that nothing can resolve -----

  /** The string opens a reference, but holds none to any of the names: it is unterminated, or to a
      variable that is not defined. */
  ghost predicate Unresolvable(v: TextValue, names: set<string>) {
    v.Written? && Occurs(v.text, "${") && forall name :: name in names ==> !Occurs(v.text, Reference(name))
  }

  ghost predicate HasUnresolvable(d: TextJson, names: set<string>) {
    match d
    case Null => false
    case Leaf(v) => Unresolvable(v, names)
    case Obj(fields) => exists key :: key in fields && HasUnresolvable(fields[key], names)
  }

  lemma {:induction false} NothingReplaced(s: string, pattern: string, insert: string)
    requires pattern != "" && !Occurs(s, pattern)
    ensures ReplaceAll(s, pattern, insert) == s
  {
    if s != "" {
      NothingReplaced(s[1..], pattern, insert);
    }
  }

  lemma UnresolvableStays(v: TextValue, names: set<string>, name: string, value: TextValue)
    requires Unresolvable(v, names) && name in names
    ensures ResolveSingleString(v, name, value) == v
  {
    hide Occurs, ReplaceAll;
    FoundAtFront(Reference(name));
    NothingReplaced(v.text, Reference(name), StringOf(value));
  }

  lemma {:induction false} UnresolvableElement(v: TextValue, names: set<string>, vars: TextSection, order: seq<string>)
    requires Unresolvable(v, names) && forall name <- order :: name in names && name in vars
    ensures ResolveString(v, vars, order) == v
    decreases |order|
  {
    hide Unresolvable, ResolveSingleString;
    if order != [] {
      UnresolvableStays(v, names, order[0], vars[order[0]]);
      UnresolvableElement(v, names, vars, order[1..]);
    }
  }

  lemma {:induction false} UnresolvableVariable(vars: TextSection, order: seq<string>, n: string)
    requires n in vars && Unresolvable(vars[n], vars.Keys) && forall name <- order :: name in vars
    ensures EliminateAllStrings(vars, order).Ok? ==> EliminateAllStrings(vars, order).value[n] == vars[n]
    decreases |order|
  {
    hide Unresolvable, ResolveSingleString, Occurs;
    if order != [] && EliminateString(vars, order[0]).Ok? {
      UnresolvableStays(vars[n], vars.Keys, order[0], vars[order[0]]);
      UnresolvableVariable(EliminateString(vars, order[0]).value, order[1..], n);
    }
  }

  lemma {:induction false} UnresolvableTree(d: TextJson, names: set<string>, vars: TextSection, order: seq<string>)
    requires HasUnresolvable(d, names) && forall name <- order :: name in names && name in vars
    ensures !NothingOpen(ResolveStrings(d, vars, order))
    decreases d
  {
    hide Occurs, ResolveString;
    match d
    case Leaf(v) => UnresolvableElement(v, names, vars, order);
    case Obj(fields) =>
      var key :| key in fields && HasUnresolvable(fields[key], names);
      UnresolvableTree(fields[key], names, vars, order);
      assert !NothingOpen(ResolveStrings(d, vars, order).fields[key]);
  }

  lemma {:induction false} UnresolvableIsOpen(d: TextJson, names: set<string>)
    requires HasUnresolvable(d, names)
    ensures !NothingOpen(d)
    decreases d
  {
    hide Occurs;
    if d.Obj? {
      var key :| key in d.fields && HasUnresolvable(d.fields[key], names);
      UnresolvableIsOpen(d.fields[key], names);
    }
  }

  /** Resolving the section does not help. */
  lemma UnresolvableSection(d: TextJson, order: seq<string>)
    requires SectionOk(d) && HasSection(d) && d.fields[VARIABLES].Obj?
    requires HasUnresolvable(d, SectionOf(d).Keys) && Enumerates(order, SectionOf(d).Keys)
    requires EliminateAllStrings(SectionOf(d), order).Ok?
    ensures HasUnresolvable(Obj(d.fields[VARIABLES := AsJson(EliminateAllStrings(SectionOf(d), order).value)]),
                         SectionOf(d).Keys)
  {
    hide Unresolvable, EliminateAllStrings;
    var names, resolved := SectionOf(d).Keys, EliminateAllStrings(SectionOf(d), order).value;
    var key :| key in d.fields && HasUnresolvable(d.fields[key], names);
    var fields := d.fields[VARIABLES := AsJson(resolved)];
    if key == VARIABLES {
      var n :| n in d.fields[VARIABLES].fields && HasUnresolvable(d.fields[VARIABLES].fields[n], names);
      UnresolvableVariable(SectionOf(d), order, n);
      assert HasUnresolvable(AsJson(resolved).fields[n], names);
    }
    assert HasUnresolvable(fields[key], names);
  }

  /** Whatever other strings there are, a document with a string that opens a reference but holds
      none to a defined variable is refused. */
  lemma UnresolvableIsRefused(d: TextJson, order: seq<string>)
    requires SectionOk(d) && Enumerates(order, SectionOf(d).Keys) && HasUnresolvable(d, SectionOf(d).Keys)
    ensures VerifyText(d, order) != Updated
  {
    hide KeysPlain, NothingOpen, ResolveStrings, HasUnresolvable, EliminateAllStrings;
    if HasSection(d) && d.fields[VARIABLES].Obj? {
      if EliminateAllStrings(SectionOf(d), order).Ok? {
        var resolved := EliminateAllStrings(SectionOf(d), order).value;
        UnresolvableSection(d, order);
        UnresolvableTree(Obj(d.fields[VARIABLES := AsJson(resolved)]), SectionOf(d).Keys, resolved, order);
      }
    } else {
      UnresolvableIsOpen(d, SectionOf(d).Keys);
    }
  }

  // ----- merging -----

  lemma {:induction false} MergeIsRead(target: TextJson, patch: TextJson)
    ensures Read(MergePatch(target, patch)) == MergePatch(Read(target), Read(patch))
    decreases patch
  {
    hide ReadValue;
    if patch.Obj? {
      var fields, fields' := FieldsOf(target), FieldsOf(Read(target));
      assert fields'.Keys == fields.Keys && forall key :: key in fields ==> fields'[key] == Read(fields[key]);
      forall key | key in patch.fields && !patch.fields[key].Null?
        ensures Read(MergePatch(FieldOrNull(fields, key), patch.fields[key])) ==
                MergePatch(FieldOrNull(fields', key), Read(patch).fields[key])
      {
        MergeIsRead(FieldOrNull(fields, key), patch.fields[key]);
      }
      FieldByField(target, patch);
    }
  }

  lemma FieldByField(target: TextJson, patch: TextJson)
    requires patch.Obj?
    requires forall key :: key in patch.fields && !patch.fields[key].Null? ==>
               Read(MergePatch(FieldOrNull(FieldsOf(target), key), patch.fields[key])) ==
               MergePatch(FieldOrNull(FieldsOf(Read(target)), key), Read(patch).fields[key])
    ensures Read(MergePatch(target, patch)) == MergePatch(Read(target), Read(patch))
  {
    hide MergePatch;
    var m, m' := MergePatch(target, patch), MergePatch(Read(target), Read(patch));
    MergedField(target, patch, "");
    MergedField(Read(target), Read(patch), "");
    forall key
      ensures key in m.fields <==> key in m'.fields
      ensures key in m.fields ==> Read(m.fields[key]) == m'.fields[key]
    {
      MergedField(target, patch, key);
      MergedField(Read(target), Read(patch), key);
      FieldIsRead(target, key);
      FieldIsRead(patch, key);
    }
    assert Read(m).fields == m'.fields;
  }

  /** VerifyAndMerge on strings: the merged document is accepted exactly if merging the documents
      read as tokens gives an acceptable one. */
  lemma MergedTextAgrees(json: TextJson, update: TextJson, immutable: TextJson, order: seq<string>)
    requires var merged := MergePatch(MergePatch(json, update), immutable);
             SectionOk(merged) && Tidy(merged) && Enumerates(order, SectionOf(merged).Keys)
    ensures var merged := MergePatch(MergePatch(Read(json), Read(update)), Read(immutable));
            && SectionOk(merged) && Enumerates(order, SectionOf(merged).Keys)
            && VerifyText(MergePatch(MergePatch(json, update), immutable), order) == Verify(merged, order)
            && (Verify(merged, order) == Updated <==> Acceptable(merged))
  {
    hide Tidy, KeysPlain, VerifyText, Verify, Acceptable, MergePatch, Read;
    var once := MergePatch(json, update);
    MergeIsRead(json, update);
    MergeIsRead(once, immutable);
    VerifyTextAgrees(MergePatch(once, immutable), order);
    AcceptedExactly(Read(MergePatch(once, immutable)), order);
  }
}
