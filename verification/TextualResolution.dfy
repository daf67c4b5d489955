/** The resolution of variables on strings, as the source performs it with find and replace_all, is
    the resolution on tokens: for well-formed strings every round gives the same, and gives
    well-formed strings again. */
module TextualResolution {
  import opened Common
  import opened VariableText
  import opened Variables
  import opened DocumentResolution

  datatype TextValue = Dumped(dump: string) | Written(text: string)

  type TextSection = map<string, TextValue>

  function StringOf(v: TextValue): string {
    match v
    case Dumped(dump) => dump
    case Written(text) => text
  }

  // ----- the source's operations -----

  /** ResolveSingleVariable */
  function ResolveSingleString(elem: TextValue, name: string, value: TextValue): TextValue {
    if elem.Dumped? then elem
    else if elem.text == Reference(name) then value
    else Written(ReplaceAll(elem.text, Reference(name), StringOf(value)))
  }

  /** A round of ResolveVariablesSections, with CheckCircularVariableDependency */
  function EliminateString(vars: TextSection, name: string): (r: Result<TextSection>)
    requires name in vars
    ensures r.Ok? ==> r.value.Keys == vars.Keys
  {
    var value := vars[name];
    if value.Written? && Occurs(value.text, Reference(name)) then Circular(name)
    else Ok(map v | v in vars :: ResolveSingleString(vars[v], name, value))
  }

  function EliminateAllStrings(vars: TextSection, order: seq<string>): (r: Result<TextSection>)
    requires forall name <- order :: name in vars
    ensures r.Ok? ==> r.value.Keys == vars.Keys
  {
    if order == [] then Ok(vars)
    else
      var r := EliminateString(vars, order[0]);
      if r.Circular? then r else EliminateAllStrings(r.value, order[1..])
  }

  /** What the walk over a document does to one element */
  function ResolveString(v: TextValue, vars: TextSection, order: seq<string>): TextValue
    requires forall name <- order :: name in vars
    decreases order
  {
    if order == [] then v
    else ResolveString(ResolveSingleString(v, order[0], vars[order[0]]), vars, order[1..])
  }

  // ----- what they are applied to -----

  function RenderValue(v: Value): TextValue {
    match v
    case Scalar(dump) => Dumped(dump)
    case Str(text) => Written(Render(text))
  }

  function RenderSection(vars: Section): TextSection {
    map v | v in vars :: RenderValue(vars[v])
  }

  /** Numbers and truth values are dumped without a dollar sign. */
  predicate ValueOk(v: Value) {
    WellFormed(TextOf(v))
  }

  ghost predicate SectionWellFormed(vars: Section) {
    forall v :: v in vars ==> NameOk(v) && ValueOk(vars[v])
  }

  lemma {:induction false} RenderLiteral(s: string)
    ensures Render(Literal(s)) == s
  {
    if s != "" {
      RenderLiteral(s[1..]);
      assert Literal(s)[1..] == Literal(s[1..]);
    }
  }

  lemma StringIsRendered(v: Value)
    ensures StringOf(RenderValue(v)) == Render(TextOf(v))
  {
    if v.Scalar? {
      RenderLiteral(v.dump);
    }
  }

  lemma {:induction false} SubstKeepsWellFormed(t: Text, name: string, insert: Text)
    requires WellFormed(t) && WellFormed(insert)
    ensures WellFormed(Subst(t, name, insert))
  {
    if t != [] {
      WellFormedRest(t);
      var head, rest := if t[0] == Ref(name) then insert else [t[0]], Subst(t[1..], name, insert);
      SubstKeepsWellFormed(t[1..], name, insert);
      forall i | 0 <= i < |head + rest|
        ensures TokenOk(head + rest, i)
      {
        assert TokenOk(t, 0) && (t[0] == Ref(name) && i < |insert| ==> TokenOk(insert, i));
        assert i >= |head| ==> TokenOk(rest, i - |head|);
        assert i >= |head| ==> (head + rest)[i..] == rest[i - |head|..];
      }
    }
  }

  // ----- agreement, step by step -----

  lemma SingleAgrees(elem: Value, name: string, value: Value)
    requires ValueOk(elem) && ValueOk(value) && NameOk(name)
    ensures ResolveSingleString(RenderValue(elem), name, RenderValue(value)) ==
            RenderValue(ResolveSingle(elem, name, value))
    ensures ValueOk(ResolveSingle(elem, name, value))
  {
    hide WellFormed;
    if elem.Str? {
      EqualIsSingleRef(elem.text, name);
      StringIsRendered(value);
      ReplaceIsSubst(elem.text, name, TextOf(value));
      SubstKeepsWellFormed(elem.text, name, TextOf(value));
    }
  }

  lemma EliminateAgrees(vars: Section, name: string)
    requires SectionWellFormed(vars) && name in vars
    ensures EliminateString(RenderSection(vars), name) ==
            match Eliminate(vars, name)
            case Ok(vars') => Ok(RenderSection(vars'))
            case Circular(n) => Circular(n)
    ensures Eliminate(vars, name).Ok? ==> SectionWellFormed(Eliminate(vars, name).value)
  {
    hide ValueOk, ResolveSingle, ResolveSingleString, RenderValue, HasRefTo;
    CircularAgrees(vars[name], name);
    forall v | v in vars
      ensures ResolveSingleString(RenderSection(vars)[v], name, RenderSection(vars)[name]) ==
              RenderValue(ResolveSingle(vars[v], name, vars[name]))
      ensures ValueOk(ResolveSingle(vars[v], name, vars[name]))
    {
      SingleAgrees(vars[v], name, vars[name]);
    }
    if Eliminate(vars, name).Ok? {
      assert EliminateString(RenderSection(vars), name).value == RenderSection(Eliminate(vars, name).value);
    }
  }

  lemma CircularAgrees(value: Value, name: string)
    requires ValueOk(value) && NameOk(name)
    ensures RenderValue(value).Written? && Occurs(RenderValue(value).text, Reference(name)) <==>
            HasRefTo(TextOf(value), name)
  {
    if value.Str? {
      OccursIsHasRef(value.text, name);
    } else {
      LiteralHasNoRef(value.dump, name);
    }
  }

  // ----- over all rounds -----

  /** Resolving the strings of a section is resolving its tokens and writing out the result. */
  lemma {:induction false} EliminateAllAgrees(vars: Section, order: seq<string>)
    requires SectionWellFormed(vars) && forall name <- order :: name in vars
    ensures EliminateAllStrings(RenderSection(vars), order) ==
            match EliminateAll(vars, order)
            case Ok(vars') => Ok(RenderSection(vars'))
            case Circular(n) => Circular(n)
    ensures EliminateAll(vars, order).Ok? ==> SectionWellFormed(EliminateAll(vars, order).value)
    decreases |order|
  {
    hide Eliminate, EliminateString, SectionWellFormed;
    if order != [] {
      EliminateAgrees(vars, order[0]);
      if Eliminate(vars, order[0]).Ok? {
        EliminateAllAgrees(Eliminate(vars, order[0]).value, order[1..]);
      }
    }
  }

  /** So it is for every other element of a document, and looking for "${" in the result tells
      whether a reference is left. */
  lemma {:induction false} ResolveAgrees(v: Value, vars: Section, order: seq<string>)
    requires SectionWellFormed(vars) && ValueOk(v) && forall name <- order :: name in vars
    ensures ResolveString(RenderValue(v), RenderSection(vars), order) == RenderValue(ResolveElement(v, vars, order))
    ensures ValueOk(ResolveElement(v, vars, order))
    ensures ResolveElement(v, vars, order).Str? ==>
              (Occurs(ResolveString(RenderValue(v), RenderSection(vars), order).text, "${") <==>
               HasRef(ResolveElement(v, vars, order).text))
    decreases |order|
  {
    hide ResolveSingle, ResolveSingleString, Occurs, WellFormed;
    if order == [] {
      if v.Str? {
        OpeningIsHasRef(v.text);
      }
    } else {
      SingleAgrees(v, order[0], vars[order[0]]);
      ResolveAgrees(ResolveSingle(v, order[0], vars[order[0]]), vars, order[1..]);
    }
  }

  /** For other strings it need not be so: with A a single dollar sign, "${A}{B}" becomes a reference
      to B, although neither text holds one. */
  lemma StrayDollarExample()
    ensures ResolveSingleString(Written("${A}{B}"), "A", Written("$")) == Written("${B}")
    ensures Occurs("${B}", Reference("B")) && !Occurs("${A}{B}", Reference("B")) && !Occurs("$", Reference("B"))
  {
    hide Occurs;
    var s := "${A}{B}";
    assert Reference("A") == "${A}" && Reference("B") == "${B}";
    assert "${A}" <= s && s[4..] == "{B}" && "{B}" + "" == "{B}";
    SkipPlain("{B}", "", "${A}", "$");
    assert "$" + "{B}" == "${B}";
    assert "$" + "{A}{B}" == s && s[2] != "${B}"[2];
    NoSecondDollar("{A}{B}", "${B}");
    assert "$" + "" == "$";
    NoSecondDollar("", "${B}");
    FoundAtFront("${B}");
  }

  lemma FoundAtFront(s: string)
    ensures Occurs(s, s)
  {
  }

  lemma NoSecondDollar(rest: string, pattern: string)
    requires '$' !in rest && Opening(pattern) && !(pattern <= "$" + rest)
    ensures !Occurs("$" + rest, pattern)
  {
    assert ("$" + rest)[1..] == rest && rest + "" == rest;
    SkipPlain(rest, "", pattern, "");
  }
}
