/** Strings with variable references, as text and as token sequences. The source works on the
    text, with find and replace_all; everything else in this project works on tokens. The
    lemmas here say that the two agree on well-formed strings: those in which every dollar sign
    that does not begin a reference ${name} is followed by an ordinary character other than an
    opening brace, and names hold no closing brace. */
module VariableText {

  datatype Token = Ch(c: char) | Ref(name: string)

  type Text = seq<Token>

  /** No dollar sign opens a reference, whatever comes behind the string. */
  predicate Plain(u: string) {
    forall i :: 0 <= i < |u| && u[i] == '$' ==> i + 1 < |u| && u[i + 1] != '{'
  }

  predicate NameOk(name: string) {
    '}' !in name && Plain(name + "}")
  }

  predicate TokenOk(t: Text, i: nat)
    requires i < |t|
  {
    if t[i].Ref? then NameOk(t[i].name)
    else t[i].c == '$' ==> i + 1 < |t| && t[i + 1].Ch? && t[i + 1].c != '{'
  }

  predicate WellFormed(t: Text) {
    forall i :: 0 <= i < |t| ==> TokenOk(t, i)
  }

  function Reference(name: string): string {
    "${" + name + "}"
  }

  function Render(t: Text): string {
    if t == [] then ""
    else (if t[0].Ch? then [t[0].c] else Reference(t[0].name)) + Render(t[1..])
  }

  predicate HasRefTo(t: Text, name: string) {
    Ref(name) in t
  }

  predicate HasRef(t: Text) {
    exists i :: 0 <= i < |t| && t[i].Ref?
  }

  /** Every reference to `name` replaced by `by`. */
  function Subst(t: Text, name: string, insert: Text): Text {
    if t == [] then []
    else (if t[0] == Ref(name) then insert else [t[0]]) + Subst(t[1..], name, insert)
  }

  // ----- the text operations of the source -----

  /** std::string::find(pattern) != npos */
  predicate Occurs(s: string, pattern: string) {
    pattern <= s || (s != "" && Occurs(s[1..], pattern))
  }

  ghost predicate Contains(s: string, part: string) {
    exists i :: 0 <= i <= |s| && part <= s[i..]
  }

  /** Which is finding it at some position */
  lemma {:induction false} OccursExactly(s: string, pattern: string)
    requires pattern != ""
    ensures Occurs(s, pattern) <==> Contains(s, pattern)
  {
    if s != "" {
      OccursExactly(s[1..], pattern);
      assert s[0..] == s;
      if Contains(s[1..], pattern) {
        var i :| 0 <= i <= |s[1..]| && pattern <= s[1..][i..];
        assert s[i + 1..] == s[1..][i..];
      }
      if Contains(s, pattern) && !(pattern <= s) {
        var i :| 0 <= i <= |s| && pattern <= s[i..];
        assert i > 0 && s[1..][i - 1..] == s[i..];
      }
    }
  }

  /** boost::replace_all: occurrences from left to right, not looking into what was inserted. */
  function ReplaceAll(s: string, pattern: string, insert: string): string
    requires pattern != ""
  {
    if s == "" then ""
    else if pattern <= s then insert + ReplaceAll(s[|pattern|..], pattern, insert)
    else [s[0]] + ReplaceAll(s[1..], pattern, insert)
  }

  // ----- agreement -----

  predicate Opening(pattern: string) {
    "${" <= pattern
  }

  /** A character that does not open a reference is stepped over. */
  lemma StepChar(c: char, s: string, pattern: string, insert: string)
    requires Opening(pattern) && (c == '$' ==> s != "" && s[0] != '{')
    ensures ReplaceAll([c] + s, pattern, insert) == [c] + ReplaceAll(s, pattern, insert)
    ensures Occurs([c] + s, pattern) <==> Occurs(s, pattern)
  {
    var text := [c] + s;
    assert text[1..] == s && text[0] == c && (s != "" ==> text[1] == s[0]);
    assert pattern[0] == '$' && pattern[1] == '{';
  }

  /** So is a plain string. */
  lemma {:induction false} SkipPlain(u: string, s: string, pattern: string, insert: string)
    requires Plain(u) && Opening(pattern)
    ensures ReplaceAll(u + s, pattern, insert) == u + ReplaceAll(s, pattern, insert)
    ensures Occurs(u + s, pattern) <==> Occurs(s, pattern)
  {
    hide Occurs, ReplaceAll;
    if u == "" {
      assert u + s == s;
    } else {
      assert Plain(u[1..]) by { assert forall i :: 0 <= i < |u[1..]| ==> u[1..][i] == u[i + 1]; }
      SkipPlain(u[1..], s, pattern, insert);
      StepChar(u[0], u[1..] + s, pattern, insert);
      assert u + s == [u[0]] + (u[1..] + s);
      assert [u[0]] + (u[1..] + ReplaceAll(s, pattern, insert)) == u + ReplaceAll(s, pattern, insert);
    }
  }

  lemma {:induction false} SameName(n: string, k: string, s: string)
    requires '}' !in n && '}' !in k && k + "}" <= n + "}" + s
    ensures n == k
  {
    assert (k + "}")[0] == (n + "}" + s)[0];
    assert n != "" ==> n[0] in n && n[0] == (n + "}" + s)[0];
    assert k != "" ==> k[0] in k && k[0] == (k + "}")[0];
    if k != "" {
      assert (k + "}")[1..] == k[1..] + "}";
      assert (n + "}" + s)[1..] == n[1..] + "}" + s;
      SameName(n[1..], k[1..], s);
    }
  }

  /** A reference begins with another one only if they are the same. */
  lemma ReferencePrefix(n: string, k: string, s: string)
    requires NameOk(n) && NameOk(k)
    ensures Reference(k) <= Reference(n) + s <==> n == k
  {
    var text, pattern := Reference(n) + s, Reference(k);
    assert pattern[2..] == k + "}" && text[2..] == n + "}" + s;
    if pattern <= text {
      SameName(n, k, s);
    }
  }

  /** How the text operations get past the reference at the front of a text. */
  lemma StepReference(n: string, k: string, s: string, insert: string)
    requires NameOk(n) && NameOk(k)
    ensures ReplaceAll(Reference(n) + s, Reference(k), insert) ==
            (if n == k then insert else Reference(n)) + ReplaceAll(s, Reference(k), insert)
    ensures Occurs(Reference(n) + s, Reference(k)) <==> n == k || Occurs(s, Reference(k))
  {
    var text, pattern := Reference(n) + s, Reference(k);
    ReferencePrefix(n, k, s);
    if n == k {
      assert text[|pattern|..] == s;
    } else {
      var u := "{" + n + "}";
      assert text[1..] == u + s;
      assert Plain(u) by { assert u == "{" + (n + "}"); }
      assert text[0] == '$';
      SkipPlain(u, s, pattern, insert);
      assert ['$'] + (u + ReplaceAll(s, pattern, insert)) == Reference(n) + ReplaceAll(s, pattern, insert);
    }
  }

  lemma {:induction false} RenderConcat(a: Text, b: Text)
    ensures Render(a + b) == Render(a) + Render(b)
  {
    if a == [] {
      assert a + b == b;
    } else {
      assert (a + b)[1..] == a[1..] + b;
      RenderConcat(a[1..], b);
    }
  }

  /** The rest of a well-formed text is well formed, and stands well behind its first token. */
  lemma WellFormedRest(t: Text)
    requires WellFormed(t) && t != []
    ensures WellFormed(t[1..]) && Render(t) == Render([t[0]]) + Render(t[1..])
    ensures t[0].Ref? ==> NameOk(t[0].name) && Render([t[0]]) == Reference(t[0].name)
    ensures t[0].Ch? ==> Render([t[0]]) == [t[0].c]
    ensures t[0] == Ch('$') ==> t[1..] != [] && Render(t[1..]) != "" && Render(t[1..])[0] != '{'
  {
    forall i | 0 <= i < |t[1..]|
      ensures TokenOk(t[1..], i)
    {
      assert TokenOk(t, i + 1);
    }
    assert TokenOk(t, 0);
    assert t == [t[0]] + t[1..];
    RenderConcat([t[0]], t[1..]);
    assert Render([t[0]]) == (if t[0].Ch? then [t[0].c] else Reference(t[0].name)) + Render([t[0]][1..]);
  }

  /** How the text operations get past the first token. */
  lemma StepToken(t: Text, k: string, insert: string)
    requires WellFormed(t) && t != [] && NameOk(k)
    ensures ReplaceAll(Render(t), Reference(k), insert) ==
            (if t[0] == Ref(k) then insert else Render([t[0]])) + ReplaceAll(Render(t[1..]), Reference(k), insert)
    ensures Occurs(Render(t), Reference(k)) <==> t[0] == Ref(k) || Occurs(Render(t[1..]), Reference(k))
  {
    hide Occurs, ReplaceAll, Render, WellFormed;
    WellFormedRest(t);
    if t[0].Ch? {
      StepChar(t[0].c, Render(t[1..]), Reference(k), insert);
    } else {
      StepReference(t[0].name, k, Render(t[1..]), insert);
    }
  }

  /** Replacing in the text is substituting for the tokens. */
  lemma {:induction false} ReplaceIsSubst(t: Text, k: string, insert: Text)
    requires WellFormed(t) && NameOk(k)
    ensures ReplaceAll(Render(t), Reference(k), Render(insert)) == Render(Subst(t, k, insert))
  {
    hide WellFormed;
    if t != [] {
      WellFormedRest(t);
      StepToken(t, k, Render(insert));
      ReplaceIsSubst(t[1..], k, insert);
      RenderConcat(if t[0] == Ref(k) then insert else [t[0]], Subst(t[1..], k, insert));
    }
  }

  /** Finding a reference in the text is having it as a token. */
  lemma {:induction false} OccursIsHasRef(t: Text, k: string)
    requires WellFormed(t) && NameOk(k)
    ensures Occurs(Render(t), Reference(k)) <==> HasRefTo(t, k)
  {
    hide WellFormed;
    if t != [] {
      WellFormedRest(t);
      StepToken(t, k, "");
      OccursIsHasRef(t[1..], k);
      assert t == [t[0]] + t[1..];
    }
  }

  /** Finding the opening of a reference is having any reference. */
  lemma {:induction false} OpeningIsHasRef(t: Text)
    requires WellFormed(t)
    ensures Occurs(Render(t), "${") <==> HasRef(t)
  {
    hide WellFormed;
    if t != [] {
      WellFormedRest(t);
      OpeningIsHasRef(t[1..]);
      if t[0].Ch? {
        StepChar(t[0].c, Render(t[1..]), "${", "");
        assert HasRef(t) <==> HasRef(t[1..]) by {
          assert forall i :: 0 < i < |t| ==> t[i] == t[1..][i - 1];
        }
      } else {
        assert "${" <= Render(t);
      }
    }
  }

  /** A text equal to a reference is that one token. */
  lemma EqualIsSingleRef(t: Text, k: string)
    requires WellFormed(t) && NameOk(k)
    ensures Render(t) == Reference(k) <==> t == [Ref(k)]
  {
    hide WellFormed;
    assert Render([Ref(k)]) == Reference(k) + Render([Ref(k)][1..]);
    if t != [] {
      WellFormedRest(t);
      assert t == [t[0]] + t[1..];
      assert t[1..] != [] ==> |Render(t[1..])| > 0;
      assert Reference(k)[0] == '$' && Reference(k)[1] == '{';
      if t[0].Ref? && Render(t) == Reference(k) {
        assert Reference(k) <= Reference(t[0].name) + Render(t[1..]);
        ReferencePrefix(t[0].name, k, Render(t[1..]));
      }
    }
  }

  // ----- from text to tokens -----

  /** The end of the reference at the front of a string, if there is one */
  function Closing(s: string): (n: nat)
    requires '}' in s
    ensures n < |s| && s[n] == '}' && '}' !in s[..n]
  {
    if s[0] == '}' then 0
    else
      assert s == [s[0]] + s[1..];
      var n := 1 + Closing(s[1..]);
      assert s[..n] == [s[0]] + s[1..][..n - 1];
      n
  }

  predicate ReferenceAhead(s: string) {
    "${" <= s && '}' in s[2..] && NameOk(s[2..][..Closing(s[2..])])
  }

  /** A string as tokens: every reference is one, every other character is one. */
  function Tokens(s: string): Text {
    if s == "" then []
    else if ReferenceAhead(s) then
      [Ref(s[2..][..Closing(s[2..])])] + Tokens(s[2..][Closing(s[2..]) + 1..])
    else [Ch(s[0])] + Tokens(s[1..])
  }

  lemma SplitReference(s: string)
    requires ReferenceAhead(s)
    ensures var n := Closing(s[2..]);
            s == Reference(s[2..][..n]) + s[2..][n + 1..]
  {
    var n := Closing(s[2..]);
    var name, rest := s[2..][..n], s[2..][n + 1..];
    assert s[2..] == name + "}" + rest;
    assert s == "${" + s[2..];
  }

  /** Writing the tokens out gives back the string. */
  lemma {:induction false} TokensRender(s: string)
    ensures Render(Tokens(s)) == s
  {
    hide ReferenceAhead, Closing;
    if s == "" {
    } else if ReferenceAhead(s) {
      SplitReference(s);
      var rest := s[2..][Closing(s[2..]) + 1..];
      TokensRender(rest);
      assert Tokens(s)[1..] == Tokens(rest);
    } else {
      TokensRender(s[1..]);
      assert Tokens(s)[1..] == Tokens(s[1..]);
    }
  }

  lemma NameEnds(n: string, s: string)
    requires '}' !in n
    ensures '}' in n + "}" + s && Closing(n + "}" + s) == |n| && (n + "}" + s)[..|n|] == n
  {
    var text := n + "}" + s;
    assert text[|n|] == '}' && text[..|n|] == n;
    var head := text[..Closing(text)];
    assert forall i :: 0 <= i < |head| ==> head[i] == text[i] && head[i] in head;
    assert forall i :: 0 <= i < |n| ==> text[i] == n[i] && n[i] in n;
  }

  lemma ReferenceIsRead(n: string, s: string)
    requires NameOk(n)
    ensures Tokens(Reference(n) + s) == [Ref(n)] + Tokens(s)
  {
    hide Plain, Closing;
    var text := Reference(n) + s;
    NameEnds(n, s);
    assert text[2..] == n + "}" + s && "${" <= text;
    assert text[2..][|n| + 1..] == s;
  }

  lemma CharIsRead(c: char, s: string)
    requires c == '$' ==> s != "" && s[0] != '{'
    ensures Tokens([c] + s) == [Ch(c)] + Tokens(s)
  {
    hide NameOk, Closing;
    var text := [c] + s;
    assert text[1..] == s && (s != "" ==> text[1] == s[0]);
    assert "${"[0] == '$' && "${"[1] == '{';
  }

  /** A well-formed text is what it is read as when written out. */
  lemma {:induction false} RenderTokens(t: Text)
    requires WellFormed(t)
    ensures Tokens(Render(t)) == t
  {
    hide WellFormed, NameOk, Tokens, Render;
    if t == [] {
      NothingToRead();
    } else {
      WellFormedRest(t);
      RenderTokens(t[1..]);
      assert t == [t[0]] + t[1..];
      if t[0].Ref? {
        ReferenceIsRead(t[0].name, Render(t[1..]));
      } else {
        CharIsRead(t[0].c, Render(t[1..]));
      }
    }
  }

  lemma NothingToRead()
    ensures Render([]) == "" && Tokens("") == []
  {
  }
}
