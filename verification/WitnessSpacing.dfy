/**
 What an accepted pair has in common as text, numbers and operators included: comments read as blanks, the two agree up
 to whitespace and the name, unless a comment stands with code directly on both sides.
 */
module WitnessSpacing {
  import opened Wrappers
  import opened WitnessLexer
  import opened Witness
  import opened WitnessSound
  import opened WitnessCollapse
  import opened WitnessRename
  import C = WitnessComplete

  /** The text with a blank for every comment. */
  function Spaced(tokens: seq<Token>): string {
    if tokens == [] then "" else (if tokens[0].kind.Comment? then " " else tokens[0].text) + Spaced(tokens[1..])
  }

  /** The text ends in code, or, if it is empty, what came before it did. */
  predicate EndsSolid(c: Chars, s: string, before: bool) {
    if s == "" then before else !c.space(s[|s| - 1])
  }

  function Newlined(t: Token): string {
    Newlines(Count('\n', t.text))
  }

  /**
   Somewhere a comment without a newline stands with code directly on both sides; `before` says if code comes before.
   */
  predicate Touches(c: Chars, tokens: seq<Token>, before: bool) {
    tokens != [] &&
    if !tokens[0].kind.Comment? then Touches(c, tokens[1..], EndsSolid(c, tokens[0].text, before))
    else if Newlined(tokens[0]) != "" then Touches(c, tokens[1..], false)
    else (before && StartsSolid(c, Strip(tokens[1..]))) || Touches(c, tokens[1..], before)
  }

  // ---- Collapsing after code or after a blank -----------------------------------------------------------

  /** What a text collapses to behind code, or behind a blank. */
  function After(c: Chars, s: string, before: bool): string {
    Squeeze(c, if before then s else TrimLeft(c, s))
  }

  lemma {:induction false} AfterAppend(c: Chars, a: string, s: string, s': string, before: bool)
    requires After(c, s, EndsSolid(c, a, before)) == After(c, s', EndsSolid(c, a, before))
    ensures After(c, a + s, before) == After(c, a + s', before)
    decreases |a|
  {
    if a == "" {
      assert a + s == s && a + s' == s';
    } else {
      var rest := a[1..];
      assert (a + s)[0] == a[0] == (a + s')[0] && (a + s)[1..] == rest + s && (a + s')[1..] == rest + s';
      AfterAppend(c, rest, s, s', !c.space(a[0]));
      if c.space(a[0]) {
        AfterBlank(c, a + s, before);
        AfterBlank(c, a + s', before);
      } else {
        AfterSolid(c, a + s, before);
        AfterSolid(c, a + s', before);
      }
    }
  }

  lemma AfterSolid(c: Chars, s: string, before: bool)
    requires s != "" && !c.space(s[0])
    ensures After(c, s, before) == [s[0]] + After(c, s[1..], true)
  {
  }

  lemma AfterBlank(c: Chars, s: string, before: bool)
    requires s != "" && c.space(s[0])
    ensures var more := After(c, s[1..], false);
      After(c, s, before) == if before && more != "" then " " + more else more
  {
    var t := TrimLeft(c, s[1..]);
    if t != "" {
      assert Squeeze(c, t) == [t[0]] + Squeeze(c, t[1..]);
    }
  }

  /** Behind code it matters only whether whitespace comes first. */
  lemma AfterCode(c: Chars, s: string)
    requires c.space(' ') && !StartsSolid(c, s)
    ensures After(c, " " + s, true) == After(c, s, true)
  {
    AfterBlank(c, " " + s, true);
    assert (" " + s)[1..] == s;
    if s != "" {
      AfterBlank(c, s, true);
      AfterBlank(c, s, false);
    }
  }

  lemma SameStart(c: Chars, s: string, s': string)
    requires c.space(' ') && After(c, s, true) == After(c, s', true) && !StartsSolid(c, s)
    ensures !StartsSolid(c, s')
  {
    StartOf(c, s);
    StartOf(c, s');
  }

  /**
   Behind code, a text collapses to something that starts with a blank, with its own first character, or not at all.
   */
  lemma StartOf(c: Chars, s: string)
    ensures var r := After(c, s, true);
      if StartsSolid(c, s) then r != "" && r[0] == s[0] else r == "" || r[0] == ' '
  {
    if s != "" && c.space(s[0]) {
      AfterBlank(c, s, true);
    }
  }

  lemma {:induction false} BlanksThen(c: Chars, n: nat, s: string, before: bool)
    requires c.space('\n') && n > 0
    ensures var more := After(c, s, false);
      After(c, Newlines(n) + s, before) == if before && more != "" then " " + more else more
    decreases n
  {
    var all := Newlines(n) + s;
    assert all[0] == '\n' && all[1..] == Newlines(n - 1) + s;
    AfterBlank(c, all, before);
    if n > 1 {
      BlanksThen(c, n - 1, s, false);
    } else {
      assert Newlines(0) + s == s;
    }
  }

  /** With no comment touched on both sides, leaving comments out and reading them as blanks come to the same. */
  lemma {:induction false} SpacedAlike(c: Chars, tokens: seq<Token>, before: bool)
    requires Sane(c) && !Touches(c, tokens, before)
    ensures After(c, Strip(tokens), before) == After(c, Spaced(tokens), before)
    decreases |tokens|
  {
    if tokens != [] {
      var t, rest := tokens[0], tokens[1..];
      if !t.kind.Comment? {
        SpacedAlike(c, rest, EndsSolid(c, t.text, before));
        AfterAppend(c, t.text, Strip(rest), Spaced(rest), before);
      } else if Newlined(t) != "" {
        SpacedAlike(c, rest, false);
        BlanksThen(c, Count('\n', t.text), Strip(rest), before);
        AfterBlank(c, " " + Spaced(rest), before);
        assert (" " + Spaced(rest))[1..] == Spaced(rest);
      } else {
        SpacedAlike(c, rest, before);
        assert Newlined(t) + Strip(rest) == Strip(rest);
        if before {
          SameStart(c, Strip(rest), Spaced(rest));
          AfterCode(c, Spaced(rest));
        } else {
          AfterBlank(c, " " + Spaced(rest), false);
          assert (" " + Spaced(rest))[1..] == Spaced(rest);
        }
      }
    }
  }

  // ---- Counting the runs of code ------------------------------------------------------------------------

  /** How many runs of code begin in a text. */
  function Runs(c: Chars, s: string, before: bool): nat {
    if s == "" then 0
    else if c.space(s[0]) then Runs(c, s[1..], false)
    else (if before then 0 else 1) + Runs(c, s[1..], true)
  }

  lemma {:induction false} RunsAppend(c: Chars, a: string, s: string, before: bool)
    ensures Runs(c, a + s, before) == Runs(c, a, before) + Runs(c, s, EndsSolid(c, a, before))
    decreases |a|
  {
    if a == "" {
      assert a + s == s;
    } else {
      assert (a + s)[0] == a[0] && (a + s)[1..] == a[1..] + s;
      RunsAppend(c, a[1..], s, !c.space(a[0]));
    }
  }

  lemma {:induction false} RunsTrim(c: Chars, s: string)
    ensures Runs(c, TrimLeft(c, s), false) == Runs(c, s, false)
  {
    if s != "" && c.space(s[0]) {
      RunsTrim(c, s[1..]);
    }
  }

  /** Collapsing keeps the runs of code. */
  lemma {:induction false} RunsAfter(c: Chars, s: string, before: bool)
    requires c.space(' ')
    ensures Runs(c, After(c, s, before), before) == Runs(c, s, before)
    decreases |s|
  {
    if s != "" {
      RunsAfter(c, s[1..], !c.space(s[0]));
      if c.space(s[0]) {
        AfterBlank(c, s, before);
        var more := After(c, s[1..], false);
        assert (" " + more)[1..] == more;
        if !before {
          assert After(c, s, before) == more;
        } else if more == "" {
          assert Runs(c, s[1..], false) == 0;
        }
      } else {
        AfterSolid(c, s, before);
        assert ([s[0]] + After(c, s[1..], true))[1..] == After(c, s[1..], true);
      }
    }
  }

  lemma {:induction false} RunsBehindCode(c: Chars, s: string)
    ensures Runs(c, s, false) == Runs(c, s, true) + if StartsSolid(c, s) then 1 else 0
  {
  }

  lemma {:induction false} NewlinesHaveNoRuns(c: Chars, n: nat, s: string, before: bool)
    requires c.space('\n') && n > 0
    ensures Runs(c, Newlines(n) + s, before) == Runs(c, s, false)
    decreases n
  {
    var all := Newlines(n) + s;
    assert all[0] == '\n' && all[1..] == Newlines(n - 1) + s;
    if n > 1 {
      NewlinesHaveNoRuns(c, n - 1, s, false);
    } else {
      assert Newlines(0) + s == s;
    }
  }

  /** A comment touched on both sides parts a run of code in two that leaving it out would join. */
  lemma {:induction false} TouchingParts(c: Chars, tokens: seq<Token>, before: bool)
    requires Sane(c)
    ensures Runs(c, Spaced(tokens), before) >= Runs(c, Strip(tokens), before) + if Touches(c, tokens, before) then 1
      else 0
    decreases |tokens|
  {
    if tokens != [] {
      var t, rest := tokens[0], tokens[1..];
      if !t.kind.Comment? {
        TouchingParts(c, rest, EndsSolid(c, t.text, before));
        RunsAppend(c, t.text, Strip(rest), before);
        RunsAppend(c, t.text, Spaced(rest), before);
      } else {
        assert (" " + Spaced(rest))[1..] == Spaced(rest);
        TouchingParts(c, rest, false);
        if Newlined(t) != "" {
          NewlinesHaveNoRuns(c, Count('\n', t.text), Strip(rest), before);
        } else {
          assert Newlined(t) + Strip(rest) == Strip(rest);
          TouchingParts(c, rest, before);
          RunsBehindCode(c, Strip(rest));
          RunsBehindCode(c, Spaced(rest));
        }
      }
    }
  }

  // ---- Soundness of the text ----------------------------------------------------------------------------

  /** The tokens of a source, with the marker for the name. */
  function Marked(c: Chars, source: string, name: string): seq<Token> {
    C.Renamed(Lex(c, Unix(source)), name, MARKER)
  }

  /** With comments read as blanks, and the same marker for the name, the two texts agree up to whitespace. */
  predicate SameText(c: Chars, before: string, after: string, oldName: string, newName: string) {
    Collapse(c, Spaced(Marked(c, before, oldName))) == Collapse(c, Spaced(Marked(c, after, newName)))
  }

  /**
   Soundness of the text, with its exact condition. Of an accepted pair of which one source at least has no comment that
   touches code on both sides, the two are the same text, comments read as blanks, if and only if neither has one.
   */
  lemma AcceptedIsSameTextIff(c: Chars, before: string, after: string, oldName: string, newName: string)
    requires Sane(c) && Accepts(c, before, after, oldName, newName)
    requires !Touches(c, Marked(c, before, oldName), false) || !Touches(c, Marked(c, after, newName), false)
    ensures SameText(c, before, after, oldName, newName) <==>
      !Touches(c, Marked(c, before, oldName), false) && !Touches(c, Marked(c, after, newName), false)
  {
    RenderIsStrip(Lex(c, Unix(before)), oldName, MARKER);
    RenderIsStrip(Lex(c, Unix(after)), newName, MARKER);
    SpacedOrParted(c, Marked(c, before, oldName));
    SpacedOrParted(c, Marked(c, after, newName));
  }

  /** Reading comments as blanks changes nothing, or gives more runs of code than leaving them out. */
  lemma SpacedOrParted(c: Chars, tokens: seq<Token>)
    requires Sane(c)
    ensures var left, spaced := Collapse(c, Strip(tokens)), Collapse(c, Spaced(tokens));
      if Touches(c, tokens, false) then Runs(c, spaced, false) > Runs(c, left, false) else spaced == left
  {
    if Touches(c, tokens, false) {
      TouchingParts(c, tokens, false);
      RunsAfter(c, Strip(tokens), false);
      RunsAfter(c, Spaced(tokens), false);
    } else {
      SpacedAlike(c, tokens, false);
    }
  }

  // ---- The exact condition, for every accepted pair -----------------------------------------------------

  /** A text without its whitespace. */
  function Solids(c: Chars, s: string): string {
    if s == "" then "" else (if c.space(s[0]) then "" else [s[0]]) + Solids(c, s[1..])
  }

  lemma {:induction false} SolidsAppend(c: Chars, a: string, b: string)
    ensures Solids(c, a + b) == Solids(c, a) + Solids(c, b)
  {
    if a == "" {
      assert a + b == b && "" + Solids(c, b) == Solids(c, b);
    } else {
      SolidsAppend(c, a[1..], b);
      assert (a + b)[0] == a[0] && (a + b)[1..] == a[1..] + b;
      Regroup(if c.space(a[0]) then "" else [a[0]], Solids(c, a[1..]), Solids(c, b));
    }
  }

  lemma {:induction false} SolidsOfSolid(c: Chars, w: string)
    requires Solid(c, w)
    ensures Solids(c, w) == w
  {
    if w != "" {
      assert w[0] in w;
      forall x | x in w[1..] ensures x in w {
      }
      SolidsOfSolid(c, w[1..]);
      assert w == [w[0]] + w[1..];
    }
  }

  lemma {:induction false} SolidsTrim(c: Chars, s: string)
    ensures Solids(c, TrimLeft(c, s)) == Solids(c, s)
  {
    if s != "" && c.space(s[0]) {
      SolidsTrim(c, s[1..]);
      assert "" + Solids(c, s[1..]) == Solids(c, s[1..]);
    }
  }

  lemma {:induction false} SolidsOfNewlines(c: Chars, n: nat)
    requires c.space('\n')
    ensures Solids(c, Newlines(n)) == ""
  {
    if n > 0 {
      assert Newlines(n)[1..] == Newlines(n - 1);
      SolidsOfNewlines(c, n - 1);
    }
  }

  /** How comments are read makes no difference to the rest. */
  lemma {:induction false} SolidsSpaced(c: Chars, tokens: seq<Token>)
    requires Sane(c)
    ensures Solids(c, Spaced(tokens)) == Solids(c, Strip(tokens))
  {
    if tokens != [] {
      var t, rest := tokens[0], tokens[1..];
      SolidsSpaced(c, rest);
      SolidsOfNewlines(c, Count('\n', t.text));
      SolidsOfNewlines(c, 1);
      SolidsAppend(c, if t.kind.Comment? then " " else t.text, Spaced(rest));
      SolidsAppend(c, if t.kind.Comment? then Newlined(t) else t.text, Strip(rest));
      assert Solids(c, " ") == "";
    }
  }

  function Flat(words: seq<string>): string {
    if words == [] then "" else words[0] + Flat(words[1..])
  }

  ghost predicate AreWords(c: Chars, words: seq<string>) {
    forall w <- words :: w != "" && Solid(c, w)
  }

  lemma {:induction false} WordsAre(c: Chars, s: string)
    ensures AreWords(c, Words(c, s)) && Flat(Words(c, s)) == Solids(c, s)
    decreases |s|
  {
    var t := TrimLeft(c, s);
    SolidsTrim(c, s);
    if t != "" {
      var e := SolidEnd(c, t);
      var rest := Words(c, t[e..]);
      WordsAre(c, t[e..]);
      SolidsAppend(c, t[..e], t[e..]);
      SolidsOfSolid(c, t[..e]);
      assert t == t[..e] + t[e..];
      assert Words(c, s) == [t[..e]] + rest && ([t[..e]] + rest)[1..] == rest;
    }
  }

  lemma {:induction false} SolidEndIs(c: Chars, w: string, rest: string)
    requires Solid(c, w) && (rest == "" || c.space(rest[0]))
    ensures SolidEnd(c, w + rest) == |w|
  {
    if w == "" {
      assert w + rest == rest;
    } else {
      assert w[0] in w && (w + rest)[0] == w[0] && (w + rest)[1..] == w[1..] + rest;
      forall x | x in w[1..] ensures x in w {
      }
      SolidEndIs(c, w[1..], rest);
    }
  }

  /** Splitting what was joined gives the words back. */
  lemma {:induction false} WordsOfJoin(c: Chars, words: seq<string>)
    requires c.space(' ') && AreWords(c, words)
    ensures Words(c, Join(words)) == words
    decreases |words|
  {
    if words != [] {
      var w, rest := words[0], words[1..];
      assert w in words && w[0] in w;
      forall v | v in rest ensures v in words {
      }
      WordsOfJoin(c, rest);
      if rest == [] {
        WordThen(c, w, "");
        assert w + "" == w && Words(c, "") == [];
      } else {
        Regroup(w, " ", Join(rest));
        WordThen(c, w, " " + Join(rest));
        assert (" " + Join(rest))[1..] == Join(rest);
        assert Words(c, " " + Join(rest)) == Words(c, Join(rest));
      }
      assert words == [w] + rest;
    }
  }

  lemma WordThen(c: Chars, w: string, rest: string)
    requires w != "" && Solid(c, w) && (rest == "" || c.space(rest[0]))
    ensures Words(c, w + rest) == [w] + Words(c, rest)
  {
    var s := w + rest;
    assert w[0] in w && s[0] == w[0];
    SolidEndIs(c, w, rest);
    assert s[..|w|] == w && s[|w|..] == rest;
  }

  /** As many words, each as long. */
  predicate AsLong(u: seq<string>, v: seq<string>) {
    |u| == |v| && forall i :: 0 <= i < |u| ==> |u[i]| == |v[i]|
  }

  lemma {:induction false} LengthsTell(u: seq<string>, v: seq<string>)
    requires AsLong(u, v) && Flat(u) == Flat(v)
    ensures u == v
  {
    if u != [] {
      var s, n := Flat(u), |u[0]|;
      assert u[0] == s[..n] == v[0] && Flat(u[1..]) == s[n..] == Flat(v[1..]);
      LengthsTell(u[1..], v[1..]);
      assert u == [u[0]] + u[1..] && v == [v[0]] + v[1..];
    }
  }

  lemma CollapseTellsWords(c: Chars, s: string, t: string)
    requires c.space(' ')
    ensures Collapse(c, s) == Collapse(c, t) <==> Words(c, s) == Words(c, t)
  {
    WordsAre(c, s);
    WordsAre(c, t);
    WordsOfJoin(c, Words(c, s));
    WordsOfJoin(c, Words(c, t));
    CollapseJoinsWords(c, s);
    CollapseJoinsWords(c, t);
  }

  /**
   For every accepted pair, whatever its comments: the two are the same text, comments read as blanks, if and only if
   their runs of code are as many and as long.
   */
  lemma AcceptedIsSameTextIfAsLong(c: Chars, before: string, after: string, oldName: string, newName: string)
    requires Sane(c) && Accepts(c, before, after, oldName, newName)
    ensures SameText(c, before, after, oldName, newName) <==>
      AsLong(Words(c, Spaced(Marked(c, before, oldName))), Words(c, Spaced(Marked(c, after, newName))))
  {
    var b, a := Marked(c, before, oldName), Marked(c, after, newName);
    RenderIsStrip(Lex(c, Unix(before)), oldName, MARKER);
    RenderIsStrip(Lex(c, Unix(after)), newName, MARKER);
    CollapseTellsWords(c, Strip(b), Strip(a));
    CollapseTellsWords(c, Spaced(b), Spaced(a));
    SolidsSpaced(c, b);
    SolidsSpaced(c, a);
    WordsAre(c, Strip(b));
    WordsAre(c, Strip(a));
    WordsAre(c, Spaced(b));
    WordsAre(c, Spaced(a));
    if AsLong(Words(c, Spaced(b)), Words(c, Spaced(a))) {
      LengthsTell(Words(c, Spaced(b)), Words(c, Spaced(a)));
    }
  }
}
