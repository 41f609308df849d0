/**
 What an accepted pair of sources has in common whatever its comments do: run together, the code of the two is the same
 text. So the two are the same code exactly when that text is cut into tokens alike and the name stands at the same
 places.
 */
module WitnessCuts {
  import opened Wrappers
  import opened WitnessLexer
  import opened Witness
  import opened WitnessSound
  import opened WitnessCode
  import opened WitnessCollapse
  import opened WitnessRename
  import C = WitnessComplete

  /** The code run together, quoted text tidied. */
  function RunTogether(c: Chars, tokens: seq<Token>): string {
    Text(Tidied(c, Code(c, tokens)))
  }

  lemma TextAppend(a: seq<Token>, b: seq<Token>)
    ensures a != [] ==> Text(a + b) == a[0].text + Text(a[1..] + b)
    ensures a == [] ==> Text(a + b) == Text(b)
  {
    if a != [] {
      assert (a + b)[1..] == a[1..] + b;
    } else {
      assert a + b == b;
    }
  }

  lemma RunsOn(c: Chars, t: Token, more: seq<Token>)
    ensures Text(Tidied(c, [t] + more)) == Tidy(c, t).text + Text(Tidied(c, more))
    ensures Text(Tidied(c, [] + more)) == Text(Tidied(c, more))
  {
    TidiedAppend(c, [t], more);
    TextAppend([Tidy(c, t)], Tidied(c, more));
    assert Tidied(c, [t]) == [Tidy(c, t)] && [Tidy(c, t)][1..] == [] && [] + Tidied(c, more) == Tidied(c, more);
    assert [] + more == more;
  }

  lemma RunsOnScanned(c: Chars, t: Token, rest: string)
    requires t.text != "" && First(c, t.text + rest) == t && !t.kind.Comment? && !IsBlank(c, t)
    ensures RunTogether(c, Lex(c, t.text + rest)) == Tidy(c, t).text + RunTogether(c, Lex(c, rest))
  {
    ScannedFirst(c, t, rest);
    RunsOn(c, t, Code(c, Lex(c, rest)));
  }

  // ---- Joining words keeps the text of the code ---------------------------------------------------------

  lemma WordRunsOn(c: Chars, w: string, rest: string)
    requires Sane(c) && w != "" && IsStart(c, w[0]) && (forall i :: 1 <= i < |w| ==> IsPart(c, w[i]))
    requires !Continues(c, rest)
    ensures RunTogether(c, Lex(c, w + rest)) == w + RunTogether(c, Lex(c, rest))
  {
    C.WordScanned(c, w, rest);
    WordIsNoBlank(c, w);
    RunsOnScanned(c, Token(Word, w), rest);
  }

  lemma WordIsNoBlank(c: Chars, w: string)
    ensures !IsBlank(c, Token(Word, w)) && Tidy(c, Token(Word, w)) == Token(Word, w)
  {
  }

  lemma PartRunsOn(c: Chars, x: char, more: string)
    requires Sane(c) && IsPart(c, x) && !IsStart(c, x)
    ensures RunTogether(c, Lex(c, [x] + more)) == [x] + RunTogether(c, Lex(c, more))
  {
    C.PartsAreSolid(c, x);
    PartScanned(c, x, more);
    RunsOnScanned(c, Token(Other, [x]), more);
  }

  lemma {:induction false} PartsRunOn(c: Chars, p: string, rest: string)
    requires Sane(c) && (forall i :: 0 <= i < |p| ==> IsPart(c, p[i])) && !Continues(c, rest)
    ensures RunTogether(c, Lex(c, p + rest)) == p + RunTogether(c, Lex(c, rest))
  {
    var run := RunTogether(c, Lex(c, rest));
    if p == "" {
      assert p + rest == rest && p + run == run;
    } else if IsStart(c, p[0]) {
      WordRunsOn(c, p, rest);
    } else {
      PartsRunOn(c, p[1..], rest);
      OnePartMore(c, p[0], p[1..], rest);
      assert p == [p[0]] + p[1..];
    }
  }

  lemma OnePartMore(c: Chars, x: char, p: string, rest: string)
    requires Sane(c) && IsPart(c, x) && !IsStart(c, x)
    requires RunTogether(c, Lex(c, p + rest)) == p + RunTogether(c, Lex(c, rest))
    ensures RunTogether(c, Lex(c, ([x] + p) + rest)) == ([x] + p) + RunTogether(c, Lex(c, rest))
  {
    Regroup([x], p, rest);
    PartRunsOn(c, x, p + rest);
    Regroup([x], p, RunTogether(c, Lex(c, rest)));
  }

  lemma PartScanned(c: Chars, x: char, more: string)
    requires Sane(c) && IsPart(c, x) && !IsStart(c, x)
    ensures First(c, [x] + more) == Token(Other, [x])
  {
    if x == '/' || IsQuote(x) {
      C.MarksStartNothing(c, x);
    }
  }

  lemma JoinRunsOn(c: Chars, w: string, more: string)
    requires Sane(c) && w != "" && IsStart(c, w[0]) && (forall i :: 1 <= i < |w| ==> IsPart(c, w[i]))
    requires Continues(c, more)
    ensures RunTogether(c, Lex(c, w + more)) == w + RunTogether(c, Lex(c, more))
  {
    var e := WordEnd(c, more, 0);
    WordStops(c, more, 0);
    C.WordIsParts(c, more, 0);
    var p, rest := more[..e], more[e..];
    assert more == p + rest;
    Regroup(w, p, rest);
    PartsRunOn(c, p, rest);
    WordRunsOn(c, w + p, rest);
    Regroup(w, p, RunTogether(c, Lex(c, rest)));
  }

  /** Leaving comments out may join tokens, but run together the code stays the same. */
  lemma {:induction false} StripRunsOn(c: Chars, u: string)
    requires Sane(c)
    ensures RunTogether(c, Lex(c, Strip(Lex(c, u)))) == RunTogether(c, Lex(c, u))
    decreases |u|
  {
    if u != "" {
      var t := First(c, u);
      var rest := u[|t.text|..];
      var more := Strip(Lex(c, rest));
      CodeStep(c, u);
      StripRunsOn(c, rest);
      RunsOn(c, t, Code(c, Lex(c, rest)));
      if t.kind.Comment? {
        NewlinesScanned(c, Count('\n', t.text), more);
      } else if t.kind.Word? && Continues(c, more) {
        C.WordIsParts(c, u, 1);
        JoinRunsOn(c, t.text, more);
      } else {
        TokenKept(c, u);
        ScannedFirst(c, t, more);
        RunsOn(c, t, Code(c, Lex(c, more)));
      }
    }
  }

  /** The code of the canonical text, run together, is that of the source with the marker for the name. */
  lemma CanonicalRunsOn(c: Chars, u: string, name: string)
    requires Sane(c) && IsName(name)
    ensures Text(Code(c, Lex(c, Collapse(c, Render(Lex(c, u), name, MARKER)))))
      == RunTogether(c, C.Renamed(Lex(c, u), name, MARKER))
  {
    var marked := C.Renamed(Lex(c, u), name, MARKER);
    MarkerIsName();
    C.LexRenamed(c, u, name, MARKER);
    RenderIsStrip(Lex(c, u), name, MARKER);
    StripRunsOn(c, Text(marked));
    StripKeepsCode(c, Text(marked));
    CollapseKeepsCode(c, Strip(marked));
  }

  // ---- Tokens are told by where they are cut ------------------------------------------------------------

  /** Its text tells the kind of a token. */
  ghost predicate Telling(c: Chars, tokens: seq<Token>) {
    forall t <- tokens :: t.text != "" && t.kind == KindOf(c, t.text)
  }

  predicate CutAlike(a: seq<Token>, b: seq<Token>) {
    |a| == |b| && forall i :: 0 <= i < |a| ==> |a[i].text| == |b[i].text|
  }

  lemma {:induction false} CutsTell(c: Chars, a: seq<Token>, b: seq<Token>)
    requires Telling(c, a) && Telling(c, b) && CutAlike(a, b) && Text(a) == Text(b)
    ensures a == b
  {
    if a != [] {
      var s, n := Text(a), |a[0].text|;
      assert a[0] in a && b[0] in b;
      assert a[0].text == s[..n] == b[0].text && Text(a[1..]) == s[n..] == Text(b[1..]);
      forall t | t in a[1..] || t in b[1..] ensures t in a || t in b {
      }
      CutsTell(c, a[1..], b[1..]);
      assert a == [a[0]] + a[1..] && b == [b[0]] + b[1..];
    }
  }

  lemma {:induction false} CodeIsTelling(c: Chars, u: string)
    requires Sane(c)
    ensures Telling(c, Tidied(c, Code(c, Lex(c, u))))
    decreases |u|
  {
    if u != "" {
      var t := First(c, u);
      var rest := u[|t.text|..];
      CodeStep(c, u);
      CodeIsTelling(c, rest);
      if !t.kind.Comment? && !IsBlank(c, t) {
        TokenIsTelling(c, u);
        TidiedAppend(c, [t], Code(c, Lex(c, rest)));
        assert Tidied(c, [t]) == [Tidy(c, t)];
      } else {
        assert [] + Code(c, Lex(c, rest)) == Code(c, Lex(c, rest));
      }
    }
  }

  lemma TokenIsTelling(c: Chars, u: string)
    requires Sane(c) && u != "" && !First(c, u).kind.Comment?
    ensures var t := Tidy(c, First(c, u)); t.text != "" && t.kind == KindOf(c, t.text)
  {
    var t := First(c, u);
    assert t.text[0] == u[0];
    if t.kind.Quoted? {
      if c.space(u[0]) {
        SpacesMeanNothing(c, u[0]);
      }
      assert Squeeze(c, t.text)[0] == u[0];
    }
  }

  // ---- The exact condition, for every accepted pair -----------------------------------------------------

  /** The tidied code of a source, with the marker for the name. */
  function MarkedCode(c: Chars, source: string, name: string): seq<Token> {
    Tidied(c, CodeOf(c, source, name, MARKER))
  }

  predicate OccursAt(c: Chars, source: string, name: string, i: nat) {
    var code := Code(c, Lex(c, Unix(source)));
    i < |code| && IsHit(code[i], name)
  }

  /** The code of the two is cut into tokens alike, and the same tokens are the name. */
  ghost predicate LaidOutAlike(c: Chars, before: string, after: string, oldName: string, newName: string) {
    && CutAlike(MarkedCode(c, before, oldName), MarkedCode(c, after, newName))
    && forall i: nat :: OccursAt(c, before, oldName, i) <==> OccursAt(c, after, newName, i)
  }

  lemma AcceptedRunsAlike(c: Chars, before: string, after: string, oldName: string, newName: string)
    requires Sane(c) && Accepts(c, before, after, oldName, newName)
    ensures Text(MarkedCode(c, before, oldName)) == Text(MarkedCode(c, after, newName))
    ensures CutAlike(MarkedCode(c, before, oldName), MarkedCode(c, after, newName)) <==>
      MarkedCode(c, before, oldName) == MarkedCode(c, after, newName)
  {
    CanonicalRunsOn(c, Unix(before), oldName);
    CanonicalRunsOn(c, Unix(after), newName);
    MarkedIsTelling(c, before, oldName);
    MarkedIsTelling(c, after, newName);
    if CutAlike(MarkedCode(c, before, oldName), MarkedCode(c, after, newName)) {
      CutsTell(c, MarkedCode(c, before, oldName), MarkedCode(c, after, newName));
    }
  }

  lemma MarkedIsTelling(c: Chars, source: string, name: string)
    requires Sane(c) && IsName(name)
    ensures Telling(c, MarkedCode(c, source, name))
  {
    MarkerIsName();
    C.LexRenamed(c, Unix(source), name, MARKER);
    CodeIsTelling(c, Text(C.Renamed(Lex(c, Unix(source)), name, MARKER)));
  }

  /** Token by token: how the name is called, in what place, and what else the token may be. */
  lemma CodeAt(c: Chars, source: string, name: string, with: string, i: nat)
    requires i < |Code(c, Lex(c, Unix(source)))|
    ensures var code, called := Code(c, Lex(c, Unix(source))), Tidied(c, CodeOf(c, source, name, with));
      && |called| == |code|
      && called[i] == if IsHit(code[i], name) then Token(Word, with) else Tidy(c, code[i])
  {
    CodeRenamed(c, Lex(c, Unix(source)), name, with);
    RenamedAt(Code(c, Lex(c, Unix(source))), name, with);
  }

  /**
   For every accepted pair, whatever its comments and markers: the second source is the first renamed, token by token,
     if
   and only if the two are laid out alike.
   */
  lemma AcceptedIsRenameIfLaidOutAlike(c: Chars, before: string, after: string, oldName: string, newName: string)
    requires Sane(c) && Accepts(c, before, after, oldName, newName)
    ensures SameCode(c, before, after, oldName, newName) <==> LaidOutAlike(c, before, after, oldName, newName)
  {
    AcceptedRunsAlike(c, before, after, oldName, newName);
    if LaidOutAlike(c, before, after, oldName, newName) {
      LaidOutIsSame(c, before, after, oldName, newName);
    }
    if SameCode(c, before, after, oldName, newName) {
      SameIsLaidOut(c, before, after, oldName, newName);
    }
  }

  lemma CodeSize(c: Chars, source: string, name: string, with: string)
    ensures |Tidied(c, CodeOf(c, source, name, with))| == |Code(c, Lex(c, Unix(source)))|
  {
    CodeLength(c, source, name, with);
  }

  lemma LaidOutIsSame(c: Chars, before: string, after: string, oldName: string, newName: string)
    requires MarkedCode(c, before, oldName) == MarkedCode(c, after, newName)
    requires LaidOutAlike(c, before, after, oldName, newName)
    ensures SameCode(c, before, after, oldName, newName)
  {
    var b, a := Code(c, Lex(c, Unix(before))), Code(c, Lex(c, Unix(after)));
    CodeSize(c, before, oldName, MARKER);
    CodeSize(c, after, newName, MARKER);
    CodeSize(c, before, oldName, newName);
    forall i | 0 <= i < |a| ensures Tidied(c, CodeOf(c, before, oldName, newName))[i] == Tidied(c, a)[i] {
      CodeAt(c, before, oldName, MARKER, i);
      CodeAt(c, before, oldName, newName, i);
      CodeAt(c, after, newName, MARKER, i);
      assert OccursAt(c, before, oldName, i) <==> OccursAt(c, after, newName, i);
    }
  }

  lemma SameIsLaidOut(c: Chars, before: string, after: string, oldName: string, newName: string)
    requires Accepts(c, before, after, oldName, newName) && SameCode(c, before, after, oldName, newName)
    ensures LaidOutAlike(c, before, after, oldName, newName)
  {
    var b, a := Code(c, Lex(c, Unix(before))), Code(c, Lex(c, Unix(after)));
    CodeSize(c, before, oldName, MARKER);
    CodeSize(c, after, newName, MARKER);
    CodeSize(c, before, oldName, newName);
    assert |Tidied(c, a)| == |a|;
    if oldName != newName {
      NoneButOccurrences(c, before, after, oldName, newName);
      C.NoHits(c, b, newName);
    }
    forall i: nat
      ensures OccursAt(c, before, oldName, i) <==> OccursAt(c, after, newName, i)
      ensures i < |a| ==> |MarkedCode(c, before, oldName)[i].text| == |MarkedCode(c, after, newName)[i].text|
    {
      if i < |a| {
        CodeAt(c, before, oldName, MARKER, i);
        CodeAt(c, before, oldName, newName, i);
        CodeAt(c, after, newName, MARKER, i);
        assert Tidied(c, CodeOf(c, before, oldName, newName))[i] == Tidied(c, a)[i];
        assert b[i] in b;
      }
    }
  }
}
