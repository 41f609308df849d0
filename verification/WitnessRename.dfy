/**
 What an accepted pair of sources has in common as code: besides joined words, blanks inside quoted text and words that
 are the marker itself, nothing can go wrong.
 */
module WitnessRename {
  import opened WitnessLexer
  import opened Witness
  import opened WitnessSound
  import opened WitnessCode
  import opened WitnessCollapse
  import C = WitnessComplete

  // ---- The binding as one more name -------------------------------------------------------------------

  lemma MarkerIsName()
    ensures IsName(MARKER)
  {
    forall x | x in MARKER ensures IsLetter(x) || x == '_' {
    }
  }

  /** The binding named anew. */
  function Named(t: Token, oldName: string, newName: string): Token {
    if IsHit(t, oldName) then Token(Word, newName) else t
  }

  lemma {:induction false} RenderIsStrip(tokens: seq<Token>, name: string, with: string)
    ensures Render(tokens, name, with) == Strip(C.Renamed(tokens, name, with))
  {
    if tokens != [] {
      RenderIsStrip(tokens[1..], name, with);
      RenamedStep(tokens, name, with);
    }
  }

  lemma RenamedStep(tokens: seq<Token>, oldName: string, newName: string)
    requires tokens != []
    ensures var r := C.Renamed(tokens, oldName, newName);
      r != [] && r[0] == Named(tokens[0], oldName, newName) && r[1..] == C.Renamed(tokens[1..], oldName, newName)
  {
  }

  lemma NamesStart(c: Chars, name: string)
    requires Sane(c) && IsName(name)
    ensures IsPart(c, name[0])
  {
  }

  lemma {:induction false} ContinuesRenamed(c: Chars, u: string, oldName: string, newName: string)
    requires Sane(c) && IsName(oldName) && IsName(newName)
    ensures Continues(c, Strip(C.Renamed(Lex(c, u), oldName, newName))) == Continues(c, Strip(Lex(c, u)))
    decreases |u|
  {
    if u != "" {
      var t := First(c, u);
      LexStep(c, u);
      RenamedStep(Lex(c, u), oldName, newName);
      ContinuesRenamed(c, u[|t.text|..], oldName, newName);
      NamesStart(c, oldName);
      NamesStart(c, newName);
      if t.kind.Comment? && Count('\n', t.text) > 0 {
        assert Newlines(Count('\n', t.text))[0] == '\n';
      }
    }
  }

  lemma {:induction false} NoJoinsRenamed(c: Chars, u: string, oldName: string, newName: string)
    requires Sane(c) && IsName(oldName) && IsName(newName)
    ensures NoJoins(c, C.Renamed(Lex(c, u), oldName, newName)) == NoJoins(c, Lex(c, u))
    decreases |u|
  {
    if u != "" {
      var rest := u[|First(c, u).text|..];
      LexStep(c, u);
      RenamedStep(Lex(c, u), oldName, newName);
      ContinuesRenamed(c, rest, oldName, newName);
      NoJoinsRenamed(c, rest, oldName, newName);
    }
  }

  lemma {:induction false} CodeRenamed(c: Chars, tokens: seq<Token>, oldName: string, newName: string)
    ensures Code(c, C.Renamed(tokens, oldName, newName)) == C.Renamed(Code(c, tokens), oldName, newName)
  {
    if tokens != [] {
      var more := Code(c, tokens[1..]);
      CodeRenamed(c, tokens[1..], oldName, newName);
      RenamedStep(tokens, oldName, newName);
      assert ([tokens[0]] + more)[1..] == more && [] + more == more;
    }
  }

  lemma {:induction false} RenamedAt(tokens: seq<Token>, oldName: string, newName: string)
    ensures |C.Renamed(tokens, oldName, newName)| == |tokens|
    ensures forall i :: 0 <= i < |tokens| ==>
      C.Renamed(tokens, oldName, newName)[i] == Named(tokens[i], oldName, newName)
  {
    if tokens != [] {
      RenamedAt(tokens[1..], oldName, newName);
    }
  }

  lemma TidiedRenamed(c: Chars, tokens: seq<Token>, oldName: string, newName: string)
    ensures Tidied(c, C.Renamed(tokens, oldName, newName)) == C.Renamed(Tidied(c, tokens), oldName, newName)
  {
    RenamedAt(tokens, oldName, newName);
    RenamedAt(Tidied(c, tokens), oldName, newName);
  }

  /** No word is the marker, unless it is the name itself that goes by it. */
  predicate Unmarked(tokens: seq<Token>, name: string) {
    name == MARKER || forall t <- tokens :: !IsHit(t, MARKER)
  }

  lemma ThroughTheMarker(tokens: seq<Token>, oldName: string, newName: string)
    requires Unmarked(tokens, oldName)
    ensures C.Renamed(C.Renamed(tokens, oldName, MARKER), MARKER, newName) == C.Renamed(tokens, oldName, newName)
  {
    var marked := C.Renamed(tokens, oldName, MARKER);
    RenamedAt(tokens, oldName, MARKER);
    RenamedAt(marked, MARKER, newName);
    RenamedAt(tokens, oldName, newName);
    assert forall i :: 0 <= i < |tokens| ==> tokens[i] in tokens;
  }

  lemma RenamedToItself(tokens: seq<Token>, name: string)
    ensures C.Renamed(tokens, name, name) == tokens
  {
    RenamedAt(tokens, name, name);
  }

  /** The code of the canonical text is the code of the source with the marker for the name, or falls short of it. */
  lemma CanonicalCode(c: Chars, u: string, name: string)
    requires Sane(c) && IsName(name)
    ensures var marked := Code(c, C.Renamed(Lex(c, u), name, MARKER));
      var seen := Code(c, Lex(c, Collapse(c, Render(Lex(c, u), name, MARKER))));
      if NoJoins(c, Lex(c, u)) then seen == Tidied(c, marked) else |seen| < |marked|
  {
    var marked := C.Renamed(Lex(c, u), name, MARKER);
    MarkerIsName();
    C.LexRenamed(c, u, name, MARKER);
    NoJoinsRenamed(c, u, name, MARKER);
    RenderIsStrip(Lex(c, u), name, MARKER);
    StripKeepsCode(c, Text(marked));
    CollapseKeepsCode(c, Strip(marked));
  }

  // ---- Soundness ------------------------------------------------------------------------------------

  /** The code of a source, with the name called `with`. */
  function CodeOf(c: Chars, source: string, name: string, with: string): seq<Token> {
    Code(c, C.Renamed(Lex(c, Unix(source)), name, with))
  }

  /**
   The second source is the first with the old name renamed, token by token, up to comments and runs of whitespace.
   */
  predicate SameCode(c: Chars, before: string, after: string, oldName: string, newName: string) {
    Tidied(c, CodeOf(c, before, oldName, newName)) == Tidied(c, Code(c, Lex(c, Unix(after))))
  }

  /** To the letter, quoted text included. */
  predicate SameCodeExactly(c: Chars, before: string, after: string, oldName: string, newName: string) {
    CodeOf(c, before, oldName, newName) == Code(c, Lex(c, Unix(after)))
  }

  /** Quoted text has single spaces in it at most. */
  ghost predicate QuotesTidy(c: Chars, source: string) {
    forall t <- Code(c, Lex(c, Unix(source))) :: Tidy(c, t) == t
  }

  /** No word joined and no other word called like the marker. */
  predicate Faithful(c: Chars, source: string, name: string) {
    NoJoins(c, Lex(c, Unix(source))) && Unmarked(Code(c, Lex(c, Unix(source))), name)
  }

  lemma UnmarkedStays(tokens: seq<Token>, oldName: string, newName: string)
    requires Unmarked(tokens, oldName)
    ensures Unmarked(C.Renamed(tokens, oldName, newName), newName)
  {
    RenamedAt(tokens, oldName, newName);
    assert forall i :: 0 <= i < |tokens| ==> tokens[i] in tokens;
  }

  lemma UnmarkedTidied(c: Chars, tokens: seq<Token>, name: string)
    ensures Unmarked(Tidied(c, tokens), name) == Unmarked(tokens, name)
  {
    var tidied := Tidied(c, tokens);
    forall i | 0 <= i < |tokens| ensures tidied[i] in tidied && tokens[i] in tokens
      && IsHit(tidied[i], MARKER) == IsHit(tokens[i], MARKER) {
    }
  }

  /** Called by its new name, code that carries the marker for a name. */
  lemma CodeUnmarked(c: Chars, source: string, name: string, with: string)
    requires Unmarked(Code(c, Lex(c, Unix(source))), name)
    ensures Tidied(c, CodeOf(c, source, name, with))
      == C.Renamed(Tidied(c, CodeOf(c, source, name, MARKER)), MARKER, with)
  {
    var code := Code(c, Lex(c, Unix(source)));
    CodeRenamed(c, Lex(c, Unix(source)), name, with);
    CodeRenamed(c, Lex(c, Unix(source)), name, MARKER);
    ThroughTheMarker(code, name, with);
    TidiedRenamed(c, C.Renamed(code, name, MARKER), MARKER, with);
  }

  lemma CodeLength(c: Chars, source: string, name: string, with: string)
    ensures |CodeOf(c, source, name, with)| == |Code(c, Lex(c, Unix(source)))|
  {
    CodeRenamed(c, Lex(c, Unix(source)), name, with);
    RenamedAt(Code(c, Lex(c, Unix(source))), name, with);
  }

  lemma SameLength(c: Chars, before: string, after: string, oldName: string, newName: string)
    requires SameCode(c, before, after, oldName, newName)
    ensures |CodeOf(c, before, oldName, MARKER)| == |CodeOf(c, after, newName, MARKER)|
  {
    CodeLength(c, before, oldName, newName);
    CodeLength(c, before, oldName, MARKER);
    CodeLength(c, after, newName, MARKER);
    assert |Tidied(c, CodeOf(c, before, oldName, newName))| == |Tidied(c, Code(c, Lex(c, Unix(after))))|;
  }

  /** The occurrences are all in the code, and tidying leaves them alone. */
  lemma {:induction false} HitsInCode(c: Chars, tokens: seq<Token>, name: string)
    ensures Hits(Code(c, tokens), name) == Hits(tokens, name)
  {
    if tokens != [] {
      var more := Code(c, tokens[1..]);
      HitsInCode(c, tokens[1..], name);
      assert ([tokens[0]] + more)[1..] == more && [] + more == more;
    }
  }

  lemma {:induction false} HitsTidied(c: Chars, tokens: seq<Token>, name: string)
    ensures Hits(Tidied(c, tokens), name) == Hits(tokens, name)
  {
    if tokens != [] {
      HitsTidied(c, tokens[1..], name);
      assert Tidied(c, tokens)[1..] == Tidied(c, tokens[1..]);
    }
  }

  lemma HitsOf(c: Chars, source: string, name: string)
    ensures Hits(Tidied(c, Code(c, Lex(c, Unix(source)))), name) == Hits(Lex(c, Unix(source)), name)
  {
    HitsInCode(c, Lex(c, Unix(source)), name);
    HitsTidied(c, Code(c, Lex(c, Unix(source))), name);
  }

  /** In the renamed code of the first source no word but the occurrences is called by the new name. */
  lemma NoneButOccurrences(c: Chars, before: string, after: string, oldName: string, newName: string)
    requires Accepts(c, before, after, oldName, newName) && SameCode(c, before, after, oldName, newName)
    requires oldName != newName
    ensures Hits(Code(c, Lex(c, Unix(before))), newName) == 0
  {
    var b, a := Code(c, Lex(c, Unix(before))), Code(c, Lex(c, Unix(after)));
    HitsOf(c, after, newName);
    HitsInCode(c, Lex(c, Unix(before)), oldName);
    CodeRenamed(c, Lex(c, Unix(before)), oldName, newName);
    HitsTidied(c, C.Renamed(b, oldName, newName), newName);
    C.RenamedHits(b, oldName, newName);
  }

  /** The same code has the marker for another word in both sources or in neither. */
  lemma SameMarks(c: Chars, before: string, after: string, oldName: string, newName: string)
    requires Accepts(c, before, after, oldName, newName) && SameCode(c, before, after, oldName, newName)
    ensures Unmarked(Code(c, Lex(c, Unix(before))), oldName) <==> Unmarked(Code(c, Lex(c, Unix(after))), newName)
  {
    var b, a := Code(c, Lex(c, Unix(before))), Code(c, Lex(c, Unix(after)));
    CodeRenamed(c, Lex(c, Unix(before)), oldName, newName);
    UnmarkedTidied(c, CodeOf(c, before, oldName, newName), newName);
    UnmarkedTidied(c, a, newName);
    if newName == MARKER && oldName != MARKER {
      NoneButOccurrences(c, before, after, oldName, newName);
      C.NoHits(c, b, MARKER);
    }
    UnmarkedRenamed(b, oldName, newName);
  }

  lemma UnmarkedRenamed(tokens: seq<Token>, oldName: string, newName: string)
    requires newName == MARKER ==> Unmarked(tokens, oldName)
    ensures Unmarked(tokens, oldName) <==> Unmarked(C.Renamed(tokens, oldName, newName), newName)
  {
    var renamed := C.Renamed(tokens, oldName, newName);
    RenamedAt(tokens, oldName, newName);
    if Unmarked(tokens, oldName) {
      UnmarkedStays(tokens, oldName, newName);
    } else {
      var t :| t in tokens && IsHit(t, MARKER);
      var i :| 0 <= i < |tokens| && tokens[i] == t;
      assert renamed[i] == t;
    }
  }

  /**
   Soundness, with its exact condition. Of an accepted pair of which one source at least is faithful, the second is the
   first renamed, token by token, if and only if both are.
   */
  lemma AcceptedIsRenameIff(c: Chars, before: string, after: string, oldName: string, newName: string)
    requires Sane(c) && Accepts(c, before, after, oldName, newName)
    requires Faithful(c, before, oldName) || Faithful(c, after, newName)
    ensures SameCode(c, before, after, oldName, newName)
      <==> Faithful(c, before, oldName) && Faithful(c, after, newName)
  {
    CanonicalCode(c, Unix(before), oldName);
    CanonicalCode(c, Unix(after), newName);
    RenamedToItself(Lex(c, Unix(after)), newName);
    if Faithful(c, before, oldName) && Faithful(c, after, newName) {
      CodeUnmarked(c, before, oldName, newName);
      CodeUnmarked(c, after, newName, newName);
    } else if SameCode(c, before, after, oldName, newName) {
      SameLength(c, before, after, oldName, newName);
      SameMarks(c, before, after, oldName, newName);
      assert false;
    }
  }

  lemma TidyIsKept(c: Chars, tokens: seq<Token>)
    ensures (forall t <- tokens :: Tidy(c, t) == t) <==> Tidied(c, tokens) == tokens
  {
    if Tidied(c, tokens) == tokens {
      forall t | t in tokens ensures Tidy(c, t) == t {
        var i :| 0 <= i < |tokens| && tokens[i] == t;
        assert Tidied(c, tokens)[i] == t;
      }
    }
  }

  /** And to the letter if and only if, besides, the quoted text of both is tidy. */
  lemma AcceptedIsExactRenameIff(c: Chars, before: string, after: string, oldName: string, newName: string)
    requires Sane(c) && Accepts(c, before, after, oldName, newName)
    requires (Faithful(c, before, oldName) && QuotesTidy(c, before))
      || (Faithful(c, after, newName) && QuotesTidy(c, after))
    ensures SameCodeExactly(c, before, after, oldName, newName) <==>
      && Faithful(c, before, oldName) && QuotesTidy(c, before)
      && Faithful(c, after, newName) && QuotesTidy(c, after)
  {
    var b, a := Code(c, Lex(c, Unix(before))), Code(c, Lex(c, Unix(after)));
    AcceptedIsRenameIff(c, before, after, oldName, newName);
    TidyIsKept(c, b);
    TidyIsKept(c, a);
    CodeRenamed(c, Lex(c, Unix(before)), oldName, newName);
    TidiedRenamed(c, b, oldName, newName);
    TidyRenamed(c, b, oldName, newName);
  }

  /** Renaming leaves quoted text as tidy as it was. */
  lemma TidyRenamed(c: Chars, tokens: seq<Token>, oldName: string, newName: string)
    ensures Tidied(c, C.Renamed(tokens, oldName, newName)) == C.Renamed(tokens, oldName, newName) <==>
      Tidied(c, tokens) == tokens
  {
    var renamed := C.Renamed(tokens, oldName, newName);
    RenamedAt(tokens, oldName, newName);
    forall i | 0 <= i < |tokens|
      ensures Tidied(c, renamed)[i] == renamed[i] <==> Tidied(c, tokens)[i] == tokens[i]
    {
    }
  }
}
