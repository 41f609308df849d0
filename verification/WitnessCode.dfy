/**
 The code of a source: its tokens without comments and blanks. Leaving comments out of the text may join a word to what
 follows; what is proved is that nothing else happens to the code.
 */
module WitnessCode {
  import opened WitnessLexer
  import opened Witness
  import opened WitnessSound
  import C = WitnessComplete

  // ---- Code -----------------------------------------------------------------------------------------

  predicate IsBlank(c: Chars, t: Token) {
    t.kind.Other? && t.text != "" && c.space(t.text[0])
  }

  /** The tokens that are neither comments nor blanks. */
  function Code(c: Chars, tokens: seq<Token>): seq<Token> {
    if tokens == [] then []
    else (if tokens[0].kind.Comment? || IsBlank(c, tokens[0]) then [] else [tokens[0]]) + Code(c, tokens[1..])
  }

  lemma CodeStep(c: Chars, u: string)
    requires u != ""
    ensures var t := First(c, u); var rest := Lex(c, u[|t.text|..]);
      && Code(c, Lex(c, u)) == (if t.kind.Comment? || IsBlank(c, t) then [] else [t]) + Code(c, rest)
      && Strip(Lex(c, u)) == (if t.kind.Comment? then Newlines(Count('\n', t.text)) else t.text) + Strip(rest)
      && NoJoins(c, Lex(c, u)) == ((t.kind.Word? ==> !Continues(c, Strip(rest))) && NoJoins(c, rest))
  {
    LexStep(c, u);
  }

  /** Text in front of which a token was scanned, or the token itself alone. */
  lemma ScannedFirst(c: Chars, t: Token, rest: string)
    requires t.text != "" && First(c, t.text + rest) == t
    ensures Lex(c, t.text + rest) == [t] + Lex(c, rest)
    ensures Code(c, Lex(c, t.text + rest)) == (if t.kind.Comment? || IsBlank(c, t) then [] else [t])
      + Code(c, Lex(c, rest))
    ensures CommentFree(Lex(c, t.text + rest)) <==> !t.kind.Comment? && CommentFree(Lex(c, rest))
  {
    assert (t.text + rest)[|t.text|..] == rest;
    assert ([t] + Lex(c, rest))[1..] == Lex(c, rest);
    assert forall x :: x in [t] + Lex(c, rest) <==> x == t || x in Lex(c, rest);
  }

  // ---- Leaving comments out ---------------------------------------------------------------------------

  lemma BlankScanned(c: Chars, x: char, rest: string)
    requires Sane(c) && c.space(x)
    ensures Code(c, Lex(c, [x] + rest)) == Code(c, Lex(c, rest))
    ensures CommentFree(Lex(c, [x] + rest)) == CommentFree(Lex(c, rest))
  {
    if x in MARKS {
      assert false;
    } else {
      assert MARKS[0] == '/' && MARKS[2] == '\'' && MARKS[3] == '"' && MARKS[4] == '`' && MARKS[10] == '_'
        && MARKS[11] == '$';
      ScannedFirst(c, Token(Other, [x]), rest);
    }
  }

  lemma {:induction false} NewlinesScanned(c: Chars, n: nat, rest: string)
    requires Sane(c)
    ensures Code(c, Lex(c, Newlines(n) + rest)) == Code(c, Lex(c, rest))
    ensures CommentFree(Lex(c, Newlines(n) + rest)) == CommentFree(Lex(c, rest))
  {
    if n == 0 {
      assert Newlines(n) + rest == rest;
    } else {
      assert Newlines(n) + rest == ['\n'] + (Newlines(n - 1) + rest);
      BlankScanned(c, '\n', Newlines(n - 1) + rest);
      NewlinesScanned(c, n - 1, rest);
    }
  }

  /** What follows a slash in a scanned text neither is a comment nor could make the slash the start of one. */
  lemma AfterSlash(c: Chars, u: string)
    requires Sane(c) && u != "" && First(c, u).kind.Slash? && |u| > 1
    ensures u[1] != '/' && u[1] != '*'
    ensures var s := Strip(Lex(c, u[1..])); s != "" && s[0] == u[1]
  {
    var rest := u[1..];
    CodeStep(c, rest);
    assert rest[0] == u[1];
    assert !First(c, rest).kind.Comment?;
    assert First(c, rest).text[0] == rest[..|First(c, rest).text|][0];
  }

  lemma AfterQuoted(c: Chars, u: string)
    requires u != "" && First(c, u).kind.Quoted?
    ensures var t := First(c, u); First(c, t.text + Strip(Lex(c, u[|t.text|..]))) == t
  {
    var t := First(c, u);
    var more := Strip(Lex(c, u[|t.text|..]));
    if |t.text| == |u| {
      assert t.text + more == u;
    } else {
      C.QuotedKept(c, u, more);
    }
  }

  lemma AfterSingle(c: Chars, u: string)
    requires Sane(c) && u != "" && (First(c, u).kind.Slash? || First(c, u).kind.Other?)
    ensures var t := First(c, u); First(c, t.text + Strip(Lex(c, u[|t.text|..]))) == t
  {
    var t := First(c, u);
    var more := Strip(Lex(c, u[1..]));
    if t.kind.Slash? && |u| > 1 {
      AfterSlash(c, u);
    }
    var v := t.text + more;
    assert v[0] == u[0] && v[..1] == u[..1];
    assert |v| > 1 ==> v[1] == more[0];
  }

  lemma AfterWord(c: Chars, u: string)
    requires Sane(c) && u != "" && First(c, u).kind.Word?
    requires !Continues(c, Strip(Lex(c, u[|First(c, u).text|..])))
    ensures var t := First(c, u); First(c, t.text + Strip(Lex(c, u[|t.text|..]))) == t
  {
    C.WordIsParts(c, u, 1);
    C.WordScanned(c, First(c, u).text, Strip(Lex(c, u[|First(c, u).text|..])));
  }

  /** With nothing joined, a token is scanned again where comments are left out behind it. */
  lemma TokenKept(c: Chars, u: string)
    requires Sane(c) && u != "" && !First(c, u).kind.Comment?
    requires First(c, u).kind.Word? ==> !Continues(c, Strip(Lex(c, u[|First(c, u).text|..])))
    ensures var t := First(c, u); First(c, t.text + Strip(Lex(c, u[|t.text|..]))) == t
  {
    match First(c, u).kind {
      case Quoted => AfterQuoted(c, u);
      case Word => AfterWord(c, u);
      case _ => AfterSingle(c, u);
    }
  }

  /** A run of characters that can continue a word is at least one token. */
  lemma {:induction false} PartsAreTokens(c: Chars, p: string, rest: string)
    requires Sane(c) && (forall x <- p :: IsPart(c, x)) && !Continues(c, rest)
    ensures |Code(c, Lex(c, p + rest))| >= (if p == "" then 0 else 1) + |Code(c, Lex(c, rest))|
    ensures CommentFree(Lex(c, p + rest)) ==> CommentFree(Lex(c, rest))
  {
    if p == "" {
      assert p + rest == rest;
    } else {
      assert p[0] in p;
      C.PartsAreSolid(c, p[0]);
      if IsStart(c, p[0]) {
        C.WordScanned(c, p, rest);
        ScannedFirst(c, Token(Word, p), rest);
      } else {
        var more := p[1..] + rest;
        assert p + rest == [p[0]] + more;
        if p[0] == '/' || IsQuote(p[0]) {
          C.MarksStartNothing(c, p[0]);
        }
        assert First(c, [p[0]] + more) == Token(Other, [p[0]]);
        ScannedFirst(c, Token(Other, [p[0]]), more);
        PartsAreTokens(c, p[1..], rest);
      }
    }
  }

  /** A word joined to what follows swallows at least one token of it. */
  lemma JoinLoses(c: Chars, w: string, more: string)
    requires Sane(c) && w != "" && IsStart(c, w[0]) && (forall i :: 1 <= i < |w| ==> IsPart(c, w[i]))
    requires Continues(c, more)
    ensures |Code(c, Lex(c, w + more))| <= |Code(c, Lex(c, more))|
    ensures CommentFree(Lex(c, more)) ==> CommentFree(Lex(c, w + more))
  {
    var e := WordEnd(c, more, 0);
    WordStops(c, more, 0);
    C.WordIsParts(c, more, 0);
    var p, rest := more[..e], more[e..];
    assert more == p + rest && w + more == (w + p) + rest;
    assert e > 0;
    forall x | x in p ensures IsPart(c, x) {
    }
    PartsAreTokens(c, p, rest);
    C.WordScanned(c, w + p, rest);
    ScannedFirst(c, Token(Word, w + p), rest);
  }

  /** Leaving comments out keeps the code just when nothing is joined; a join always loses a token. */
  lemma {:induction false} StripKeepsCode(c: Chars, u: string)
    requires Sane(c)
    ensures NoJoins(c, Lex(c, u)) ==> Code(c, Lex(c, Strip(Lex(c, u)))) == Code(c, Lex(c, u))
    ensures CommentFree(Lex(c, Strip(Lex(c, u))))
    ensures !NoJoins(c, Lex(c, u)) ==> |Code(c, Lex(c, Strip(Lex(c, u))))| < |Code(c, Lex(c, u))|
    decreases |u|
  {
    if u != "" {
      var t := First(c, u);
      var rest := u[|t.text|..];
      var more := Strip(Lex(c, rest));
      CodeStep(c, u);
      StripKeepsCode(c, rest);
      if t.kind.Comment? {
        NewlinesScanned(c, Count('\n', t.text), more);
      } else if t.kind.Word? && Continues(c, more) {
        C.WordIsParts(c, u, 1);
        JoinLoses(c, t.text, more);
      } else {
        TokenKept(c, u);
        ScannedFirst(c, t, more);
      }
    }
  }
}
