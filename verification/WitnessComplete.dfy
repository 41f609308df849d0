/**
 Completeness of the rename witness: renaming every counted occurrence, comments left alone, is accepted exactly
 when the new name is fresh.
 */
module WitnessComplete {
  import opened Wrappers
  import opened WitnessLexer
  import opened Witness
  import S = WitnessSound

  function Renamed(tokens: seq<Token>, oldName: string, newName: string): seq<Token> {
    if tokens == [] then []
    else
      [if IsHit(tokens[0], oldName) then Token(Word, newName) else tokens[0]]
      + Renamed(tokens[1..], oldName, newName)
  }

  /** No word of the source is the new name and no quoted text mentions it. */
  predicate Fresh(c: Chars, tokens: seq<Token>, newName: string) {
    forall t <- tokens :: !IsHit(t, newName) && (t.kind.Quoted? ==> !HasWord(c, t.text, newName))
  }

  // ---- The renamed text is scanned as the original was ------------------------------------------------

  /** Two texts that start alike: both empty, or with the same character, or both with the start of a word. */
  ghost predicate Alike(c: Chars, r: string, r': string) {
    if r == "" then r' == "" else r' != "" && (r[0] == r'[0] || (IsStart(c, r[0]) && IsStart(c, r'[0])))
  }

  lemma {:induction false} BlockEndLocal(s: string, u: string, k: nat)
    requires k <= |s| && BlockEnd(s, k) < |s| && BlockEnd(s, k) <= |u| && u[..BlockEnd(s, k)] == s[..BlockEnd(s, k)]
    ensures BlockEnd(u, k) == BlockEnd(s, k)
    decreases |s| - k
  {
    var e := BlockEnd(s, k);
    assert s[k] == s[..e][k] == u[..e][k] == u[k] && s[k + 1] == s[..e][k + 1] == u[..e][k + 1] == u[k + 1];
    if !(s[k] == '*' && s[k + 1] == '/') {
      BlockEndLocal(s, u, k + 1);
    }
  }

  lemma {:induction false} LineEndLocal(s: string, u: string, k: nat)
    requires k <= |s| && LineEnd(s, k) < |s| && LineEnd(s, k) < |u|
    requires u[..LineEnd(s, k)] == s[..LineEnd(s, k)] && u[LineEnd(s, k)] == '\n'
    ensures LineEnd(u, k) == LineEnd(s, k)
    decreases |s| - k
  {
    var e := LineEnd(s, k);
    if k < e {
      assert s[k] == s[..e][k] == u[..e][k] == u[k];
      LineEndLocal(s, u, k + 1);
    }
  }

  lemma {:induction false} LineEndsAtNewline(s: string, k: nat)
    requires k <= |s| && LineEnd(s, k) < |s|
    ensures s[LineEnd(s, k)] == '\n'
    decreases |s| - k
  {
    if s[k] != '\n' {
      LineEndsAtNewline(s, k + 1);
    }
  }

  lemma {:induction false} QuoteEndLocal(s: string, u: string, q: char, k: nat)
    requires s != "" && u != "" && 0 < k && QuoteEnd(s, q, k) < |s| && QuoteEnd(s, q, k) <= |u|
    requires u[..QuoteEnd(s, q, k)] == s[..QuoteEnd(s, q, k)]
    ensures QuoteEnd(u, q, k) == QuoteEnd(s, q, k)
    decreases |s| - k
  {
    var e := QuoteEnd(s, q, k);
    assert s[k] == s[..e][k] == u[..e][k] == u[k];
    if s[k] == '\\' {
      QuoteEndLocal(s, u, q, k + 2);
    } else if s[k] != q {
      QuoteEndLocal(s, u, q, k + 1);
    }
  }

  /** A word reaches exactly as far as characters that can continue it. */
  lemma {:induction false} WordEndExact(c: Chars, u: string, k: nat, e: nat)
    requires k <= e <= |u| && (forall i :: k <= i < e ==> IsPart(c, u[i])) && (e == |u| || !IsPart(c, u[e]))
    ensures WordEnd(c, u, k) == e
    decreases e - k
  {
    if k < e {
      WordEndExact(c, u, k + 1, e);
    }
  }

  lemma {:induction false} WordIsParts(c: Chars, s: string, k: nat)
    requires k <= |s|
    ensures forall i :: k <= i < WordEnd(c, s, k) ==> IsPart(c, s[i])
    decreases |s| - k
  {
    if k < |s| && IsPart(c, s[k]) {
      WordIsParts(c, s, k + 1);
    }
  }

  lemma MarksStartNothing(c: Chars, x: char)
    requires Sane(c) && (x == '/' || x == '*' || x == '\n' || x == '<' || x == '>' || x == '.' || x == ':'
      || IsQuote(x))
    ensures !IsStart(c, x) && !IsPart(c, x)
  {
    assert MARKS[0] == '/' && MARKS[1] == '*' && MARKS[2] == '\'' && MARKS[3] == '"' && MARKS[4] == '`';
    assert MARKS[6] == '<' && MARKS[7] == '>' && MARKS[8] == '.' && MARKS[9] == ':';
  }

  lemma CommentKept(c: Chars, s: string, rest': string)
    requires Sane(c) && s != "" && First(c, s).kind.Comment? && |First(c, s).text| < |s|
    requires Alike(c, s[|First(c, s).text|..], rest')
    ensures First(c, First(c, s).text + rest') == First(c, s)
  {
    var t := First(c, s);
    var e := |t.text|;
    var u := t.text + rest';
    assert u[..e] == t.text == s[..e];
    assert e >= 2 && u[0] == s[0] && u[1] == s[1] by {
      assert s[0] == s[..e][0] == u[..e][0] && s[1] == s[..e][1] == u[..e][1];
    }
    if s[1] == '/' {
      LineEndsAtNewline(s, 2);
      MarksStartNothing(c, '\n');
      assert u[e] == rest'[0] && s[e] == s[e..][0];
      LineEndLocal(s, u, 2);
    } else {
      BlockEndLocal(s, u, 2);
    }
  }

  lemma QuotedKept(c: Chars, s: string, rest': string)
    requires s != "" && First(c, s).kind.Quoted? && |First(c, s).text| < |s|
    ensures First(c, First(c, s).text + rest') == First(c, s)
  {
    var t := First(c, s);
    var e := |t.text|;
    var u := t.text + rest';
    assert u[..e] == t.text == s[..e];
    assert s[0] == s[..e][0] == u[..e][0] == u[0];
    QuoteEndLocal(s, u, s[0], 1);
  }

  /** Any word followed by something that cannot continue it is scanned as that word. */
  lemma WordScanned(c: Chars, w: string, rest': string)
    requires Sane(c) && w != "" && IsStart(c, w[0]) && (forall i :: 1 <= i < |w| ==> IsPart(c, w[i]))
    requires rest' == "" || !IsPart(c, rest'[0])
    ensures First(c, w + rest') == Token(Word, w)
  {
    var u := w + rest';
    assert u[0] == w[0] && u[..|w|] == w;
    if w[0] == '/' || IsQuote(w[0]) {
      MarksStartNothing(c, w[0]);
    }
    assert forall i :: 1 <= i < |w| ==> u[i] == w[i];
    assert rest' != "" ==> u[|w|] == rest'[0];
    WordEndExact(c, u, 1, |w|);
  }

  lemma AfterWord(c: Chars, s: string, rest': string)
    requires Sane(c) && s != "" && First(c, s).kind.Word?
    requires Alike(c, s[|First(c, s).text|..], rest')
    ensures rest' == "" || !IsPart(c, rest'[0])
  {
    var e := |First(c, s).text|;
    S.WordStops(c, s, 1);
    if rest' != "" {
      assert s[e..][0] == s[e];
      S.StartIsPart(c, s[e]);
    }
  }

  lemma WordKept(c: Chars, s: string, rest': string)
    requires Sane(c) && s != "" && First(c, s).kind.Word?
    requires Alike(c, s[|First(c, s).text|..], rest')
    ensures First(c, First(c, s).text + rest') == First(c, s)
  {
    AfterWord(c, s, rest');
    WordIsParts(c, s, 1);
    WordScanned(c, First(c, s).text, rest');
  }

  lemma SingleKept(c: Chars, s: string, rest': string)
    requires Sane(c) && s != "" && (First(c, s).kind.Slash? || First(c, s).kind.Other?) && |s| > 1
    requires Alike(c, s[1..], rest')
    ensures First(c, First(c, s).text + rest') == First(c, s)
  {
    var u := First(c, s).text + rest';
    assert u[0] == s[0] && u[1] == rest'[0] && s[1..][0] == s[1] && u[..1] == s[..1];
    MarksStartNothing(c, '/');
    MarksStartNothing(c, '*');
  }

  /** What is scanned first does not depend on how the rest goes on, as long as it starts alike. */
  lemma FirstKept(c: Chars, s: string, rest': string)
    requires Sane(c) && s != ""
    requires Alike(c, s[|First(c, s).text|..], rest')
    ensures First(c, First(c, s).text + rest') == First(c, s)
  {
    var t := First(c, s);
    if |t.text| == |s| {
      assert t.text + rest' == s;
    } else {
      match t.kind {
        case Comment => CommentKept(c, s, rest');
        case Quoted => QuotedKept(c, s, rest');
        case Word => WordKept(c, s, rest');
        case _ => SingleKept(c, s, rest');
      }
    }
  }

  /** The tokens of the renamed text are the renamed tokens. */
  lemma {:induction false} LexRenamed(c: Chars, s: string, oldName: string, newName: string)
    requires Sane(c) && IsName(newName)
    ensures Lex(c, Text(Renamed(Lex(c, s), oldName, newName))) == Renamed(Lex(c, s), oldName, newName)
    decreases |s|
  {
    if s != "" {
      var t := First(c, s);
      var rest := s[|t.text|..];
      var rest' := Text(Renamed(Lex(c, rest), oldName, newName));
      LexStep(c, s);
      LexRenamed(c, rest, oldName, newName);
      var t' := if IsHit(t, oldName) then Token(Word, newName) else t;
      if IsHit(t, oldName) {
        AfterWord(c, s, rest');
        WordScanned(c, newName, rest');
      } else {
        FirstKept(c, s, rest');
      }
      assert First(c, t'.text + rest') == t' && (t'.text + rest')[|t'.text|..] == rest';
      assert Renamed(Lex(c, s), oldName, newName) == [t'] + Renamed(Lex(c, rest), oldName, newName);
      LexStep(c, t'.text + rest');
    }
  }

  // ---- The context looks the same -------------------------------------------------------------------

  /** The same character, or both part of a word. */
  ghost predicate Akin(c: Chars, x: Option<char>, y: Option<char>) {
    x == y || (x.Some? && y.Some? && IsPart(c, x.value) && IsPart(c, y.value))
  }

  lemma {:induction false} LastSolidAppend(c: Chars, a: string, b: string)
    ensures LastSolid(c, a + b) == if LastSolid(c, b).Some? then LastSolid(c, b) else LastSolid(c, a)
    decreases |b|
  {
    if b == "" {
      assert a + b == a;
    } else {
      var u := a + b;
      assert u[|u| - 1] == b[|b| - 1] && u[..|u| - 1] == a + b[..|b| - 1];
      LastSolidAppend(c, a, b[..|b| - 1]);
    }
  }

  lemma {:induction false} TrimAppend(c: Chars, a: string, b: string)
    ensures FirstSolid(c, a + b) == if FirstSolid(c, a).Some? then FirstSolid(c, a) else FirstSolid(c, b)
  {
    if a == "" {
      assert a + b == b;
    } else if c.space(a[0]) {
      assert (a + b)[1..] == a[1..] + b;
      TrimAppend(c, a[1..], b);
    }
  }

  lemma PartsAreSolid(c: Chars, x: char)
    requires Sane(c) && IsPart(c, x)
    ensures !c.space(x)
  {
    assert MARKS[10] == '_' && MARKS[11] == '$';
  }

  lemma {:induction false} FollowingAkin(c: Chars, tokens: seq<Token>, oldName: string, newName: string)
    requires Sane(c) && IsName(oldName) && IsName(newName)
    ensures Akin(c, FirstSolid(c, Text(tokens)), FirstSolid(c, Text(Renamed(tokens, oldName, newName))))
  {
    if tokens != [] {
      FollowingAkin(c, tokens[1..], oldName, newName);
      TrimAppend(c, tokens[0].text, Text(tokens[1..]));
      var t' := if IsHit(tokens[0], oldName) then Token(Word, newName) else tokens[0];
      var more := Renamed(tokens[1..], oldName, newName);
      assert Renamed(tokens, oldName, newName) == [t'] + more;
      TrimAppend(c, t'.text, Text(more));
    }
  }

  lemma NamesEndInParts(c: Chars, name: string)
    requires Sane(c) && IsName(name)
    ensures var x := LastSolid(c, name); x.Some? && IsPart(c, x.value)
  {
    assert IsPart(c, name[|name| - 1]);
    PartsAreSolid(c, name[|name| - 1]);
  }

  lemma PreviousAkin(c: Chars, b: string, b': string, t: Token, oldName: string, newName: string)
    requires Sane(c) && IsName(oldName) && IsName(newName)
    requires Akin(c, LastSolid(c, b), LastSolid(c, b'))
    ensures Akin(c, LastSolid(c, b + t.text), LastSolid(c, b' + if IsHit(t, oldName) then newName else t.text))
  {
    LastSolidAppend(c, b, t.text);
    if IsHit(t, oldName) {
      LastSolidAppend(c, b', newName);
      NamesEndInParts(c, oldName);
      NamesEndInParts(c, newName);
    } else {
      LastSolidAppend(c, b', t.text);
    }
  }

  /** Where the witness did not give up on the old name it does not give up on a fresh new one. */
  lemma {:induction false} RenamedIsClean(c: Chars, b: string, b': string, tokens: seq<Token>, oldName: string,
                                          newName: string)
    requires Sane(c) && IsName(oldName) && IsName(newName)
    requires Akin(c, LastSolid(c, b), LastSolid(c, b'))
    requires Clean(c, b, tokens, oldName) && Fresh(c, tokens, newName)
    ensures Clean(c, b', Renamed(tokens, oldName, newName), newName)
    decreases |tokens|
  {
    if tokens != [] {
      var t, rest := tokens[0], tokens[1..];
      var t' := if IsHit(t, oldName) then Token(Word, newName) else t;
      var rest' := Renamed(rest, oldName, newName);
      assert t in tokens;
      assert Fresh(c, rest, newName) by {
        forall r | r in rest ensures r in tokens {
        }
      }
      PreviousAkin(c, b, b', t, oldName, newName);
      FollowingAkin(c, rest, oldName, newName);
      RenamedIsClean(c, b + t.text, b' + t'.text, rest, oldName, newName);
      assert Renamed(tokens, oldName, newName)[0] == t' && Renamed(tokens, oldName, newName)[1..] == rest';
      assert !GivesUp(c, b, t, Text(rest), oldName);
      assert !GivesUp(c, b', t', Text(rest'), newName);
    }
  }

  // ---- The canonical form is the same ----------------------------------------------------------------

  lemma {:induction false} RenamedRendersSame(c: Chars, tokens: seq<Token>, oldName: string, newName: string,
                                              with: string)
    requires Fresh(c, tokens, newName)
    ensures Render(Renamed(tokens, oldName, newName), newName, with) == Render(tokens, oldName, with)
  {
    if tokens != [] {
      assert tokens[0] in tokens;
      assert Fresh(c, tokens[1..], newName) by {
        forall r | r in tokens[1..] ensures r in tokens {
        }
      }
      RenamedRendersSame(c, tokens[1..], oldName, newName, with);
      var t' := if IsHit(tokens[0], oldName) then Token(Word, newName) else tokens[0];
      assert Renamed(tokens, oldName, newName)[0] == t';
      assert Renamed(tokens, oldName, newName)[1..] == Renamed(tokens[1..], oldName, newName);
    }
  }

  lemma {:induction false} RenamedHits(tokens: seq<Token>, oldName: string, newName: string)
    requires oldName != newName
    ensures Hits(Renamed(tokens, oldName, newName), newName) == Hits(tokens, oldName) + Hits(tokens, newName)
  {
    if tokens != [] {
      RenamedHits(tokens[1..], oldName, newName);
      assert Renamed(tokens, oldName, newName)[1..] == Renamed(tokens[1..], oldName, newName);
    }
  }

  lemma {:induction false} NoHits(c: Chars, tokens: seq<Token>, name: string)
    ensures Hits(tokens, name) == 0 <==> forall t <- tokens :: !IsHit(t, name)
  {
    if tokens != [] {
      NoHits(c, tokens[1..], name);
      assert tokens == [tokens[0]] + tokens[1..];
    }
  }

  /** A quoted mention of the new name survives the renaming and makes the witness give up. */
  lemma {:induction false} MentionIsFatal(c: Chars, b: string, tokens: seq<Token>, oldName: string, newName: string,
                                          t: Token)
    requires t in tokens && t.kind.Quoted? && HasWord(c, t.text, newName)
    ensures !Clean(c, b, Renamed(tokens, oldName, newName), newName)
    decreases |tokens|
  {
    var t' := if IsHit(tokens[0], oldName) then Token(Word, newName) else tokens[0];
    var rest' := Renamed(tokens[1..], oldName, newName);
    assert Renamed(tokens, oldName, newName)[0] == t' && Renamed(tokens, oldName, newName)[1..] == rest';
    if t != tokens[0] {
      assert t in tokens[1..];
      MentionIsFatal(c, b + t'.text, tokens[1..], oldName, newName, t);
    }
  }

  /**
   Completeness, with its exact condition. For a source the witness can read and in which it counts the old name,
   the source with every counted occurrence renamed is accepted if and only if the new name is fresh.
   */
  lemma RenameAcceptedIff(c: Chars, before: string, after: string, oldName: string, newName: string)
    requires Sane(c) && IsName(newName) && oldName != newName
    requires CanonicalSource(c, before, oldName).Some? && CanonicalSource(c, before, oldName).value.count > 0
    requires Unix(after) == Text(Renamed(Lex(c, Unix(before)), oldName, newName))
    ensures Accepts(c, before, after, oldName, newName) <==> Fresh(c, Lex(c, Unix(before)), newName)
  {
    var tokens := Lex(c, Unix(before));
    LexRenamed(c, Unix(before), oldName, newName);
    RenamedHits(tokens, oldName, newName);
    NoHits(c, tokens, newName);
    if Fresh(c, tokens, newName) {
      RenamedIsClean(c, "", "", tokens, oldName, newName);
      RenamedRendersSame(c, tokens, oldName, newName, MARKER);
    } else if Accepts(c, before, after, oldName, newName) {
      var t :| t in tokens && (IsHit(t, newName) || (t.kind.Quoted? && HasWord(c, t.text, newName)));
      if t.kind.Quoted? {
        MentionIsFatal(c, "", tokens, oldName, newName, t);
      }
    }
  }
}
