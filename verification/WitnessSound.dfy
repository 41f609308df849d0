/**
 Soundness of the rename witness: a source it accepts is, up to comments and runs of whitespace, the first source
 with exactly the code occurrences of the old name replaced by the new one.
 */
module WitnessSound {
  import opened Decimals
  import opened WitnessLexer
  import opened Witness

  // ---- Replacing the marker -------------------------------------------------------------------------

  /** Every occurrence of the marker, taken from the left, replaced. */
  function Unmark(s: string, with: string): string {
    if s == "" then ""
    else if MARKER <= s then with + Unmark(s[|MARKER|..], with)
    else [s[0]] + Unmark(s[1..], with)
  }

  /** Text that has no whitespace in it. */
  ghost predicate Solid(c: Chars, w: string) {
    forall x <- w :: !c.space(x)
  }

  lemma {:induction false} SqueezeSolid(c: Chars, w: string, t: string)
    requires Solid(c, w)
    ensures Squeeze(c, w + t) == w + Squeeze(c, t)
  {
    if w == "" {
      assert w + t == t;
    } else {
      assert (w + t)[0] == w[0] && (w + t)[1..] == w[1..] + t;
      assert w[0] in w;
      SqueezeSolid(c, w[1..], t);
      assert w == [w[0]] + w[1..];
    }
  }

  /** Squeezing creates no solid prefix that was not there. */
  lemma {:induction false} PrefixSurvives(c: Chars, w: string, s: string)
    requires Solid(c, w) && c.space(' ')
    requires w <= Squeeze(c, s)
    ensures w <= s
  {
    if w != "" {
      assert w[0] in w;
      assert s != "" && !c.space(s[0]) by {
        assert Squeeze(c, s)[0] == w[0];
      }
      assert Squeeze(c, s)[1..] == Squeeze(c, s[1..]);
      assert w[1..] <= Squeeze(c, s[1..]);
      PrefixSurvives(c, w[1..], s[1..]);
      assert s == [s[0]] + s[1..] && w == [w[0]] + w[1..];
    }
  }

  lemma {:induction false} TrimUnmark(c: Chars, s: string, with: string)
    requires Solid(c, MARKER) && Solid(c, with) && with != ""
    ensures TrimLeft(c, Unmark(s, with)) == Unmark(TrimLeft(c, s), with)
  {
    if s != "" {
      if c.space(s[0]) {
        assert !(MARKER <= s) by {
          assert MARKER[0] in MARKER;
        }
        TrimUnmark(c, s[1..], with);
        assert Unmark(s, with)[1..] == Unmark(s[1..], with);
      } else if MARKER <= s {
        assert with[0] in with;
      }
    }
  }

  /** Replacing the marker and squeezing whitespace may be done in either order. */
  lemma {:induction false} SqueezeUnmark(c: Chars, s: string, with: string)
    requires c.space(' ') && Solid(c, MARKER) && Solid(c, with) && with != ""
    ensures Unmark(Squeeze(c, s), with) == Squeeze(c, Unmark(s, with))
    decreases |s|
  {
    if s == "" {
    } else if MARKER <= s {
      var t := s[|MARKER|..];
      assert s == MARKER + t;
      SqueezeSolid(c, MARKER, t);
      SqueezeUnmark(c, t, with);
      SqueezeSolid(c, with, Unmark(t, with));
      assert (MARKER + Squeeze(c, t))[|MARKER|..] == Squeeze(c, t);
    } else if !c.space(s[0]) {
      UnmarkPlain(c, s, with);
      SqueezeUnmark(c, s[1..], with);
      assert Unmark(s, with)[1..] == Unmark(s[1..], with);
    } else {
      var t := TrimLeft(c, s);
      TrimUnmark(c, s, with);
      assert Unmark(s, with)[0] == s[0];
      if t != "" {
        SqueezeUnmark(c, t, with);
        UnmarkSpace(c, Squeeze(c, t), with);
      }
    }
  }

  lemma UnmarkPlain(c: Chars, s: string, with: string)
    requires c.space(' ') && Solid(c, MARKER) && s != "" && !c.space(s[0]) && !(MARKER <= s)
    ensures Unmark(Squeeze(c, s), with) == [s[0]] + Unmark(Squeeze(c, s[1..]), with)
  {
    if MARKER <= Squeeze(c, s) {
      PrefixSurvives(c, MARKER, s);
    }
    assert Squeeze(c, s)[1..] == Squeeze(c, s[1..]);
  }

  lemma UnmarkSpace(c: Chars, s: string, with: string)
    ensures Unmark(" " + s, with) == " " + Unmark(s, with)
  {
    assert (" " + s)[1..] == s;
    assert MARKER[0] != ' ';
  }

  lemma CollapseUnmark(c: Chars, s: string, with: string)
    requires c.space(' ') && Solid(c, MARKER) && Solid(c, with) && with != ""
    ensures Unmark(Collapse(c, s), with) == Collapse(c, Unmark(s, with))
  {
    TrimUnmark(c, s, with);
    SqueezeUnmark(c, TrimLeft(c, s), with);
  }

  // ---- The marker marks exactly the occurrences -----------------------------------------------------

  /** The marker does not occur in the text. */
  predicate Free(s: string) {
    s == "" || (!(MARKER <= s) && Free(s[1..]))
  }

  /** No occurrence of the marker starts inside `seg` when `rest` follows. */
  predicate NoStart(seg: string, rest: string) {
    seg == "" || (!(MARKER <= seg + rest) && NoStart(seg[1..], rest))
  }

  lemma {:induction false} UnmarkSkips(seg: string, rest: string, with: string)
    requires NoStart(seg, rest)
    ensures Unmark(seg + rest, with) == seg + Unmark(rest, with)
  {
    if seg == "" {
      assert seg + rest == rest;
    } else {
      assert (seg + rest)[1..] == seg[1..] + rest && (seg + rest)[0] == seg[0];
      UnmarkSkips(seg[1..], rest, with);
      assert seg == [seg[0]] + seg[1..];
    }
  }

  lemma {:induction false} FreeParts(a: string, b: string)
    requires Free(a + b)
    ensures Free(a) && Free(b)
  {
    if a == "" {
      assert a + b == b;
    } else {
      assert (a + b)[1..] == a[1..] + b;
      FreeParts(a[1..], b);
      assert MARKER <= a ==> MARKER <= a + b;
    }
  }

  /** An occurrence of the marker that does not fit into `seg` covers its last character and the next one. */
  lemma MarkerRunsOver(seg: string, rest: string)
    requires MARKER <= seg + rest && !(MARKER <= seg)
    ensures rest != "" && rest[0] in MARKER && (seg == "" || seg[|seg| - 1] in MARKER)
  {
    assert |seg| < |MARKER|;
    assert MARKER[|seg|] == (seg + rest)[|seg|] == rest[0];
    if seg != "" {
      assert MARKER[|seg| - 1] == (seg + rest)[|seg| - 1] == seg[|seg| - 1];
    }
  }

  lemma {:induction false} NoStartBefore(seg: string, rest: string)
    requires Free(seg) && (rest == "" || rest[0] !in MARKER)
    ensures NoStart(seg, rest)
  {
    if seg != "" {
      NoStartBefore(seg[1..], rest);
      if MARKER <= seg + rest {
        MarkerRunsOver(seg, rest);
      }
    }
  }

  lemma {:induction false} NoStartWithin(seg: string, rest: string)
    requires Free(seg) && (seg == "" || seg[|seg| - 1] !in MARKER)
    ensures NoStart(seg, rest)
  {
    if seg != "" {
      NoStartWithin(seg[1..], rest);
      if MARKER <= seg + rest {
        MarkerRunsOver(seg, rest);
      }
    }
  }

  lemma MarkerIsAWord(c: Chars)
    requires Sane(c)
    ensures forall x <- MARKER :: IsStart(c, x) && IsPart(c, x) && !c.space(x) && !IsQuote(x) && x != '/'
    ensures Solid(c, MARKER)
  {
    forall x | x in MARKER ensures x == '_' || IsLetter(x) {
    }
    forall x | x in MARKER ensures !c.space(x) {
      if x == '_' {
        assert '_' in MARKS;
      }
    }
  }

  lemma {:induction false} WordStops(c: Chars, s: string, k: nat)
    requires k <= |s|
    ensures WordEnd(c, s, k) == |s| || !IsPart(c, s[WordEnd(c, s, k)])
    decreases |s| - k
  {
    if k < |s| && IsPart(c, s[k]) {
      WordStops(c, s, k + 1);
    }
  }

  lemma {:induction false} QuoteCloses(s: string, q: char, k: nat)
    requires s != "" && k > 0
    ensures 0 < QuoteEnd(s, q, k) <= |s|
    ensures QuoteEnd(s, q, k) == |s| || s[QuoteEnd(s, q, k) - 1] == q
    decreases |s| - k
  {
    if k < |s| {
      if s[k] == '\\' {
        QuoteCloses(s, q, k + 2);
      } else if s[k] != q {
        QuoteCloses(s, q, k + 1);
      }
    }
  }

  /** The text without comments, of which the newlines stay. */
  function Strip(tokens: seq<Token>): string {
    if tokens == [] then ""
    else
      (if tokens[0].kind.Comment? then Newlines(Count('\n', tokens[0].text)) else tokens[0].text)
      + Strip(tokens[1..])
  }

  predicate Continues(c: Chars, s: string) {
    s != "" && IsPart(c, s[0])
  }

  /** No word is followed by comments without a newline and then by a character that continues it. */
  predicate NoJoins(c: Chars, tokens: seq<Token>) {
    tokens == [] || ((tokens[0].kind.Word? ==> !Continues(c, Strip(tokens[1..]))) && NoJoins(c, tokens[1..]))
  }

  /** Whether a word goes on does not depend on what the binding is called. */
  lemma {:induction false} ContinuesShown(c: Chars, u: string, name: string)
    requires Sane(c) && IsName(name)
    ensures Continues(c, Render(Lex(c, u), name, MARKER)) == Continues(c, Strip(Lex(c, u)))
    decreases |u|
  {
    if u != "" {
      var t := First(c, u);
      LexStep(c, u);
      ContinuesShown(c, u[|t.text|..], name);
      MarkerIsAWord(c);
      assert MARKER[0] in MARKER;
      assert IsPart(c, name[0]);
      if t.kind.Comment? && Count('\n', t.text) > 0 {
        assert Newlines(Count('\n', t.text))[0] == '\n';
      }
    }
  }

  /** The code does not contain the marker. */
  ghost predicate MarkerFree(tokens: seq<Token>) {
    forall t <- tokens :: !t.kind.Comment? ==> Free(t.text)
  }

  lemma WordIsQuiet(c: Chars, s: string, name: string)
    requires Sane(c) && IsName(name) && s != "" && NoJoins(c, Lex(c, s))
    requires First(c, s).kind.Word? && Free(First(c, s).text)
    ensures var t := First(c, s); NoStart(t.text, Render(Lex(c, s[|t.text|..]), name, MARKER))
  {
    var t := First(c, s);
    var rest := s[|t.text|..];
    LexStep(c, s);
    ContinuesShown(c, rest, name);
    MarkerIsAWord(c);
    NoStartBefore(t.text, Render(Lex(c, rest), name, MARKER));
  }

  lemma QuotedIsQuiet(c: Chars, s: string, shown: string)
    requires Sane(c) && s != ""
    requires First(c, s).kind.Quoted? && Free(First(c, s).text)
    requires |First(c, s).text| == |s| ==> shown == ""
    ensures NoStart(First(c, s).text, shown)
  {
    var t := First(c, s);
    QuoteCloses(s, s[0], 1);
    if |t.text| == |s| {
      NoStartBefore(t.text, shown);
    } else {
      MarkerIsAWord(c);
      assert t.text[|t.text| - 1] == s[|t.text| - 1] == s[0];
      NoStartWithin(t.text, shown);
    }
  }

  lemma SingleIsQuiet(c: Chars, s: string, shown: string)
    requires Sane(c) && s != ""
    requires (First(c, s).kind.Slash? || First(c, s).kind.Other?) && Free(First(c, s).text)
    ensures NoStart(First(c, s).text, shown)
  {
    MarkerIsAWord(c);
    assert |First(c, s).text| == 1 && First(c, s).text[0] == s[0];
    NoStartWithin(First(c, s).text, shown);
  }

  /** A token that is no occurrence of the name hides no marker, not even one that runs into what follows. */
  lemma PlainTokenIsQuiet(c: Chars, s: string, name: string)
    requires Sane(c) && IsName(name) && s != "" && NoJoins(c, Lex(c, s))
    requires !First(c, s).kind.Comment? && Free(First(c, s).text)
    ensures var t := First(c, s); NoStart(t.text, Render(Lex(c, s[|t.text|..]), name, MARKER))
  {
    var t := First(c, s);
    var shown := Render(Lex(c, s[|t.text|..]), name, MARKER);
    match t.kind {
      case Word => WordIsQuiet(c, s, name);
      case Quoted => QuotedIsQuiet(c, s, shown);
      case _ => SingleIsQuiet(c, s, shown);
    }
  }

  lemma StartIsPart(c: Chars, x: char)
    requires Sane(c)
    ensures IsStart(c, x) ==> IsPart(c, x)
  {
  }

  lemma {:induction false} NewlinesAreQuiet(n: nat, rest: string)
    ensures NoStart(Newlines(n), rest)
  {
    if n > 0 {
      assert Newlines(n)[1..] == Newlines(n - 1);
      NewlinesAreQuiet(n - 1, rest);
      assert (Newlines(n) + rest)[0] == '\n' && MARKER[0] != '\n';
    }
  }

  /** Replacing the marker in the canonical text puts the new name at the occurrences and nowhere else. */
  lemma {:induction false} MarkerMarksOccurrences(c: Chars, s: string, name: string, with: string)
    requires Sane(c) && IsName(name) && NoJoins(c, Lex(c, s)) && MarkerFree(Lex(c, s))
    ensures Unmark(Render(Lex(c, s), name, MARKER), with) == Render(Lex(c, s), name, with)
    decreases |s|
  {
    if s != "" {
      var t := First(c, s);
      var rest := s[|t.text|..];
      LexStep(c, s);
      MarkerMarksOccurrences(c, rest, name, with);
      assert t in Lex(c, s);
      var shown := Render(Lex(c, rest), name, MARKER);
      if t.kind.Comment? {
        NewlinesAreQuiet(Count('\n', t.text), shown);
        UnmarkSkips(Newlines(Count('\n', t.text)), shown, with);
      } else if IsHit(t, name) {
        assert (MARKER + shown)[|MARKER|..] == shown;
      } else {
        PlainTokenIsQuiet(c, s, name);
        UnmarkSkips(t.text, shown, with);
      }
    }
  }

  lemma NamesAreSolid(c: Chars, name: string)
    requires Sane(c) && IsName(name)
    ensures Solid(c, name) && name != ""
  {
    forall x | x in name ensures !c.space(x) {
      assert '_' in MARKS && '$' in MARKS;
      assert IsLetter(x) || IsDigit(x) || x == '_' || x == '$';
    }
  }

  /** A source in which leaving comments out joins no word, and whose code does not contain the marker. */
  ghost predicate Readable(c: Chars, source: string) {
    NoJoins(c, Lex(c, Unix(source))) && MarkerFree(Lex(c, Unix(source)))
  }

  /**
   What acceptance says of the two texts with their comments left out: they are the same up to line ends and runs of
   whitespace once the old name is replaced. What it says of their code is the subject of WitnessRename.
   */
  lemma AcceptedRendersAlike(c: Chars, before: string, after: string, oldName: string, newName: string)
    requires Sane(c) && Readable(c, before) && Readable(c, after)
    requires Accepts(c, before, after, oldName, newName)
    ensures Collapse(c, Render(Lex(c, Unix(before)), oldName, newName))
      == Collapse(c, Render(Lex(c, Unix(after)), newName, newName))
  {
    var b, a := Unix(before), Unix(after);
    MarkerIsAWord(c);
    NamesAreSolid(c, newName);
    MarkerMarksOccurrences(c, b, oldName, newName);
    MarkerMarksOccurrences(c, a, newName, newName);
    CollapseUnmark(c, Render(Lex(c, b), oldName, MARKER), newName);
    CollapseUnmark(c, Render(Lex(c, a), newName, MARKER), newName);
  }

  ghost predicate CommentFree(tokens: seq<Token>) {
    forall t <- tokens :: !t.kind.Comment?
  }

  /** Without comments no word is joined, and nothing is left out. */
  lemma {:induction false} NoCommentNoJoin(c: Chars, u: string)
    requires Sane(c) && CommentFree(Lex(c, u))
    ensures NoJoins(c, Lex(c, u)) && Strip(Lex(c, u)) == u
    decreases |u|
  {
    if u != "" {
      var t := First(c, u);
      var rest := u[|t.text|..];
      LexStep(c, u);
      assert t in Lex(c, u) && u == t.text + rest;
      forall x | x in Lex(c, rest) ensures x in Lex(c, u) {
      }
      NoCommentNoJoin(c, rest);
      if t.kind.Word? {
        WordStops(c, u, 1);
      }
    }
  }

  lemma {:induction false} RenderSame(tokens: seq<Token>, name: string)
    requires CommentFree(tokens)
    ensures Render(tokens, name, name) == Text(tokens)
  {
    if tokens != [] {
      assert tokens[0] in tokens;
      forall t | t in tokens[1..] ensures t in tokens {
      }
      RenderSame(tokens[1..], name);
    }
  }

  lemma {:induction false} TokensAreFree(tokens: seq<Token>)
    requires Free(Text(tokens))
    ensures MarkerFree(tokens)
  {
    if tokens != [] {
      FreeParts(tokens[0].text, Text(tokens[1..]));
      TokensAreFree(tokens[1..]);
      assert tokens == [tokens[0]] + tokens[1..];
    }
  }

  /** In particular, on comment-free sources without the marker, up to line ends and runs of whitespace alone. */
  lemma AcceptedIsRenameOfText(c: Chars, before: string, after: string, oldName: string, newName: string)
    requires Sane(c) && Free(Unix(before)) && Free(Unix(after))
    requires CommentFree(Lex(c, Unix(before))) && CommentFree(Lex(c, Unix(after)))
    requires Accepts(c, before, after, oldName, newName)
    ensures Collapse(c, Render(Lex(c, Unix(before)), oldName, newName)) == Collapse(c, Unix(after))
  {
    LexIsPartition(c, Unix(before));
    LexIsPartition(c, Unix(after));
    NoCommentNoJoin(c, Unix(before));
    NoCommentNoJoin(c, Unix(after));
    TokensAreFree(Lex(c, Unix(before)));
    TokensAreFree(Lex(c, Unix(after)));
    AcceptedRendersAlike(c, before, after, oldName, newName);
    RenderSame(Lex(c, Unix(after)), newName);
  }

  // ---- Collapsing is splitting into words and joining them ---------------------------------------------

  function SolidEnd(c: Chars, s: string): (e: nat)
    ensures e <= |s| && (s != "" && !c.space(s[0]) ==> e > 0)
    ensures Solid(c, s[..e]) && (e < |s| ==> c.space(s[e]))
  {
    if s == "" || c.space(s[0]) then 0
    else
      var e := 1 + SolidEnd(c, s[1..]);
      assert s[..e] == [s[0]] + s[1..][..e - 1];
      e
  }

  function Words(c: Chars, s: string): seq<string>
    decreases |s|
  {
    var t := TrimLeft(c, s);
    if t == "" then [] else [t[..SolidEnd(c, t)]] + Words(c, t[SolidEnd(c, t)..])
  }

  function Join(words: seq<string>): string {
    if words == [] then "" else if |words| == 1 then words[0] else words[0] + " " + Join(words[1..])
  }

  lemma {:induction false} CollapseJoinsWords(c: Chars, s: string)
    ensures Collapse(c, s) == Join(Words(c, s))
    ensures Words(c, s) == [] <==> TrimLeft(c, s) == ""
    decreases |s|
  {
    var t := TrimLeft(c, s);
    if t != "" {
      var e := SolidEnd(c, t);
      CollapseJoinsWords(c, t[e..]);
      SqueezeSolid(c, t[..e], t[e..]);
      assert t == t[..e] + t[e..];
      assert Words(c, s)[1..] == Words(c, t[e..]);
      if TrimLeft(c, t[e..]) == "" {
        assert Squeeze(c, t[e..]) == "" && t[..e] + "" == t[..e];
      }
    }
  }
}
