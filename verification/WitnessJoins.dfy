/**
 Where the rename witness says yes although the code has changed by more than a name: a comment between two words,
 left out of the canonical form, joins them.
 */
module WitnessJoins {
  import opened Wrappers
  import opened WitnessLexer
  import opened Witness
  import opened WitnessCode
  import opened WitnessCollapse
  import opened WitnessRename
  import C = WitnessComplete
  import opened WitnessSound

  const EMPTY_COMMENT: string := "/**/"

  lemma TextCons(t: Token, more: seq<Token>, name: string)
    ensures Text([t] + more) == t.text + Text(more)
    ensures Render([t] + more, name, MARKER) == Shown(t, name, MARKER) + Render(more, name, MARKER)
    ensures Hits([t] + more, name) == (if IsHit(t, name) then 1 else 0) + Hits(more, name)
  {
    assert ([t] + more)[1..] == more;
  }

  lemma NamesAreWords(c: Chars, w: string)
    requires Sane(c) && IsName(w)
    ensures IsStart(c, w[0]) && w[0] != ':' && '\r' !in w && forall i :: 0 <= i < |w| ==> IsPart(c, w[i])
  {
    assert IsStart(c, w[0]);
  }

  /** A name before something that is no part of it. */
  lemma NameScanned(c: Chars, w: string, rest: string)
    requires Sane(c) && IsName(w) && (rest == "" || rest[0] == ' ' || rest[0] == '/')
    ensures Lex(c, w + rest) == [Token(Word, w)] + Lex(c, rest)
  {
    C.MarksStartNothing(c, '/');
    SpacesMeanNothing(c, ' ');
    NamesAreWords(c, w);
    C.WordScanned(c, w, rest);
  }

  /** A word behind an empty comment. */
  lemma HiddenScanned(c: Chars, name: string)
    requires Sane(c) && IsName(name)
    ensures Lex(c, EMPTY_COMMENT + name) == [Token(Comment, EMPTY_COMMENT), Token(Word, name)]
  {
    NamesAreWords(c, name);
    NameScanned(c, name, "");
    assert name + "" == name && Lex(c, "") == [];
    ScannedFirst(c, Token(Comment, EMPTY_COMMENT), name);
  }

  function Split(a: string, b: string): string {
    a + (EMPTY_COMMENT + b)
  }

  function Tokens(a: string, b: string): seq<Token> {
    [Token(Word, a)] + ([Token(Comment, EMPTY_COMMENT)] + [Token(Word, b)])
  }

  /** Two words with an empty comment between them: two words to the scanner... */
  lemma SplitScanned(c: Chars, a: string, b: string)
    requires Sane(c) && IsName(a) && IsName(b)
    ensures Lex(c, Split(a, b)) == Tokens(a, b)
  {
    HiddenScanned(c, b);
    NameScanned(c, a, EMPTY_COMMENT + b);
  }

  lemma SplitIsUnix(c: Chars, a: string, b: string)
    requires Sane(c) && IsName(a) && IsName(b)
    ensures '\r' !in Split(a, b) && IsStart(c, Split(a, b)[0])
  {
    NamesAreWords(c, a);
    NamesAreWords(c, b);
  }

  /** ...one to the canonical form. */
  lemma SplitShown(a: string, b: string, name: string)
    requires name != a && name != b
    ensures Render(Tokens(a, b), name, MARKER) == a + b
  {
    var last, comment := Token(Word, b), Token(Comment, EMPTY_COMMENT);
    TextCons(last, [], name);
    assert [last] + [] == [last] && b + "" == b && "" + b == b;
    TextCons(comment, [last], name);
    TextCons(Token(Word, a), [comment] + [last], name);
  }

  lemma {:induction false} HarmlessIsClean(c: Chars, before: string, tokens: seq<Token>, name: string)
    requires forall t <- tokens :: !t.kind.Slash? && !t.kind.Quoted? && !IsHit(t, name)
    ensures Clean(c, before, tokens, name)
    decreases |tokens|
  {
    if tokens != [] {
      assert tokens[0] in tokens;
      forall t | t in tokens[1..] ensures t in tokens {
      }
      HarmlessIsClean(c, before + tokens[0].text, tokens[1..], name);
    }
  }

  lemma {:induction false} NoCarriageReturns(s: string)
    requires '\r' !in s
    ensures Unix(s) == s
  {
    if s != "" {
      NoCarriageReturns(s[1..]);
    }
  }

  /** Code that is harmless around a name: it starts with a word and has no slash, no quoted text and no such name. */
  ghost predicate Harmless(c: Chars, code: string, name: string) {
    && '\r' !in code && code != "" && IsStart(c, code[0])
    && forall t <- Lex(c, code) :: !t.kind.Slash? && !t.kind.Quoted? && !IsHit(t, name)
  }

  function After(name: string, code: string): string {
    name + (" " + code)
  }

  lemma AfterScanned(c: Chars, name: string, code: string)
    requires Sane(c) && IsName(name)
    ensures Lex(c, After(name, code)) == [Token(Word, name)] + ([Token(Other, " ")] + Lex(c, code))
  {
    NameScanned(c, name, " " + code);
  }

  lemma AfterIsUnix(c: Chars, name: string, code: string)
    requires IsName(name) && '\r' !in code
    ensures Unix(After(name, code)) == After(name, code)
  {
    NoCarriageReturns(After(name, code));
  }

  lemma AfterIsClean(c: Chars, name: string, code: string)
    requires Sane(c) && IsName(name) && Harmless(c, code, name)
    ensures Clean(c, "", [Token(Word, name)] + ([Token(Other, " ")] + Lex(c, code)), name)
  {
    var more := [Token(Other, " ")] + Lex(c, code);
    assert ([Token(Word, name)] + more)[1..] == more;
    LexIsPartition(c, code);
    TextCons(Token(Other, " "), Lex(c, code), name);
    C.TrimAppend(c, " ", code);
    C.PartsAreSolid(c, code[0]);
    assert TrimLeft(c, " ") == "";
    assert FirstSolid(c, Text(more)) == Some(code[0]);
    HarmlessIsClean(c, "" + name, more, name);
  }

  lemma AfterShows(c: Chars, name: string, code: string)
    requires Harmless(c, code, name)
    ensures var all := [Token(Word, name)] + ([Token(Other, " ")] + Lex(c, code));
      && Render(all, name, MARKER) == MARKER + (" " + Render(Lex(c, code), name, MARKER))
      && Hits(all, name) == 1
  {
    var more := [Token(Other, " ")] + Lex(c, code);
    TextCons(Token(Other, " "), Lex(c, code), name);
    TextCons(Token(Word, name), more, name);
    assert ([Token(Word, name)] + more)[1..] == more;
    C.NoHits(c, more, name);
  }

  /** The canonical form of a name, a space and some harmless code. */
  lemma CanonicalOf(c: Chars, name: string, code: string)
    requires Sane(c) && IsName(name) && Harmless(c, code, name)
    ensures CanonicalSource(c, After(name, code), name)
         == Some(Canonical(Collapse(c, MARKER + (" " + Render(Lex(c, code), name, MARKER))), 1))
  {
    AfterLexed(c, name, code);
    AfterIsClean(c, name, code);
    AfterShows(c, name, code);
  }

  lemma SplitIsHarmless(c: Chars, a: string, b: string, name: string)
    requires Sane(c) && IsName(a) && IsName(b) && name != a && name != b
    ensures Harmless(c, Split(a, b), name)
  {
    SplitScanned(c, a, b);
    SplitIsUnix(c, a, b);
  }

  lemma JoinedIsHarmless(c: Chars, w: string, name: string)
    requires Sane(c) && IsName(w) && name != w
    ensures Lex(c, w) == [Token(Word, w)]
    ensures Harmless(c, w, name) && Render(Lex(c, w), name, MARKER) == w
  {
    NamesAreWords(c, w);
    NameScanned(c, w, "");
    assert w + "" == w;
    TextCons(Token(Word, w), [], name);
    assert [Token(Word, w)] + [] == [Token(Word, w)];
  }

  /**
   Accepted, although the first source has two words where the second has one: `n a`, an empty comment, `b`,
   against `m ab`.
   */
  lemma CommentsCanJoinWords(c: Chars, n: string, m: string, a: string, b: string)
    requires Sane(c) && IsName(n) && IsName(m) && IsName(a) && IsName(b)
    requires n != a && n != b && m != a + b
    ensures Accepts(c, After(n, Split(a, b)), After(m, a + b), n, m)
    ensures Lex(c, Split(a, b)) == Tokens(a, b) && Lex(c, a + b) == [Token(Word, a + b)]
    ensures !NoJoins(c, Lex(c, Unix(After(n, Split(a, b)))))
      && !SameCode(c, After(n, Split(a, b)), After(m, a + b), n, m)
  {
    SplitScanned(c, a, b);
    SplitShown(a, b, n);
    SplitIsHarmless(c, a, b, n);
    CanonicalOf(c, n, Split(a, b));
    NamesJoin(a, b);
    JoinedIsHarmless(c, a + b, m);
    CanonicalOf(c, m, a + b);
    JoinChangesCode(c, n, m, a, b);
  }

  lemma CodeOfPair(c: Chars, x: string, y: string)
    requires Sane(c) && IsName(x) && IsName(y)
    ensures Code(c, Lex(c, Unix(After(x, y)))) == [Token(Word, x), Token(Word, y)]
  {
    NamesAreWords(c, y);
    CodeAfter(c, x, y);
    NameScanned(c, y, "");
    assert y + "" == y && Lex(c, "") == [];
    WordIsCode(c, y);
  }

  lemma NamesJoin(a: string, b: string)
    requires IsName(a) && IsName(b)
    ensures IsName(a + b)
  {
  }

  lemma JoinChangesCode(c: Chars, n: string, m: string, a: string, b: string)
    requires Sane(c) && IsName(n) && IsName(m) && IsName(a) && IsName(b)
    ensures !NoJoins(c, Lex(c, Unix(After(n, Split(a, b)))))
      && !SameCode(c, After(n, Split(a, b)), After(m, a + b), n, m)
  {
    SplitIsJoined(c, n, a, b);
    NamesJoin(a, b);
    CodeOfPair(c, m, a + b);
    CodeLength(c, After(n, Split(a, b)), n, m);
    assert |Tidied(c, CodeOf(c, After(n, Split(a, b)), n, m))| == 3;
    assert |Tidied(c, Code(c, Lex(c, Unix(After(m, a + b)))))| == 2;
  }

  lemma AfterLexed(c: Chars, name: string, code: string)
    requires Sane(c) && IsName(name) && '\r' !in code
    ensures Lex(c, Unix(After(name, code))) == [Token(Word, name)] + ([Token(Other, " ")] + Lex(c, code))
  {
    AfterScanned(c, name, code);
    AfterIsUnix(c, name, code);
  }

  lemma CodeAfter(c: Chars, name: string, code: string)
    requires Sane(c) && IsName(name) && '\r' !in code
    ensures Code(c, Lex(c, Unix(After(name, code)))) == [Token(Word, name)] + Code(c, Lex(c, code))
    ensures NoJoins(c, Lex(c, Unix(After(name, code)))) ==> NoJoins(c, Lex(c, code))
  {
    AfterLexed(c, name, code);
    CodeAround(c, name, Lex(c, code));
  }

  lemma CodeAround(c: Chars, name: string, tokens: seq<Token>)
    requires Sane(c)
    ensures var all := [Token(Word, name)] + ([Token(Other, " ")] + tokens);
      Code(c, all) == [Token(Word, name)] + Code(c, tokens) && (NoJoins(c, all) ==> NoJoins(c, tokens))
  {
    CodeCons(c, Token(Other, " "), tokens);
    CodeCons(c, Token(Word, name), [Token(Other, " ")] + tokens);
    assert [] + Code(c, tokens) == Code(c, tokens);
  }

  lemma CodeCons(c: Chars, t: Token, more: seq<Token>)
    ensures Code(c, [t] + more) == (if t.kind.Comment? || IsBlank(c, t) then [] else [t]) + Code(c, more)
    ensures NoJoins(c, [t] + more) ==> NoJoins(c, more)
    ensures NoJoins(c, [t] + more) && t.kind.Word? ==> !Continues(c, Strip(more))
    ensures Strip([t] + more) == (if t.kind.Comment? then Newlines(Count('\n', t.text)) else t.text) + Strip(more)
  {
    assert ([t] + more)[1..] == more;
  }

  lemma WordIsCode(c: Chars, w: string)
    ensures Code(c, [Token(Word, w)]) == [Token(Word, w)] && Strip([Token(Word, w)]) == w
  {
    CodeCons(c, Token(Word, w), []);
    assert [Token(Word, w)] + [] == [Token(Word, w)] && w + "" == w;
  }

  lemma TokensAreJoined(c: Chars, a: string, b: string)
    requires Sane(c) && IsName(b)
    ensures !NoJoins(c, Tokens(a, b)) && Code(c, Tokens(a, b)) == [Token(Word, a), Token(Word, b)]
  {
    var last, comment := Token(Word, b), Token(Comment, EMPTY_COMMENT);
    WordIsCode(c, b);
    CodeCons(c, comment, [last]);
    CodeCons(c, Token(Word, a), [comment] + [last]);
    NamesAreWords(c, b);
    assert "" + b == b;
  }

  lemma SplitIsJoined(c: Chars, n: string, a: string, b: string)
    requires Sane(c) && IsName(n) && IsName(a) && IsName(b)
    ensures var u := Unix(After(n, Split(a, b)));
      !NoJoins(c, Lex(c, u)) && Code(c, Lex(c, u)) == ThreeWords(n, a, b)
  {
    SplitScanned(c, a, b);
    TokensAreJoined(c, a, b);
    SplitIsUnix(c, a, b);
    CodeAfter(c, n, Split(a, b));
  }

  /**
   When words are joined on both sides, anything may be the case: what is accepted is the same code just if it was
   split alike.
   */
  lemma JoinsOnBothSides(c: Chars, n: string, m: string, a: string, b: string, a': string, b': string)
    requires Sane(c) && IsName(n) && IsName(m) && IsName(a) && IsName(b) && IsName(a') && IsName(b')
    requires n != a && n != b && m != a' && m != b' && a + b == a' + b'
    ensures Accepts(c, After(n, Split(a, b)), After(m, Split(a', b')), n, m)
    ensures SameCode(c, After(n, Split(a, b)), After(m, Split(a', b')), n, m) <==> a == a'
  {
    CanonicalSplit(c, n, a, b);
    CanonicalSplit(c, m, a', b');
    SplitCode(c, n, m, a, b);
    SplitCode(c, m, m, a', b');
    RenamedToItself(Lex(c, Unix(After(m, Split(a', b')))), m);
    SplitAlike(m, a, b, a', b');
  }

  function ThreeWords(x: string, y: string, z: string): seq<Token> {
    [Token(Word, x), Token(Word, y), Token(Word, z)]
  }

  lemma SplitAlike(m: string, a: string, b: string, a': string, b': string)
    requires a + b == a' + b'
    ensures ThreeWords(m, a, b) == ThreeWords(m, a', b') <==> a == a'
  {
    assert ThreeWords(m, a, b)[1].text == a && ThreeWords(m, a', b')[1].text == a';
    if a == a' {
      assert b == (a + b)[|a|..] && b' == (a' + b')[|a'|..];
    }
  }

  lemma SplitCode(c: Chars, n: string, m: string, a: string, b: string)
    requires Sane(c) && IsName(n) && IsName(m) && IsName(a) && IsName(b) && n != a && n != b
    ensures Tidied(c, CodeOf(c, After(n, Split(a, b)), n, m)) == ThreeWords(m, a, b)
  {
    SplitIsJoined(c, n, a, b);
    CodeRenamed(c, Lex(c, Unix(After(n, Split(a, b)))), n, m);
    ThreeRenamed(c, n, m, a, b);
  }

  lemma ThreeRenamed(c: Chars, n: string, m: string, a: string, b: string)
    requires n != a && n != b
    ensures C.Renamed(ThreeWords(n, a, b), n, m) == ThreeWords(m, a, b)
    ensures Tidied(c, ThreeWords(m, a, b)) == ThreeWords(m, a, b)
  {
    RenamedAt(ThreeWords(n, a, b), n, m);
  }

  lemma CanonicalSplit(c: Chars, n: string, a: string, b: string)
    requires Sane(c) && IsName(n) && IsName(a) && IsName(b) && n != a && n != b
    ensures CanonicalSource(c, After(n, Split(a, b)), n) == Some(Canonical(Collapse(c, MARKER + (" " + (a + b))), 1))
  {
    SplitScanned(c, a, b);
    SplitShown(a, b, n);
    SplitIsHarmless(c, a, b, n);
    CanonicalOf(c, n, Split(a, b));
  }
}
