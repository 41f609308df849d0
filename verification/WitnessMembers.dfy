/**
 What the witness sees of member accesses and keys. It looks for the dot and the colon in the text as it stands, where
 a comment hides them; here they are looked for in the code.
 */
module WitnessMembers {
  import opened Wrappers
  import opened WitnessLexer
  import opened Witness
  import opened WitnessSound
  import opened WitnessCode
  import opened WitnessCollapse
  import C = WitnessComplete
  import L = WitnessJoins

  /** Nothing but blanks between the end of these tokens and a comment before it. */
  predicate CommentLast(c: Chars, tokens: seq<Token>) {
    tokens != [] && var last := tokens[|tokens| - 1];
      last.kind.Comment? || (IsBlank(c, last) && CommentLast(c, tokens[..|tokens| - 1]))
  }

  /** Nothing but blanks between the start of these tokens and a comment after it. */
  predicate CommentFirst(c: Chars, tokens: seq<Token>) {
    tokens != [] && (tokens[0].kind.Comment? || (IsBlank(c, tokens[0]) && CommentFirst(c, tokens[1..])))
  }

  /** In the code, comments aside, a dot comes right before the token: it is accessed as a member. */
  predicate AfterDot(c: Chars, tokens: seq<Token>, i: nat)
    requires i < |tokens|
  {
    LastSolid(c, Strip(tokens[..i])) == Some('.')
  }

  /** In the code, comments aside, a colon comes right after the token: it is a key. */
  predicate BeforeColon(c: Chars, tokens: seq<Token>, i: nat)
    requires i < |tokens|
  {
    FirstSolid(c, Strip(tokens[i + 1..])) == Some(':')
  }

  predicate IsMember(c: Chars, tokens: seq<Token>, i: nat)
    requires i < |tokens|
  {
    AfterDot(c, tokens, i) || BeforeColon(c, tokens, i)
  }

  /** A comment stands between the token and the dot before it or the colon after it. */
  predicate IsHidden(c: Chars, tokens: seq<Token>, i: nat)
    requires i < |tokens|
  {
    || (AfterDot(c, tokens, i) && CommentLast(c, tokens[..i]))
    || (BeforeColon(c, tokens, i) && CommentFirst(c, tokens[i + 1..]))
  }

  // ---- The text and the code around a token -----------------------------------------------------------

  ghost predicate WellFormed(c: Chars, tokens: seq<Token>) {
    forall t <- tokens :: t.text != "" && (IsBlank(c, t) || !c.space(t.text[0]))
      && (t.kind.Comment? ==> t.text[0] == '/')
      && (IsBlank(c, t) ==> |t.text| == 1)
  }

  lemma {:induction false} LexIsWellFormed(c: Chars, u: string)
    requires Sane(c)
    ensures WellFormed(c, Lex(c, u))
    decreases |u|
  {
    if u != "" {
      var t := First(c, u);
      LexIsWellFormed(c, u[|t.text|..]);
      assert t.text[0] == u[0];
      if c.space(u[0]) {
        SpacesMeanNothing(c, u[0]);
      }
      assert Lex(c, u) == [t] + Lex(c, u[|t.text|..]);
    }
  }

  lemma {:induction false} TextSnoc(tokens: seq<Token>)
    requires tokens != []
    ensures var init, last := tokens[..|tokens| - 1], tokens[|tokens| - 1];
      && Text(tokens) == Text(init) + last.text
      && Strip(tokens) == Strip(init) + Strip([last])
  {
    if |tokens| > 1 {
      var rest := tokens[1..];
      TextSnoc(rest);
      var init, last := tokens[..|tokens| - 1], tokens[|tokens| - 1];
      assert init[1..] == rest[..|rest| - 1] && init[0] == tokens[0];
      var shown := if tokens[0].kind.Comment? then Newlines(Count('\n', tokens[0].text)) else tokens[0].text;
      Regroup(tokens[0].text, Text(init[1..]), last.text);
      Regroup(shown, Strip(init[1..]), Strip([last]));
    } else {
      assert tokens[..0] == [] && tokens == [tokens[0]];
    }
  }

  lemma StripOne(t: Token)
    ensures Strip([t]) == if t.kind.Comment? then Newlines(Count('\n', t.text)) else t.text
  {
    assert [t][1..] == [];
  }

  lemma {:induction false} SolidSomewhere(c: Chars, s: string)
    requires s != "" && !c.space(s[0])
    ensures LastSolid(c, s).Some?
  {
    if c.space(s[|s| - 1]) {
      SolidSomewhere(c, s[..|s| - 1]);
    }
  }

  /** Unless a comment comes first on the way back, the text shows what the code shows. */
  lemma {:induction false} LastSolidInCode(c: Chars, tokens: seq<Token>)
    requires WellFormed(c, tokens) && !CommentLast(c, tokens)
    ensures LastSolid(c, Text(tokens)) == LastSolid(c, Strip(tokens))
  {
    if tokens != [] {
      var init, last := tokens[..|tokens| - 1], tokens[|tokens| - 1];
      TextSnoc(tokens);
      StripOne(last);
      C.LastSolidAppend(c, Text(init), last.text);
      C.LastSolidAppend(c, Strip(init), last.text);
      assert last in tokens;
      if IsBlank(c, last) {
        forall t | t in init ensures t in tokens {
        }
        LastSolidInCode(c, init);
        assert last.text[..0] == "" && LastSolid(c, last.text) == LastSolid(c, "");
      } else {
        SolidSomewhere(c, last.text);
      }
    }
  }

  /** On the way ahead the text shows what the code shows, unless a comment comes first, which shows its slash. */
  lemma {:induction false} FirstSolidInCode(c: Chars, tokens: seq<Token>)
    requires Sane(c) && WellFormed(c, tokens)
    ensures FirstSolid(c, Text(tokens)) == if CommentFirst(c, tokens) then Some('/') else FirstSolid(c, Strip(tokens))
  {
    if tokens != [] {
      var t, rest := tokens[0], tokens[1..];
      C.TrimAppend(c, t.text, Text(rest));
      C.TrimAppend(c, t.text, Strip(rest));
      assert t in tokens;
      if IsBlank(c, t) {
        forall r | r in rest ensures r in tokens {
        }
        FirstSolidInCode(c, rest);
        assert t.text[1..] == "" && TrimLeft(c, t.text) == "";
      }
    }
  }

  /** When an occurrence of the name makes the scan give up, in terms of the code and of the comments around it. */
  lemma GivesUpIff(c: Chars, u: string, name: string, i: nat)
    requires Sane(c) && i < |Lex(c, u)| && IsHit(Lex(c, u)[i], name)
    ensures var tokens := Lex(c, u);
      var back, ahead := tokens[..i], tokens[i + 1..];
      GivesUp(c, Text(back), tokens[i], Text(ahead), name) <==>
        || (if CommentLast(c, back) then LastSolid(c, Text(back)) == Some('.') else AfterDot(c, tokens, i))
        || (!CommentFirst(c, ahead) && BeforeColon(c, tokens, i))
  {
    var tokens := Lex(c, u);
    var back, ahead := tokens[..i], tokens[i + 1..];
    LexIsWellFormed(c, u);
    forall t | t in back || t in ahead ensures t in tokens {
    }
    if !CommentLast(c, back) {
      LastSolidInCode(c, back);
    }
    FirstSolidInCode(c, ahead);
  }

  ghost predicate TouchesMember(c: Chars, source: string, name: string) {
    var tokens := Lex(c, Unix(source));
    exists i: nat :: i < |tokens| && IsHit(tokens[i], name) && IsMember(c, tokens, i)
  }

  ghost predicate HidesMember(c: Chars, source: string, name: string) {
    var tokens := Lex(c, Unix(source));
    exists i: nat :: i < |tokens| && IsHit(tokens[i], name) && IsHidden(c, tokens, i)
  }

  /**
   Of an accepted source, a counted occurrence is a member access or a key if and only if a comment hides the mark of
   it.
   */
  lemma MembersAreHidden(c: Chars, source: string, name: string, i: nat)
    requires Sane(c) && CanonicalSource(c, source, name).Some?
    requires i < |Lex(c, Unix(source))| && IsHit(Lex(c, Unix(source))[i], name)
    ensures IsMember(c, Lex(c, Unix(source)), i) <==> IsHidden(c, Lex(c, Unix(source)), i)
  {
    AcceptedTokens(c, source, name, i);
    GivesUpIff(c, Unix(source), name, i);
  }

  /** So acceptance means that no member or key is touched exactly when no comment hides one. */
  lemma AcceptedTouchesNoMemberIff(c: Chars, source: string, name: string)
    requires Sane(c) && CanonicalSource(c, source, name).Some?
    ensures TouchesMember(c, source, name) <==> HidesMember(c, source, name)
  {
    var tokens := Lex(c, Unix(source));
    forall i: nat | i < |tokens| && IsHit(tokens[i], name) ensures IsMember(c, tokens, i) <==> IsHidden(c, tokens, i) {
      MembersAreHidden(c, source, name, i);
    }
  }

  lemma {:induction false} NoCommentNearby(c: Chars, tokens: seq<Token>)
    requires CommentFree(tokens)
    ensures !CommentLast(c, tokens) && !CommentFirst(c, tokens)
  {
    if tokens != [] {
      var init, rest := tokens[..|tokens| - 1], tokens[1..];
      assert tokens[0] in tokens && tokens[|tokens| - 1] in tokens;
      forall t | t in init || t in rest ensures t in tokens {
      }
      NoCommentNearby(c, init);
      NoCommentNearby(c, rest);
    }
  }

  /** In particular none is touched in a source without comments. */
  lemma CommentFreeTouchesNoMember(c: Chars, source: string, name: string)
    requires Sane(c) && CanonicalSource(c, source, name).Some? && CommentFree(Lex(c, Unix(source)))
    ensures !TouchesMember(c, source, name)
  {
    var tokens := Lex(c, Unix(source));
    AcceptedTouchesNoMemberIff(c, source, name);
    forall i: nat | i < |tokens| ensures !IsHidden(c, tokens, i) {
      forall t | t in tokens[..i] || t in tokens[i + 1..] ensures t in tokens {
      }
      NoCommentNearby(c, tokens[..i]);
      NoCommentNearby(c, tokens[i + 1..]);
    }
  }

  // ---- A member behind a comment ----------------------------------------------------------------------

  /** A member of `x`, with an empty comment before its name. */
  function Access(x: string, name: string): string {
    x + ("." + (L.EMPTY_COMMENT + name))
  }

  function AccessTokens(x: string, name: string): seq<Token> {
    [Token(Word, x), Token(Other, "."), Token(Comment, L.EMPTY_COMMENT), Token(Word, name)]
  }

  lemma DotScanned(c: Chars, more: string)
    requires Sane(c)
    ensures Lex(c, "." + more) == [Token(Other, ".")] + Lex(c, more)
  {
    C.MarksStartNothing(c, '.');
    ScannedFirst(c, Token(Other, "."), more);
  }

  lemma AccessScanned(c: Chars, x: string, name: string)
    requires Sane(c) && IsName(x) && IsName(name)
    ensures Lex(c, Unix(Access(x, name))) == AccessTokens(x, name)
  {
    AccessIsUnix(c, x, name);
    L.HiddenScanned(c, name);
    DotScanned(c, L.EMPTY_COMMENT + name);
    BeforeDot(c, x, L.EMPTY_COMMENT + name);
  }

  lemma BeforeDot(c: Chars, x: string, more: string)
    requires Sane(c) && IsName(x)
    ensures Lex(c, x + ("." + more)) == [Token(Word, x)] + Lex(c, "." + more)
  {
    C.MarksStartNothing(c, '.');
    L.NamesAreWords(c, x);
    C.WordScanned(c, x, "." + more);
    ScannedFirst(c, Token(Word, x), "." + more);
  }

  lemma AccessIsUnix(c: Chars, x: string, name: string)
    requires Sane(c) && IsName(x) && IsName(name)
    ensures Unix(Access(x, name)) == Access(x, name)
  {
    L.NamesAreWords(c, x);
    L.NamesAreWords(c, name);
    L.NoCarriageReturns(Access(x, name));
  }

  /** It is accepted, and counted, although it is a member: for every object and every name. */
  lemma MembersHideBehindComments(c: Chars, x: string, name: string)
    requires Sane(c) && IsName(x) && IsName(name) && x != name
    ensures var r := CanonicalSource(c, Access(x, name), name); r.Some? && r.value.count == 1
    ensures TouchesMember(c, Access(x, name), name)
  {
    var tokens := AccessTokens(x, name);
    AccessScanned(c, x, name);
    AccessIsClean(c, x, name);
    AccessHits(x, name);
    assert IsHit(tokens[3], name);
    AccessIsMember(c, x, name);
  }

  lemma AccessHits(x: string, name: string)
    requires x != name
    ensures Hits(AccessTokens(x, name), name) == 1
  {
    var last := [Token(Word, name)];
    var more := [Token(Comment, L.EMPTY_COMMENT)] + last;
    L.TextCons(Token(Word, name), [], name);
    assert last + [] == last;
    L.TextCons(Token(Comment, L.EMPTY_COMMENT), last, name);
    L.TextCons(Token(Other, "."), more, name);
    L.TextCons(Token(Word, x), [Token(Other, ".")] + more, name);
    assert AccessTokens(x, name) == [Token(Word, x)] + ([Token(Other, ".")] + more);
  }

  lemma AccessIsMember(c: Chars, x: string, name: string)
    requires Sane(c)
    ensures AfterDot(c, AccessTokens(x, name), 3)
  {
    var dot := [Token(Word, x), Token(Other, ".")];
    var back := dot + [Token(Comment, L.EMPTY_COMMENT)];
    assert AccessTokens(x, name)[..3] == back && back[..2] == dot;
    TextSnoc(back);
    StripOne(Token(Comment, L.EMPTY_COMMENT));
    assert Strip(back) == Strip(dot) + "" == Strip(dot);
    DotIsLast(c, x);
  }

  lemma DotIsLast(c: Chars, x: string)
    requires Sane(c)
    ensures LastSolid(c, Strip([Token(Word, x), Token(Other, ".")])) == Some('.')
  {
    var dot := [Token(Word, x), Token(Other, ".")];
    TextSnoc(dot);
    StripOne(Token(Other, "."));
    assert MARKS[8] == '.';
  }

  lemma AccessIsClean(c: Chars, x: string, name: string)
    requires Sane(c) && x != name
    ensures Clean(c, "", AccessTokens(x, name), name)
  {
    var tokens := AccessTokens(x, name);
    assert MARKS[0] == '/';
    assert "" + x == x && LastSolid(c, x + "." + L.EMPTY_COMMENT) == Some('/');
    assert tokens[1..][1..][1..] == [Token(Word, name)] && [Token(Word, name)][1..] == [];
    assert FirstSolid(c, "") == None;
    assert Clean(c, x + "." + L.EMPTY_COMMENT, [Token(Word, name)], name);
  }
}
