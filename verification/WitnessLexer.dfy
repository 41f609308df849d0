/**
 The hand-written scanner behind the rename witness, for the ECMAScript family: it cuts a source into comments,
 slashes, quoted text, words and single characters.
 */
module WitnessLexer {
  import opened Decimals

  /** The Unicode tables the scanner consults. */
  datatype Chars = Chars(alpha: char -> bool, alnum: char -> bool, space: char -> bool)

  predicate IsLetter(x: char) {
    'A' <= x <= 'Z' || 'a' <= x <= 'z'
  }

  const MARKS: string := "/*'\"`\\<>.:_$"

  /**
   What is relied on about the tables: how they classify the ASCII characters that matter, and that the classes do
   not mix.
   */
  ghost predicate Sane(c: Chars) {
    && (forall x :: c.alpha(x) ==> c.alnum(x))
    && (forall x :: c.space(x) ==> !c.alnum(x))
    && (forall x :: IsLetter(x) ==> c.alpha(x))
    && (forall x :: IsDigit(x) ==> c.alnum(x))
    && (forall x <- MARKS :: !c.alnum(x) && !c.space(x))
    && c.space(' ') && c.space('\n')
  }

  predicate IsStart(c: Chars, x: char) {
    c.alpha(x) || x == '_' || x == '$'
  }

  predicate IsPart(c: Chars, x: char) {
    c.alnum(x) || x == '_' || x == '$'
  }

  predicate IsQuote(x: char) {
    x == '\'' || x == '"' || x == '`'
  }

  datatype Kind = Comment | Slash | Quoted | Word | Other

  datatype Token = Token(kind: Kind, text: string)

  /** Where a line comment ends: at the next newline, which is not part of it. */
  function LineEnd(s: string, k: nat): (e: nat)
    requires k <= |s|
    ensures k <= e <= |s|
    decreases |s| - k
  {
    if k == |s| || s[k] == '\n' then k else LineEnd(s, k + 1)
  }

  /** Where a block comment ends: after the next closing mark, or with the text. */
  function BlockEnd(s: string, k: nat): (e: nat)
    requires k <= |s|
    ensures k <= e <= |s|
    decreases |s| - k
  {
    if k + 1 >= |s| then |s|
    else if s[k] == '*' && s[k + 1] == '/' then k + 2
    else BlockEnd(s, k + 1)
  }

  /** Where quoted text ends: after the next quote that no backslash hides, or with the text. */
  function QuoteEnd(s: string, q: char, k: nat): (e: nat)
    requires 0 < |s|
    ensures 0 < e <= |s| || k == 0
    ensures k <= |s| ==> k <= e <= |s|
    decreases |s| - k
  {
    if k >= |s| then |s|
    else if s[k] == '\\' then QuoteEnd(s, q, k + 2)
    else if s[k] == q then k + 1
    else QuoteEnd(s, q, k + 1)
  }

  /** Where a word ends: before the next character that cannot continue it. */
  function WordEnd(c: Chars, s: string, k: nat): (e: nat)
    requires k <= |s|
    ensures k <= e <= |s|
    decreases |s| - k
  {
    if k == |s| || !IsPart(c, s[k]) then k else WordEnd(c, s, k + 1)
  }

  function KindOf(c: Chars, s: string): Kind
    requires s != ""
  {
    if s[0] == '/' && |s| > 1 && (s[1] == '/' || s[1] == '*') then Comment
    else if s[0] == '/' then Slash
    else if IsQuote(s[0]) then Quoted
    else if IsStart(c, s[0]) then Word
    else Other
  }

  function EndOf(c: Chars, s: string): (e: nat)
    requires s != ""
    ensures 0 < e <= |s|
  {
    match KindOf(c, s)
    case Comment => if s[1] == '/' then LineEnd(s, 2) else BlockEnd(s, 2)
    case Quoted => QuoteEnd(s, s[0], 1)
    case Word => WordEnd(c, s, 1)
    case _ => 1
  }

  /** The first token of a text; it is never empty, so the scan always advances. */
  function First(c: Chars, s: string): (t: Token)
    requires s != ""
    ensures 0 < |t.text| <= |s| && t.text == s[..|t.text|]
  {
    Token(KindOf(c, s), s[..EndOf(c, s)])
  }

  function Lex(c: Chars, s: string): seq<Token> {
    if s == "" then [] else [First(c, s)] + Lex(c, s[|First(c, s).text|..])
  }

  function Text(tokens: seq<Token>): string {
    if tokens == [] then "" else tokens[0].text + Text(tokens[1..])
  }

  /** The tokens are a partition of the text. */
  lemma {:induction false} LexIsPartition(c: Chars, s: string)
    ensures Text(Lex(c, s)) == s
  {
    if s != "" {
      var t := First(c, s);
      var rest := s[|t.text|..];
      LexIsPartition(c, rest);
      assert Lex(c, s)[1..] == Lex(c, rest) && s == t.text + rest;
    }
  }

  lemma LexStep(c: Chars, s: string)
    requires s != ""
    ensures Lex(c, s) != [] && Lex(c, s)[0] == First(c, s) && Lex(c, s)[1..] == Lex(c, s[|First(c, s).text|..])
  {
  }

  // ---- What the tokens are --------------------------------------------------------------------------

  lemma {:induction false} LineEndIs(s: string, k: nat)
    requires k <= |s|
    ensures var e := LineEnd(s, k);
      (forall i :: k <= i < e ==> s[i] != '\n') && (e == |s| || s[e] == '\n')
    decreases |s| - k
  {
    if k < |s| && s[k] != '\n' {
      LineEndIs(s, k + 1);
    }
  }

  predicate Closes(s: string, i: nat) {
    i + 1 < |s| && s[i] == '*' && s[i + 1] == '/'
  }

  lemma {:induction false} BlockEndIs(s: string, k: nat)
    requires k <= |s|
    ensures var e := BlockEnd(s, k);
      if e >= k + 2 && Closes(s, e - 2) then forall i: nat :: k <= i < e - 2 ==> !Closes(s, i)
      else e == |s| && forall i: nat :: k <= i ==> !Closes(s, i)
    decreases |s| - k
  {
    if k + 1 < |s| && !Closes(s, k) {
      BlockEndIs(s, k + 1);
    }
  }

  lemma {:induction false} WordEndIs(c: Chars, s: string, k: nat)
    requires k <= |s|
    ensures var e := WordEnd(c, s, k);
      (forall i :: k <= i < e ==> IsPart(c, s[i])) && (e == |s| || !IsPart(c, s[e]))
    decreases |s| - k
  {
    if k < |s| && IsPart(c, s[k]) {
      WordEndIs(c, s, k + 1);
    }
  }

  /** What may stand inside quotes: characters other than the quote, and backslashes with whatever follows them. */
  predicate IsInside(q: char, body: string) {
    body == ""
    || (body[0] == '\\' && |body| > 1 && IsInside(q, body[2..]))
    || (body[0] != '\\' && body[0] != q && IsInside(q, body[1..]))
  }

  /** Quoted text that is closed by its quote. */
  predicate IsClosed(q: char, body: string) {
    body != "" && body[|body| - 1] == q && IsInside(q, body[..|body| - 1])
  }

  /** Quoted text that is never closed, at the end of which a backslash may stand alone. */
  predicate IsOpen(q: char, body: string) {
    IsInside(q, body) || (body != "" && body[|body| - 1] == '\\' && IsInside(q, body[..|body| - 1]))
  }

  lemma {:induction false} QuoteEndIs(s: string, q: char, k: nat)
    requires 0 < |s| && k <= |s| && q != '\\'
    ensures var e := QuoteEnd(s, q, k); IsClosed(q, s[k..e]) || (e == |s| && IsOpen(q, s[k..]))
    decreases |s| - k
  {
    var e := QuoteEnd(s, q, k);
    if k < |s| {
      if s[k] == '\\' {
        if k + 1 < |s| {
          QuoteEndIs(s, q, k + 2);
          InsideMore(q, s[k..e], s[k + 2..e], 2);
          InsideMore(q, s[k..], s[k + 2..], 2);
        } else {
          assert s[k..] == "\\" && s[k..][..0] == "";
        }
      } else if s[k] != q {
        QuoteEndIs(s, q, k + 1);
        InsideMore(q, s[k..e], s[k + 1..e], 1);
        InsideMore(q, s[k..], s[k + 1..], 1);
      } else {
        assert s[k..k + 1][..0] == "";
      }
    }
  }

  /** One character or one escape more in front changes nothing. */
  lemma InsideMore(q: char, body: string, rest: string, n: nat)
    requires n <= |body| && rest == body[n..]
    requires (n == 1 && body[0] != '\\' && body[0] != q) || (n == 2 && body[0] == '\\')
    ensures IsClosed(q, rest) ==> IsClosed(q, body)
    ensures IsOpen(q, rest) ==> IsOpen(q, body)
  {
    if rest != "" {
      assert body[..|body| - 1][n..] == rest[..|rest| - 1];
    }
  }

  /**
   The tokens of the language. A line comment goes up to the next newline; a block comment up to the next closing mark,
   or to the end; quoted text up to the next quote that is not escaped, or to the end; a word is as long as can be;
   every other character is a token by itself.
   */
  lemma FirstIs(c: Chars, s: string)
    requires s != ""
    ensures var t := First(c, s);
      var n := |t.text|;
      && (t.kind.Comment? <==> |s| > 1 && s[0] == '/' && (s[1] == '/' || s[1] == '*'))
      && (t.kind.Comment? && s[1] == '/' ==> (forall i :: 2 <= i < n ==> s[i] != '\n') && (n == |s| || s[n] == '\n'))
      && (t.kind.Comment? && s[1] == '*' ==>
            if n >= 4 && Closes(s, n - 2) then forall i: nat :: 2 <= i < n - 2 ==> !Closes(s, i)
            else n == |s| && forall i: nat :: 2 <= i ==> !Closes(s, i))
      && (t.kind.Slash? <==> s[0] == '/' && !t.kind.Comment?)
      && (t.kind.Quoted? <==> s[0] == '\'' || s[0] == '"' || s[0] == '`')
      && (t.kind.Quoted? ==> IsClosed(s[0], t.text[1..]) || (n == |s| && IsOpen(s[0], t.text[1..])))
      && (t.kind.Word? ==>
            IsStart(c, s[0]) && (forall i :: 1 <= i < n ==> IsPart(c, s[i])) && (n == |s| || !IsPart(c, s[n])))
      && (t.kind.Slash? || t.kind.Other? ==> n == 1)
      && (t.kind.Other? ==> !IsStart(c, s[0]))
  {
    var n := EndOf(c, s);
    match KindOf(c, s) {
      case Comment =>
        if s[1] == '/' {
          LineEndIs(s, 2);
        } else {
          BlockEndIs(s, 2);
        }
      case Quoted =>
        QuoteEndIs(s, s[0], 1);
        assert s[..n][1..] == s[1..n];
        assert n == |s| ==> s[1..n] == s[1..];
      case Word =>
        WordEndIs(c, s, 1);
      case _ =>
    }
  }

  // ---- The scanning loops ---------------------------------------------------------------------------

  method ScanQuoted(s: string, q: char) returns (end: nat)
    requires s != ""
    ensures end == QuoteEnd(s, q, 1)
  {
    end := 1;
    while end < |s|
      invariant QuoteEnd(s, q, 1) == if end < |s| then QuoteEnd(s, q, end) else |s|
    {
      if s[end] == '\\' {
        end := end + 2;
        continue;
      }
      if s[end] == q {
        return end + 1;
      }
      end := end + 1;
    }
    end := |s|;
  }

  method ScanWord(c: Chars, s: string) returns (end: nat)
    requires s != ""
    ensures end == WordEnd(c, s, 1)
  {
    end := 1;
    while end < |s| && IsPart(c, s[end])
      invariant 1 <= end <= |s| && WordEnd(c, s, 1) == WordEnd(c, s, end)
    {
      end := end + 1;
    }
  }

  method NextToken(c: Chars, s: string) returns (t: Token)
    requires s != ""
    ensures t == First(c, s)
  {
    if s[0] == '/' && |s| > 1 && s[1] == '/' {
      return Token(Comment, s[..LineEnd(s, 2)]);
    }
    if s[0] == '/' && |s| > 1 && s[1] == '*' {
      return Token(Comment, s[..BlockEnd(s, 2)]);
    }
    if s[0] == '/' {
      return Token(Slash, s[..1]);
    }
    if IsQuote(s[0]) {
      var end := ScanQuoted(s, s[0]);
      return Token(Quoted, s[..end]);
    }
    if IsStart(c, s[0]) {
      var end := ScanWord(c, s);
      return Token(Word, s[..end]);
    }
    t := Token(Other, s[..1]);
  }
}
