/** Collapsing whitespace changes the code of a source in quoted text only. */
module WitnessCollapse {
  import opened Wrappers
  import opened WitnessLexer
  import opened Witness
  import opened WitnessSound
  import opened WitnessCode
  import C = WitnessComplete

  /** Quoted text with each run of whitespace made one space. */
  function Tidy(c: Chars, t: Token): Token {
    if t.kind.Quoted? then Token(Quoted, Squeeze(c, t.text)) else t
  }

  function Tidied(c: Chars, tokens: seq<Token>): seq<Token> {
    seq(|tokens|, i requires 0 <= i < |tokens| => Tidy(c, tokens[i]))
  }

  lemma TidiedAppend(c: Chars, a: seq<Token>, b: seq<Token>)
    ensures Tidied(c, a + b) == Tidied(c, a) + Tidied(c, b)
  {
  }

  /** How much of a text belongs to a quotation that is already open. */
  function Quotation(s: string, q: char): (n: nat)
    ensures n <= |s| && (s != "" ==> n > 0)
  {
    if s == "" then 0
    else if s[0] == '\\' then if |s| == 1 then 1 else 2 + Quotation(s[2..], q)
    else if s[0] == q then 1
    else 1 + Quotation(s[1..], q)
  }

  lemma {:induction false} QuotationIsQuoteEnd(s: string, q: char, k: nat)
    requires 0 < k <= |s|
    ensures QuoteEnd(s, q, k) == k + Quotation(s[k..], q)
    decreases |s| - k
  {
    if k < |s| {
      assert s[k..][0] == s[k];
      if s[k] == '\\' {
        if k + 1 < |s| {
          assert s[k..][2..] == s[k + 2..];
          QuotationIsQuoteEnd(s, q, k + 2);
        }
      } else if s[k] != q {
        assert s[k..][1..] == s[k + 1..];
        QuotationIsQuoteEnd(s, q, k + 1);
      }
    }
  }

  lemma SpacesMeanNothing(c: Chars, x: char)
    requires Sane(c) && c.space(x)
    ensures !IsQuote(x) && x != '\\' && x != '/' && !IsPart(c, x)
  {
    assert MARKS[0] == '/' && MARKS[2] == '\'' && MARKS[3] == '"' && MARKS[4] == '`' && MARKS[5] == '\\';
    assert MARKS[10] == '_' && MARKS[11] == '$';
  }

  lemma BackslashIsNoSpace(c: Chars)
    requires Sane(c)
    ensures !c.space('\\')
  {
    assert MARKS[5] == '\\';
  }

  ghost predicate Blank(c: Chars, w: string) {
    w != "" && forall x <- w :: c.space(x)
  }

  predicate StartsSolid(c: Chars, t: string) {
    t != "" && !c.space(t[0])
  }

  /** The run of whitespace at the start of a text. */
  lemma {:induction false} BlankPrefix(c: Chars, s: string) returns (w: string)
    requires s != "" && c.space(s[0])
    ensures s == w + TrimLeft(c, s) && Blank(c, w)
  {
    var rest := s[1..];
    if rest != "" && c.space(rest[0]) {
      var v := BlankPrefix(c, rest);
      w := [s[0]] + v;
    } else {
      w := [s[0]];
    }
  }

  lemma {:induction false} TrimBlanks(c: Chars, w: string, t: string)
    requires Blank(c, w)
    ensures TrimLeft(c, w + t) == TrimLeft(c, t)
  {
    assert (w + t)[1..] == w[1..] + t && w[0] in w;
    if |w| > 1 {
      forall x | x in w[1..] ensures x in w {
      }
      TrimBlanks(c, w[1..], t);
    } else {
      assert w[1..] + t == t;
    }
  }

  lemma SqueezeBlanks(c: Chars, w: string, t: string)
    requires Blank(c, w) && StartsSolid(c, t)
    ensures Squeeze(c, w + t) == " " + Squeeze(c, t)
  {
    TrimBlanks(c, w, t);
    assert (w + t)[0] == w[0] && w[0] in w;
  }

  /** Whitespace in an open quotation does not close it. */
  lemma {:induction false} QuotationBlanks(c: Chars, w: string, t: string, q: char)
    requires Sane(c) && IsQuote(q) && forall x <- w :: c.space(x)
    ensures Quotation(w + t, q) == |w| + Quotation(t, q)
  {
    if w == "" {
      assert w + t == t;
    } else {
      assert (w + t)[1..] == w[1..] + t && w[0] in w;
      SpacesMeanNothing(c, w[0]);
      forall x | x in w[1..] ensures x in w {
      }
      QuotationBlanks(c, w[1..], t, q);
    }
  }

  /** `a` is the quotation and `b` what follows it, and so they are after squeezing whitespace. */
  ghost predicate Parts(c: Chars, a: string, b: string, q: char) {
    && Quotation(a + b, q) == |a|
    && Squeeze(c, a + b) == Squeeze(c, a) + Squeeze(c, b)
    && Quotation(Squeeze(c, a) + Squeeze(c, b), q) == |Squeeze(c, a)|
  }

  lemma SpaceSkips(c: Chars, s: string, q: char)
    requires Sane(c) && IsQuote(q)
    ensures Quotation(" " + s, q) == 1 + Quotation(s, q)
  {
    QuotationBlanks(c, " ", s, q);
  }

  lemma PartsOverSpace(c: Chars, w: string, a: string, b: string, q: char)
    requires Sane(c) && IsQuote(q) && Blank(c, w) && StartsSolid(c, a + b)
    requires Parts(c, a, b, q)
    ensures Parts(c, w + a, b, q) && w + (a + b) == (w + a) + b
  {
    assert a[0] == (a + b)[0];
    Regroup(w, a, b);
    QuotationBlanks(c, w, a + b, q);
    SqueezeBlanks(c, w, a + b);
    SqueezeBlanks(c, w, a);
    Regroup(" ", Squeeze(c, a), Squeeze(c, b));
    SpaceSkips(c, Squeeze(c, a) + Squeeze(c, b), q);
  }

  lemma PartsOverSolid(c: Chars, x: char, a: string, b: string, q: char)
    requires !c.space(x) && x != '\\' && x != q && Parts(c, a, b, q)
    ensures Parts(c, [x] + a, b, q) && [x] + (a + b) == ([x] + a) + b
  {
    Regroup([x], a, b);
    Regroup([x], Squeeze(c, a), Squeeze(c, b));
    SqueezeSolid(c, [x], a + b);
    SqueezeSolid(c, [x], a);
    assert ([x] + (a + b))[1..] == a + b;
    assert ([x] + (Squeeze(c, a) + Squeeze(c, b)))[1..] == Squeeze(c, a) + Squeeze(c, b);
  }

  lemma EscapeSkips(x: char, s: string, q: char)
    ensures Quotation(['\\', x] + s, q) == 2 + Quotation(s, q)
  {
    assert (['\\', x] + s)[2..] == s;
  }

  /** A backslash hides the next character. */
  lemma PartsOverEscape(c: Chars, x: char, a: string, b: string, q: char)
    requires !c.space('\\') && !c.space(x) && Parts(c, a, b, q)
    ensures Parts(c, ['\\', x] + a, b, q) && ['\\', x] + (a + b) == (['\\', x] + a) + b
  {
    var head := ['\\', x];
    Regroup(head, a, b);
    Regroup(head, Squeeze(c, a), Squeeze(c, b));
    EscapeSkips(x, a + b, q);
    EscapeSkips(x, Squeeze(c, a) + Squeeze(c, b), q);
    SqueezeSolid(c, head, a + b);
    SqueezeSolid(c, head, a);
  }

  lemma EscapedBlanks(c: Chars, w: string, t: string, q: char)
    requires Sane(c) && IsQuote(q) && Blank(c, w)
    ensures Quotation(['\\'] + (w + t), q) == 1 + |w| + Quotation(t, q)
  {
    assert w == [w[0]] + w[1..];
    assert ['\\'] + (w + t) == ['\\', w[0]] + (w[1..] + t);
    EscapeSkips(w[0], w[1..] + t, q);
    forall x | x in w[1..] ensures x in w {
    }
    QuotationBlanks(c, w[1..], t, q);
  }

  lemma SqueezeEscaped(c: Chars, w: string, t: string)
    requires !c.space('\\') && Blank(c, w) && StartsSolid(c, t)
    ensures Squeeze(c, ['\\'] + (w + t)) == ['\\', ' '] + Squeeze(c, t)
  {
    SqueezeSolid(c, ['\\'], w + t);
    SqueezeBlanks(c, w, t);
    assert ['\\'] + (" " + Squeeze(c, t)) == ['\\', ' '] + Squeeze(c, t);
  }

  /** If it is whitespace, all of the run counts as hidden. */
  lemma PartsOverEscapedSpace(c: Chars, w: string, a: string, b: string, q: char)
    requires Sane(c) && IsQuote(q) && Blank(c, w) && StartsSolid(c, a + b)
    requires Parts(c, a, b, q)
    ensures Parts(c, ['\\'] + (w + a), b, q) && ['\\'] + (w + (a + b)) == (['\\'] + (w + a)) + b
  {
    assert a[0] == (a + b)[0];
    BackslashIsNoSpace(c);
    Regroup(w, a, b);
    Regroup(['\\'], w + a, b);
    EscapedBlanks(c, w, a + b, q);
    SqueezeEscaped(c, w, a + b);
    SqueezeEscaped(c, w, a);
    EscapeSkips(' ', Squeeze(c, a) + Squeeze(c, b), q);
    Regroup(['\\', ' '], Squeeze(c, a), Squeeze(c, b));
  }

  /** Whitespace up to the end of the text belongs to the quotation and disappears. */
  lemma PartsOfBlanks(c: Chars, w: string, q: char)
    requires Sane(c) && IsQuote(q) && Blank(c, w)
    ensures Parts(c, w, "", q)
  {
    assert w + "" == w;
    QuotationBlanks(c, w, "", q);
    TrimBlanks(c, w, "");
    assert w[0] in w;
  }

  lemma PartsOfEscapedBlanks(c: Chars, w: string, q: char)
    requires Sane(c) && IsQuote(q) && Blank(c, w)
    ensures Parts(c, ['\\'] + w, "", q)
  {
    assert w + "" == w && (['\\'] + w) + "" == ['\\'] + w;
    EscapedBlanks(c, w, "", q);
    TrimBlanks(c, w, "");
    BackslashIsNoSpace(c);
    SqueezeSolid(c, ['\\'], w);
    assert w[0] in w && Squeeze(c, w) == "" && ['\\'] + "" == ['\\'];
    assert Quotation(['\\'], q) == 1;
  }

  /** Squeezing whitespace squeezes a quotation and what follows it, and nothing moves from one to the other. */
  lemma {:induction false} QuotationSqueezed(c: Chars, s: string, q: char) returns (a: string, b: string)
    requires Sane(c) && IsQuote(q)
    ensures s == a + b && Parts(c, a, b, q)
    decreases |s|, 1
  {
    a, b := s, "";
    if s == "" {
    } else if s[0] == '\\' {
      a, b := EscapeSqueezed(c, s, q);
    } else if s[0] == q {
      a, b := [q], s[1..];
      QuotationCloses(c, b, q);
    } else if c.space(s[0]) {
      var w := BlankPrefix(c, s);
      var t := TrimLeft(c, s);
      if t == "" {
        assert w + t == w;
        PartsOfBlanks(c, w, q);
      } else {
        a, b := QuotationSqueezed(c, t, q);
        PartsOverSpace(c, w, a, b, q);
        a := w + a;
      }
    } else {
      a, b := QuotationSqueezed(c, s[1..], q);
      PartsOverSolid(c, s[0], a, b, q);
      a := [s[0]] + a;
    }
  }

  lemma {:induction false} EscapeSqueezed(c: Chars, s: string, q: char) returns (a: string, b: string)
    requires Sane(c) && IsQuote(q) && s != "" && s[0] == '\\'
    ensures s == a + b && Parts(c, a, b, q)
    decreases |s|, 0
  {
    BackslashIsNoSpace(c);
    var rest := s[1..];
    a, b := s, "";
    assert s == ['\\'] + rest;
    if rest == "" {
      assert s == ['\\'] && s + "" == s && Squeeze(c, s) == s;
    } else if c.space(rest[0]) {
      var w := BlankPrefix(c, rest);
      var t := TrimLeft(c, rest);
      if t == "" {
        assert w + t == w;
        PartsOfEscapedBlanks(c, w, q);
      } else {
        a, b := QuotationSqueezed(c, t, q);
        PartsOverEscapedSpace(c, w, a, b, q);
        a := ['\\'] + (w + a);
      }
    } else {
      assert s == ['\\', rest[0]] + s[2..];
      a, b := QuotationSqueezed(c, s[2..], q);
      PartsOverEscape(c, rest[0], a, b, q);
      a := ['\\', rest[0]] + a;
    }
  }

  lemma QuotationCloses(c: Chars, rest: string, q: char)
    requires Sane(c) && IsQuote(q)
    ensures Parts(c, [q], rest, q)
  {
    if c.space(q) {
      SpacesMeanNothing(c, q);
    }
    SqueezeSolid(c, [q], rest);
    SqueezeSolid(c, [q], "");
    assert [q] + "" == [q] && q != '\\';
  }

  lemma {:induction false} TrimKeepsCode(c: Chars, r: string)
    requires Sane(c)
    ensures Code(c, Lex(c, TrimLeft(c, r))) == Code(c, Lex(c, r))
    ensures CommentFree(Lex(c, TrimLeft(c, r))) == CommentFree(Lex(c, r))
  {
    if r != "" && c.space(r[0]) {
      assert r == [r[0]] + r[1..];
      BlankScanned(c, r[0], r[1..]);
      TrimKeepsCode(c, r[1..]);
    }
  }

  /** What a squeezed text starts with. */
  lemma SqueezeStart(c: Chars, r: string)
    ensures Squeeze(c, r) == "" || Squeeze(c, r)[0] == ' ' || (r != "" && Squeeze(c, r)[0] == r[0])
  {
  }

  lemma SqueezedQuotation(c: Chars, r: string)
    requires Sane(c) && r != "" && First(c, r).kind.Quoted?
    ensures var t := First(c, r); var more := Squeeze(c, r[|t.text|..]);
      Squeeze(c, r) == Tidy(c, t).text + more && First(c, Squeeze(c, r)) == Tidy(c, t)
  {
    var t := First(c, r);
    var q := r[0];
    var a, b := QuotationSqueezed(c, r[1..], q);
    QuotationIsQuoteEnd(r, q, 1);
    if c.space(q) {
      SpacesMeanNothing(c, q);
    }
    assert r == [q] + (a + b) && t.text == [q] + a && r[|t.text|..] == b;
    SqueezeSolid(c, [q], a + b);
    SqueezeSolid(c, [q], a);
    Regroup([q], Squeeze(c, a), Squeeze(c, b));
    QuotationScanned(c, q, Squeeze(c, a), Squeeze(c, b));
  }

  lemma QuotationScanned(c: Chars, q: char, a: string, b: string)
    requires Sane(c) && IsQuote(q) && Quotation(a + b, q) == |a|
    ensures First(c, ([q] + a) + b) == Token(Quoted, [q] + a)
  {
    var v := ([q] + a) + b;
    assert v[1..] == a + b && v[0] == q && v[..1 + |a|] == [q] + a;
    QuotationIsQuoteEnd(v, q, 1);
  }

  lemma SqueezedWord(c: Chars, r: string)
    requires Sane(c) && r != "" && First(c, r).kind.Word?
    ensures var t := First(c, r); var more := Squeeze(c, r[|t.text|..]);
      Squeeze(c, r) == t.text + more && First(c, Squeeze(c, r)) == t
  {
    var t := First(c, r);
    var rest := r[|t.text|..];
    C.WordIsParts(c, r, 1);
    StartIsPart(c, r[0]);
    forall x | x in t.text ensures !c.space(x) {
      C.PartsAreSolid(c, x);
    }
    assert r == t.text + rest;
    SqueezeSolid(c, t.text, rest);
    WordStops(c, r, 1);
    SqueezeStart(c, rest);
    SpacesMeanNothing(c, ' ');
    C.WordScanned(c, t.text, Squeeze(c, rest));
  }

  lemma SqueezedSingle(c: Chars, r: string)
    requires Sane(c) && r != "" && !c.space(r[0]) && (First(c, r).kind.Slash? || First(c, r).kind.Other?)
    ensures var t := First(c, r); var more := Squeeze(c, r[|t.text|..]);
      Squeeze(c, r) == t.text + more && First(c, Squeeze(c, r)) == t
  {
    var rest := r[1..];
    SqueezeStart(c, rest);
    SingleScanned(c, r, Squeeze(c, rest));
  }

  lemma SingleScanned(c: Chars, r: string, more: string)
    requires r != "" && (First(c, r).kind.Slash? || First(c, r).kind.Other?)
    requires more == "" || more[0] == ' ' || (|r| > 1 && more[0] == r[1])
    ensures First(c, [r[0]] + more) == First(c, r)
  {
    var v := [r[0]] + more;
    assert v[..1] == r[..1] && v[0] == r[0];
    assert |v| > 1 ==> v[1] == more[0];
  }

  lemma SqueezedFirst(c: Chars, r: string)
    requires Sane(c) && r != "" && !c.space(r[0]) && !First(c, r).kind.Comment?
    ensures var t := First(c, r); var more := Squeeze(c, r[|t.text|..]);
      Squeeze(c, r) == Tidy(c, t).text + more && First(c, Squeeze(c, r)) == Tidy(c, t)
  {
    match First(c, r).kind {
      case Quoted => SqueezedQuotation(c, r);
      case Word => SqueezedWord(c, r);
      case _ => SqueezedSingle(c, r);
    }
  }

  /** Squeezing whitespace of a text without comments changes its code in quoted text only. */
  lemma {:induction false} SqueezeKeepsCode(c: Chars, r: string)
    requires Sane(c) && CommentFree(Lex(c, r))
    ensures Code(c, Lex(c, Squeeze(c, r))) == Tidied(c, Code(c, Lex(c, r)))
    decreases |r|
  {
    if r == "" {
    } else if c.space(r[0]) {
      TrimKeepsCode(c, r);
      var u := TrimLeft(c, r);
      SqueezeKeepsCode(c, u);
      if u != "" {
        BlankScanned(c, ' ', Squeeze(c, u));
      }
    } else {
      var t := First(c, r);
      var rest := r[|t.text|..];
      assert r == t.text + rest;
      ScannedFirst(c, t, rest);
      SqueezedFirst(c, r);
      ScannedFirst(c, Tidy(c, t), Squeeze(c, rest));
      SqueezeKeepsCode(c, rest);
      SolidIsKept(c, t);
      TidiedAppend(c, [t], Code(c, Lex(c, rest)));
    }
  }

  lemma SolidIsKept(c: Chars, t: Token)
    ensures IsBlank(c, Tidy(c, t)) == IsBlank(c, t) && Tidied(c, [t]) == [Tidy(c, t)]
  {
  }

  lemma CollapseKeepsCode(c: Chars, r: string)
    requires Sane(c) && CommentFree(Lex(c, r))
    ensures Code(c, Lex(c, Collapse(c, r))) == Tidied(c, Code(c, Lex(c, r)))
  {
    TrimKeepsCode(c, r);
    SqueezeKeepsCode(c, TrimLeft(c, r));
  }
}
