/**
 Where else the rename witness says yes although the code has changed by more than a name: a word that is the marker is
 taken for the binding, and blanks in quoted text are taken for blanks.
 */
module WitnessLimits {
  import opened Wrappers
  import opened WitnessLexer
  import opened Witness
  import opened WitnessSound
  import opened WitnessCode
  import opened WitnessCollapse
  import opened WitnessRename
  import opened WitnessJoins
  import C = WitnessComplete

  function Pair(x: string, y: string): seq<Token> {
    [Token(Word, x), Token(Other, " "), Token(Word, y)]
  }

  lemma PairScanned(c: Chars, x: string, y: string)
    requires Sane(c) && IsName(x) && IsName(y)
    ensures Lex(c, Unix(After(x, y))) == Pair(x, y)
  {
    NamesAreWords(c, y);
    AfterLexed(c, x, y);
    NameScanned(c, y, "");
    assert y + "" == y && Lex(c, "") == [];
  }

  function Called(x: string, name: string, with: string): string {
    if x == name then with else x
  }

  lemma PairShown(x: string, y: string, name: string)
    ensures Render(Pair(x, y), name, MARKER) == Called(x, name, MARKER) + (" " + Called(y, name, MARKER))
    ensures Hits(Pair(x, y), name) == (if x == name then 1 else 0) + (if y == name then 1 else 0)
  {
    var last := [Token(Word, y)];
    var more := [Token(Other, " ")] + last;
    assert Pair(x, y) == [Token(Word, x)] + more && last + [] == last;
    TextCons(Token(Word, y), [], name);
    TextCons(Token(Other, " "), last, name);
    TextCons(Token(Word, x), more, name);
    assert Called(y, name, MARKER) + "" == Called(y, name, MARKER);
  }

  lemma BeforePair(c: Chars, y: string)
    requires Sane(c) && IsName(y)
    ensures FirstSolid(c, " " + y) != Some(':')
  {
    NamesAreWords(c, y);
    C.PartsAreSolid(c, y[0]);
    C.TrimAppend(c, " ", y);
    assert TrimLeft(c, " ") == "";
  }

  lemma AfterPair(c: Chars, x: string)
    requires Sane(c) && IsName(x)
    ensures LastSolid(c, x + " ") != Some('.')
  {
    NamesAreWords(c, x);
    C.MarksStartNothing(c, '.');
    C.PartsAreSolid(c, x[|x| - 1]);
    C.LastSolidAppend(c, x, " ");
    assert " "[..0] == "" && LastSolid(c, " ") == None;
  }

  lemma PairIsClean(c: Chars, x: string, y: string, name: string)
    requires Sane(c) && IsName(x) && IsName(y)
    ensures Clean(c, "", Pair(x, y), name)
  {
    var last := [Token(Word, y)];
    var more := [Token(Other, " ")] + last;
    assert Pair(x, y)[1..] == more && more[1..] == last && last[1..] == [];
    TextCons(Token(Word, y), [], name);
    assert [Token(Word, y)] + [] == last && y + "" == y;
    TextCons(Token(Other, " "), last, name);
    BeforePair(c, y);
    AfterPair(c, x);
    assert LastSolid(c, "") == None && FirstSolid(c, "") == None;
    assert "" + x == x;
    assert Clean(c, x + " ", last, name);
    assert Clean(c, x, more, name);
  }

  /** The canonical form of two words, of which the first or the second may be the name. */
  lemma CanonicalPair(c: Chars, x: string, y: string, name: string)
    requires Sane(c) && IsName(x) && IsName(y) && IsName(name)
    ensures CanonicalSource(c, After(x, y), name) == Some(Canonical(
      Collapse(c, Called(x, name, MARKER) + (" " + Called(y, name, MARKER))),
      (if x == name then 1 else 0) + (if y == name then 1 else 0)))
  {
    PairScanned(c, x, y);
    PairShown(x, y, name);
    PairIsClean(c, x, y, name);
  }

  /** Accepted, although it is the other word that was renamed: `n` before the marker, against the marker before `m`. */
  lemma MarkerIsMistaken(c: Chars, n: string, m: string)
    requires Sane(c) && IsName(n) && IsName(m) && n != MARKER && m != MARKER
    ensures Accepts(c, After(n, MARKER), After(MARKER, m), n, m)
    ensures !SameCode(c, After(n, MARKER), After(MARKER, m), n, m)
  {
    MarkerIsName();
    CanonicalPair(c, n, MARKER, n);
    CanonicalPair(c, MARKER, m, m);
    CodeOfPair(c, n, MARKER);
    CodeOfPair(c, MARKER, m);
    CodeRenamed(c, Lex(c, Unix(After(n, MARKER))), n, m);
    RenamedAt(Code(c, Lex(c, Unix(After(n, MARKER)))), n, m);
    assert Tidied(c, CodeOf(c, After(n, MARKER), n, m))[0] == Token(Word, m);
    assert Tidied(c, Code(c, Lex(c, Unix(After(MARKER, m)))))[0] == Token(Word, MARKER);
  }

  /** Quoted blanks. */
  function Blanks(k: nat): string {
    "'" + (seq(k, _ => ' ') + "'")
  }

  lemma {:induction false} BlanksEnd(s: string, k: nat)
    requires 0 < k < |s| && s[|s| - 1] == '\'' && forall i :: k <= i < |s| - 1 ==> s[i] == ' '
    ensures QuoteEnd(s, '\'', k) == |s|
    decreases |s| - k
  {
    if k < |s| - 1 {
      BlanksEnd(s, k + 1);
    }
  }

  lemma BlanksScanned(c: Chars, k: nat)
    requires Sane(c)
    ensures Lex(c, Blanks(k)) == [Token(Quoted, Blanks(k))]
  {
    var s := Blanks(k);
    BlanksEnd(s, 1);
    assert First(c, s).text == s[..|s|] == s;
    LexStep(c, s);
  }

  lemma {:induction false} BlanksTrimmed(c: Chars, k: nat)
    requires Sane(c)
    ensures TrimLeft(c, seq(k, _ => ' ') + "'") == "'"
  {
    var s := seq(k, _ => ' ') + "'";
    if k > 0 {
      assert s[1..] == seq(k - 1, _ => ' ') + "'";
      BlanksTrimmed(c, k - 1);
    } else {
      assert s == "'";
      QuotesAreSolid(c);
    }
  }

  lemma QuotesAreSolid(c: Chars)
    requires Sane(c)
    ensures !c.space('\'')
  {
    assert MARKS[2] == '\'';
  }

  lemma BlanksSqueezed(c: Chars, k: nat)
    requires Sane(c) && k > 0
    ensures Squeeze(c, Blanks(k)) == "' '"
  {
    var inner := seq(k, _ => ' ') + "'";
    QuotesAreSolid(c);
    BlanksTrimmed(c, k);
    assert Blanks(k)[1..] == inner && inner[0] == ' ';
    assert "'"[1..] == "" && Squeeze(c, "'") == "'" + Squeeze(c, "");
    assert Squeeze(c, inner) == " " + Squeeze(c, "'");
  }

  lemma BlanksMentionNothing(c: Chars, k: nat, name: string)
    requires IsName(name)
    ensures !HasWord(c, Blanks(k), name)
  {
    var s := Blanks(k);
    forall i | 0 <= i <= |s| - |name| ensures !WordAt(c, s, name, i) {
      assert s[i..i + |name|][0] == s[i];
    }
  }

  lemma QuotedScanned(c: Chars, n: string, k: nat)
    requires Sane(c) && IsName(n)
    ensures Lex(c, Unix(After(n, Blanks(k)))) == Quoting(n, k)
    ensures Code(c, Lex(c, Unix(After(n, Blanks(k))))) == [Token(Word, n), Token(Quoted, Blanks(k))]
  {
    BlanksScanned(c, k);
    AfterLexed(c, n, Blanks(k));
    CodeAfter(c, n, Blanks(k));
    CodeCons(c, Token(Quoted, Blanks(k)), []);
    assert [Token(Quoted, Blanks(k))] + [] == [Token(Quoted, Blanks(k))];
  }

  function Quoting(n: string, k: nat): seq<Token> {
    [Token(Word, n)] + ([Token(Other, " ")] + [Token(Quoted, Blanks(k))])
  }

  lemma QuotedIsClean(c: Chars, n: string, k: nat)
    requires Sane(c) && IsName(n)
    ensures Clean(c, "", Quoting(n, k), n)
  {
    var last := [Token(Quoted, Blanks(k))];
    var more := [Token(Other, " ")] + last;
    assert Quoting(n, k)[1..] == more && more[1..] == last && last[1..] == [];
    TextCons(Token(Quoted, Blanks(k)), [], n);
    assert last + [] == last && Blanks(k) + "" == Blanks(k);
    TextCons(Token(Other, " "), last, n);
    C.TrimAppend(c, " ", Blanks(k));
    QuotesAreSolid(c);
    assert LastSolid(c, "") == None && TrimLeft(c, " ") == "";
    BlanksMentionNothing(c, k, n);
    assert Clean(c, n + " ", last, n);
    assert Clean(c, n, more, n);
    assert "" + n == n && Text(more) == " " + Blanks(k) && FirstSolid(c, Blanks(k)) == Some('\'');
  }

  lemma QuotedShown(n: string, k: nat)
    ensures Render(Quoting(n, k), n, MARKER) == MARKER + (" " + Blanks(k)) && Hits(Quoting(n, k), n) == 1
  {
    var last := Token(Quoted, Blanks(k));
    TextCons(last, [], n);
    assert [last] + [] == [last] && Blanks(k) + "" == Blanks(k);
    TextCons(Token(Other, " "), [last], n);
    TextCons(Token(Word, n), [Token(Other, " ")] + [last], n);
  }

  lemma CanonicalQuoted(c: Chars, n: string, k: nat)
    requires Sane(c) && IsName(n) && k > 0
    ensures CanonicalSource(c, After(n, Blanks(k)), n) == Some(Canonical(MARKER + " ' '", 1))
  {
    QuotedScanned(c, n, k);
    QuotedIsClean(c, n, k);
    QuotedShown(n, k);
    QuotedCollapsed(c, k);
  }

  lemma QuotedCollapsed(c: Chars, k: nat)
    requires Sane(c) && k > 0
    ensures Collapse(c, MARKER + (" " + Blanks(k))) == MARKER + " ' '"
  {
    var more := " " + Blanks(k);
    MarkerIsAWord(c);
    assert MARKER[0] in MARKER;
    assert (MARKER + more)[0] == MARKER[0];
    SqueezeSolid(c, MARKER, more);
    QuotesAreSolid(c);
    assert more[1..] == Blanks(k);
    assert TrimLeft(c, more) == Blanks(k);
    BlanksSqueezed(c, k);
  }

  /** Accepted, although quoted text changed: any two numbers of quoted blanks are taken for the same. */
  lemma QuotedBlanksAreLost(c: Chars, n: string, m: string, j: nat, k: nat)
    requires Sane(c) && IsName(n) && IsName(m) && 0 < j && 0 < k && j != k
    ensures Accepts(c, After(n, Blanks(j)), After(m, Blanks(k)), n, m)
    ensures !SameCodeExactly(c, After(n, Blanks(j)), After(m, Blanks(k)), n, m)
  {
    CanonicalQuoted(c, n, j);
    CanonicalQuoted(c, m, k);
    QuotedScanned(c, n, j);
    QuotedScanned(c, m, k);
    CodeRenamed(c, Lex(c, Unix(After(n, Blanks(j)))), n, m);
    RenamedAt(Code(c, Lex(c, Unix(After(n, Blanks(j))))), n, m);
    assert CodeOf(c, After(n, Blanks(j)), n, m)[1] == Token(Quoted, Blanks(j));
    assert |Blanks(j)| != |Blanks(k)|;
  }

  // ---- Dollar signs in quoted text --------------------------------------------------------------------

  /**
   A dollar sign is no word character, so a name that starts with one is not found where it stands alone in quotes.
   */
  lemma DollarsAreMissed(c: Chars, name: string)
    requires Sane(c) && IsName(name) && name[0] == '$'
    ensures !HasWord(c, "'" + (name + "'"), name)
  {
    var s := "'" + (name + "'");
    assert '$' in MARKS && '\'' in MARKS;
    assert !c.alnum('$') && !c.alnum('\'');
    forall i | 0 <= i <= |s| - |name| ensures !WordAt(c, s, name, i) {
      if i == 0 {
        assert s[0..|name|][0] == '\'';
      } else if i == 1 {
        assert s[1] == '$';
      } else {
        assert s[i..i + |name|][|name| - 1] == '\'';
      }
    }
  }
}
