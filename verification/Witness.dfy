/**
 The rename witness: two sources count as the same up to the name of one binding when their canonical forms,
 with that name replaced by a marker, are the same.
 */
module Witness {
  import opened Decimals
  import opened Wrappers
  import opened WitnessLexer

  const MARKER: string := "__PEBRA_BINDING__"

  /** Windows line ends become newlines. */
  function Unix(s: string): string {
    if |s| >= 2 && s[0] == '\r' && s[1] == '\n' then "\n" + Unix(s[2..])
    else if s == "" then ""
    else [s[0]] + Unix(s[1..])
  }

  /** A return before a newline is dropped, and every other character is kept. */
  lemma {:induction false} UnixEnds(p: string, t: string)
    requires '\r' !in p
    ensures Unix(p + ("\r\n" + t)) == p + ("\n" + Unix(t))
    ensures t == "" || t[0] != '\n' ==> Unix(p + ("\r" + t)) == p + ("\r" + Unix(t))
    ensures Unix(p) == p
    decreases |p|
  {
    if p == "" {
      assert ("\r\n" + t)[2..] == t && ("\r" + t)[1..] == t;
      assert p + ("\r\n" + t) == "\r\n" + t && p + ("\r" + t) == "\r" + t;
      assert p + ("\n" + Unix(t)) == "\n" + Unix(t) && p + ("\r" + Unix(t)) == "\r" + Unix(t);
    } else {
      UnixEnds(p[1..], t);
      UnixStep(p, "\r\n" + t);
      UnixStep(p, "\r" + t);
      UnixStep(p, "");
      assert p + "" == p && p[1..] + "" == p[1..] && p == [p[0]] + p[1..];
      Regroup([p[0]], p[1..], "\n" + Unix(t));
      Regroup([p[0]], p[1..], "\r" + Unix(t));
    }
  }

  lemma UnixStep(p: string, s: string)
    requires p != "" && p[0] != '\r'
    ensures Unix(p + s) == [p[0]] + Unix(p[1..] + s)
  {
    assert (p + s)[1..] == p[1..] + s;
  }

  function Count(x: char, s: string): nat {
    if s == "" then 0 else (if s[0] == x then 1 else 0) + Count(x, s[1..])
  }

  function Newlines(n: nat): string {
    seq(n, _ => '\n')
  }

  // ---- Whitespace -----------------------------------------------------------------------------------

  function TrimLeft(c: Chars, s: string): (r: string)
    ensures |r| <= |s| && (r != "" ==> !c.space(r[0]))
  {
    if s != "" && c.space(s[0]) then TrimLeft(c, s[1..]) else s
  }

  /** Each run of whitespace becomes one space, and a final one disappears. */
  function Squeeze(c: Chars, s: string): string
    decreases |s|
  {
    if s == "" then ""
    else if c.space(s[0]) then
      if TrimLeft(c, s) == "" then "" else " " + Squeeze(c, TrimLeft(c, s))
    else [s[0]] + Squeeze(c, s[1..])
  }

  /** Words separated by single spaces. */
  function Collapse(c: Chars, s: string): string {
    Squeeze(c, TrimLeft(c, s))
  }

  // ---- Context --------------------------------------------------------------------------------------

  function LastSolid(c: Chars, s: string): Option<char> {
    if s == "" then None else if c.space(s[|s| - 1]) then LastSolid(c, s[..|s| - 1]) else Some(s[|s| - 1])
  }

  function FirstSolid(c: Chars, s: string): Option<char> {
    if TrimLeft(c, s) == "" then None else Some(TrimLeft(c, s)[0])
  }

  /** The last character that is no whitespace. */
  lemma {:induction false} LastSolidIs(c: Chars, s: string)
    ensures LastSolid(c, s).None? <==> forall x <- s :: c.space(x)
    ensures forall p: string, x: char, q: string ::
      s == p + ([x] + q) && !c.space(x) && (forall y <- q :: c.space(y)) ==> LastSolid(c, s) == Some(x)
  {
    if s != "" {
      var n := |s| - 1;
      LastSolidIs(c, s[..n]);
      assert s == s[..n] + [s[n]];
      forall p: string, x: char, q: string | s == p + ([x] + q) && !c.space(x) && (forall y <- q :: c.space(y))
        ensures LastSolid(c, s) == Some(x)
      {
        if q == "" {
          assert s[n] == x;
        } else {
          var m := |q| - 1;
          assert q[m] in q && s[n] == q[m];
          assert forall y <- q[..m] :: y in q;
          assert s[..n] == p + ([x] + q[..m]);
        }
      }
    }
  }

  /** And the first. */
  lemma {:induction false} FirstSolidIs(c: Chars, s: string)
    ensures FirstSolid(c, s).None? <==> forall x <- s :: c.space(x)
    ensures forall p: string, x: char, q: string ::
      s == p + ([x] + q) && !c.space(x) && (forall y <- p :: c.space(y)) ==> FirstSolid(c, s) == Some(x)
  {
    if s != "" {
      FirstSolidIs(c, s[1..]);
      assert s == [s[0]] + s[1..];
      forall p: string, x: char, q: string | s == p + ([x] + q) && !c.space(x) && (forall y <- p :: c.space(y))
        ensures FirstSolid(c, s) == Some(x)
      {
        if p == "" {
          assert s[0] == x;
        } else {
          assert p[0] in p && s[0] == p[0];
          assert forall y <- p[1..] :: y in p;
          assert s[1..] == p[1..] + ([x] + q);
        }
      }
    }
  }

  predicate IsWordChar(c: Chars, x: char) {
    c.alnum(x) || x == '_'
  }

  /** A word boundary: exactly one side is a word character. */
  predicate Boundary(c: Chars, s: string, i: nat)
    requires i <= |s|
  {
    (i > 0 && IsWordChar(c, s[i - 1])) != (i < |s| && IsWordChar(c, s[i]))
  }

  /** `name` occurs in `s` between word boundaries. */
  predicate HasWord(c: Chars, s: string, name: string) {
    exists i | 0 <= i <= |s| - |name| :: WordAt(c, s, name, i)
  }

  predicate WordAt(c: Chars, s: string, name: string, i: nat) {
    i + |name| <= |s| && s[i..i + |name|] == name && Boundary(c, s, i) && Boundary(c, s, i + |name|)
  }

  /**
   The text is split around the name, and at either end just one of the two characters that meet is a word character.
   */
  ghost predicate Parts(c: Chars, s: string, p: string, name: string, q: string)
    requires name != ""
  {
    var first, last := name[0], name[|name| - 1];
    && s == p + (name + q)
    && (p != "" && (c.alnum(p[|p| - 1]) || p[|p| - 1] == '_')) != (c.alnum(first) || first == '_')
    && (q != "" && (c.alnum(q[0]) || q[0] == '_')) != (c.alnum(last) || last == '_')
  }

  /** What counts as a mention in quoted text: the name as a word of its own. */
  lemma HasWordIff(c: Chars, s: string, name: string)
    requires name != ""
    ensures HasWord(c, s, name) <==> exists p, q :: Parts(c, s, p, name, q)
  {
    if HasWord(c, s, name) {
      var i :| 0 <= i <= |s| - |name| && WordAt(c, s, name, i);
      SplitAround(s, name, i);
      assert Parts(c, s, s[..i], name, s[i + |name|..]);
    }
    if p, q :| Parts(c, s, p, name, q) {
      assert s[|p|..|p| + |name|] == name;
      assert WordAt(c, s, name, |p|);
    }
  }

  lemma SplitAround(s: string, name: string, i: nat)
    requires i + |name| <= |s| && s[i..i + |name|] == name
    ensures s == s[..i] + (name + s[i + |name|..])
  {
  }

  predicate IsName(name: string) {
    && name != ""
    && (IsLetter(name[0]) || name[0] == '_' || name[0] == '$')
    && forall i :: 1 <= i < |name| ==> IsLetter(name[i]) || IsDigit(name[i]) || name[i] == '_' || name[i] == '$'
  }

  // ---- The canonical form ---------------------------------------------------------------------------

  predicate IsHit(t: Token, name: string) {
    t.kind.Word? && t.text == name
  }

  /** A token that makes the witness give up, between the text before it and the text after it. */
  predicate GivesUp(c: Chars, before: string, t: Token, after: string, name: string) {
    match t.kind
    case Slash => LastSolid(c, before) != Some('<') && FirstSolid(c, after) != Some('>')
    case Quoted => HasWord(c, t.text, name)
    case Word => t.text == name && (LastSolid(c, before) == Some('.') || FirstSolid(c, after) == Some(':'))
    case _ => false
  }

  predicate Clean(c: Chars, before: string, tokens: seq<Token>, name: string)
    decreases tokens
  {
    tokens == [] ||
    (!GivesUp(c, before, tokens[0], Text(tokens[1..]), name) && Clean(c, before + tokens[0].text, tokens[1..], name))
  }

  function Shown(t: Token, name: string, with: string): string {
    if t.kind.Comment? then Newlines(Count('\n', t.text))
    else if IsHit(t, name) then with
    else t.text
  }

  /** The tokens written out again, without comments and with `with` for every occurrence of the binding. */
  function Render(tokens: seq<Token>, name: string, with: string): string {
    if tokens == [] then "" else Shown(tokens[0], name, with) + Render(tokens[1..], name, with)
  }

  function Hits(tokens: seq<Token>, name: string): nat {
    if tokens == [] then 0 else (if IsHit(tokens[0], name) then 1 else 0) + Hits(tokens[1..], name)
  }

  datatype Canonical = Canonical(text: string, count: nat)

  function CanonicalSource(c: Chars, source: string, name: string): Option<Canonical> {
    var tokens := Lex(c, Unix(source));
    if IsName(name) && Clean(c, "", tokens, name)
    then Some(Canonical(Collapse(c, Render(tokens, name, MARKER)), Hits(tokens, name)))
    else None
  }

  method PreviousSolid(c: Chars, s: string) returns (r: Option<char>)
    ensures r == LastSolid(c, s)
  {
    var pos := |s|;
    assert s[..pos] == s;
    while pos > 0
      invariant 0 <= pos <= |s| && LastSolid(c, s) == LastSolid(c, s[..pos])
    {
      pos := pos - 1;
      assert s[..pos + 1][..pos] == s[..pos];
      if !c.space(s[pos]) {
        return Some(s[pos]);
      }
    }
    return None;
  }

  method FollowingSolid(c: Chars, s: string) returns (r: Option<char>)
    ensures r == FirstSolid(c, s)
  {
    var pos := 0;
    while pos < |s|
      invariant 0 <= pos <= |s| && TrimLeft(c, s) == TrimLeft(c, s[pos..])
    {
      if !c.space(s[pos]) {
        return Some(s[pos]);
      }
      pos := pos + 1;
    }
    return None;
  }

  /** Whether the scan gives up at a token, looking around only where the source does. */
  method MustGiveUp(c: Chars, before: string, t: Token, after: string, name: string) returns (r: bool)
    ensures r == GivesUp(c, before, t, after, name)
  {
    match t.kind {
      case Slash =>
        var previous := PreviousSolid(c, before);
        var following := FollowingSolid(c, after);
        r := previous != Some('<') && following != Some('>');
      case Quoted =>
        r := HasWord(c, t.text, name);
      case Word =>
        if t.text != name {
          return false;
        }
        var previous := PreviousSolid(c, before);
        var following := FollowingSolid(c, after);
        r := previous == Some('.') || following == Some(':');
      case _ =>
        r := false;
    }
  }

  lemma CleanStep(c: Chars, before: string, tail: string, name: string)
    requires tail != ""
    ensures var t := First(c, tail); var rest := tail[|t.text|..];
      Clean(c, before, Lex(c, tail), name) == (!GivesUp(c, before, t, rest, name)
        && Clean(c, before + t.text, Lex(c, rest), name))
  {
    LexStep(c, tail);
    LexIsPartition(c, tail[|First(c, tail).text|..]);
  }

  /** The scan so far: what is still to come completes it to the canonical form. */
  ghost predicate Scanned(c: Chars, s: string, name: string, index: nat, out: string, count: nat) {
    && index <= |s|
    && Render(Lex(c, s), name, MARKER) == out + Render(Lex(c, s[index..]), name, MARKER)
    && Hits(Lex(c, s), name) == count + Hits(Lex(c, s[index..]), name)
    && Clean(c, "", Lex(c, s), name) == Clean(c, s[..index], Lex(c, s[index..]), name)
  }

  lemma Advance(s: string, index: nat, end: nat, text: string)
    requires index <= |s| && text <= s[index..] && end == index + |text|
    ensures s[..end] == s[..index] + text && s[end..] == s[index..][|text|..]
  {
  }

  lemma ScannedStep(c: Chars, s: string, name: string, index: nat, out: string, count: nat, t: Token, end: nat)
    requires Scanned(c, s, name, index, out, count) && index < |s|
    requires t == First(c, s[index..]) && end == index + |t.text|
    ensures end <= |s|
    ensures GivesUp(c, s[..index], t, s[end..], name) ==> !Clean(c, "", Lex(c, s), name)
    ensures !GivesUp(c, s[..index], t, s[end..], name) ==>
      Scanned(c, s, name, end, out + Shown(t, name, MARKER), count + if IsHit(t, name) then 1 else 0)
  {
    Advance(s, index, end, t.text);
    CleanStep(c, s[..index], s[index..], name);
    Regroup(out, Shown(t, name, MARKER), Render(Lex(c, s[end..]), name, MARKER));
  }

  method CanonicalIdentifierSource(c: Chars, source: string, name: string) returns (r: Option<Canonical>)
    ensures r == CanonicalSource(c, source, name)
  {
    if !IsName(name) {
      return None;
    }
    var s := Unix(source);
    var out, count, index := "", 0, 0;
    assert s[0..] == s && s[..0] == "";
    while index < |s|
      invariant Scanned(c, s, name, index, out, count)
      decreases |s| - index
    {
      var t := NextToken(c, s[index..]);
      var end := index + |t.text|;
      ScannedStep(c, s, name, index, out, count, t, end);
      var stop := MustGiveUp(c, s[..index], t, s[end..], name);
      if stop {
        return None;
      }
      out := out + Shown(t, name, MARKER);
      if IsHit(t, name) {
        count := count + 1;
      }
      index := end;
    }
    assert s[index..] == "" && out + "" == out;
    r := Some(Canonical(Collapse(c, out), count));
  }

  predicate StandsClean(c: Chars, before: string, tokens: seq<Token>, name: string, i: nat)
    requires i < |tokens|
  {
    !GivesUp(c, before + Text(tokens[..i]), tokens[i], Text(tokens[i + 1..]), name)
  }

  lemma StandsShifted(c: Chars, before: string, tokens: seq<Token>, name: string, i: nat)
    requires i + 1 < |tokens|
    ensures StandsClean(c, before, tokens, name, i + 1) == StandsClean(c, before + tokens[0].text, tokens[1..], name, i)
  {
    var t, rest := tokens[0], tokens[1..];
    assert tokens[..i + 1][0] == t && tokens[..i + 1][1..] == rest[..i];
    Regroup(before, t.text, Text(rest[..i]));
    assert rest[i + 1..] == tokens[i + 2..];
  }

  /** The scan does not give up exactly when no token makes it, wherever it stands. */
  lemma {:induction false} CleanIff(c: Chars, before: string, tokens: seq<Token>, name: string)
    ensures Clean(c, before, tokens, name) <==> forall i :: 0 <= i < |tokens| ==>
      StandsClean(c, before, tokens, name, i)
    decreases |tokens|
  {
    if tokens != [] {
      var next := before + tokens[0].text;
      CleanIff(c, next, tokens[1..], name);
      assert tokens[..0] == [] && before + "" == before;
      assert StandsClean(c, before, tokens, name, 0) <==> !GivesUp(c, before, tokens[0], Text(tokens[1..]), name);
      forall i | 0 <= i < |tokens| - 1
        ensures StandsClean(c, before, tokens, name, i + 1) <==> StandsClean(c, next, tokens[1..], name, i)
      {
        StandsShifted(c, before, tokens, name, i);
      }
      if forall i :: 0 <= i < |tokens| ==> StandsClean(c, before, tokens, name, i) {
        forall i | 0 <= i < |tokens[1..]| ensures StandsClean(c, next, tokens[1..], name, i) {
          assert StandsClean(c, before, tokens, name, i + 1);
        }
      }
      if Clean(c, before, tokens, name) {
        forall i | 0 <= i < |tokens| ensures StandsClean(c, before, tokens, name, i) {
          if i > 0 {
            assert StandsClean(c, next, tokens[1..], name, i - 1);
          }
        }
      }
    }
  }

  /**
   What acceptance says of each token, read in the text as it stands, comments included: what it says of members and
   keys in the code is the subject of WitnessMembers.
   */
  lemma AcceptedTokens(c: Chars, source: string, name: string, i: nat)
    requires CanonicalSource(c, source, name).Some? && i < |Lex(c, Unix(source))|
    ensures var tokens := Lex(c, Unix(source));
      && (IsHit(tokens[i], name) ==>
        LastSolid(c, Text(tokens[..i])) != Some('.')
        && FirstSolid(c, Text(tokens[i + 1..])) != Some(':'))
      && (tokens[i].kind.Quoted? ==> !HasWord(c, tokens[i].text, name))
      && (tokens[i].kind.Slash? ==>
        LastSolid(c, Text(tokens[..i])) == Some('<')
        || FirstSolid(c, Text(tokens[i + 1..])) == Some('>'))
  {
    var tokens := Lex(c, Unix(source));
    CleanIff(c, "", tokens, name);
    assert StandsClean(c, "", tokens, name, i);
    assert "" + Text(tokens[..i]) == Text(tokens[..i]);
  }

  /** Whether the second source is the first with one binding renamed, as far as the witness can tell. */
  predicate Accepts(c: Chars, before: string, after: string, oldName: string, newName: string) {
    var b := CanonicalSource(c, before, oldName);
    var a := CanonicalSource(c, after, newName);
    b.Some? && a.Some? && b.value.count > 0 && b.value.count == a.value.count && b.value.text == a.value.text
  }

  method IdentifierOnlyMigration(c: Chars, before: string, after: string, oldName: string, newName: string)
    returns (r: bool)
    ensures r == Accepts(c, before, after, oldName, newName)
  {
    var b := CanonicalIdentifierSource(c, before, oldName);
    var a := CanonicalIdentifierSource(c, after, newName);
    r := b.Some? && a.Some? && b.value.count > 0 && b.value.count == a.value.count && b.value.text == a.value.text;
  }
}
