/**
 Unified diffs as they are written, and what the parser of old-side ranges reads back from them.
 */
module DiffRoundTrip {
  import opened DiffRanges
  import opened Decimals
  import opened Wrappers

  datatype BodyLine = Minus(text: string) | Plus(text: string) | Same(text: string) | NoNewline

  datatype Span = Span(start: nat, count: Option<nat>)

  datatype Hunk = Hunk(before: Span, after: Span, section: string, body: seq<BodyLine>)

  /** A file's part of a diff: lines before its headers, its old path unless it is new, the new-file line, its hunks. */
  datatype FilePatch = FilePatch(preamble: seq<string>, path: Option<string>, newFile: string, hunks: seq<Hunk>)

  // ---- Writing --------------------------------------------------------------------------------------

  function Line(l: BodyLine): string {
    match l
    case Minus(text) => "-" + text
    case Plus(text) => "+" + text
    case Same(text) => " " + text
    case NoNewline => "\\ No newline at end of file"
  }

  function Lines(body: seq<BodyLine>): seq<string> {
    if body == [] then [] else [Line(body[0])] + Lines(body[1..])
  }

  function CountText(s: Span): string {
    if s.count.Some? then "," + Decimal(s.count.value) else ""
  }

  function SpanText(s: Span): string {
    Decimal(s.start) + CountText(s)
  }

  function Header(h: Hunk): string {
    "@@ -" + (SpanText(h.before) + (" +" + (SpanText(h.after) + (" @@" + h.section))))
  }

  function HunkLines(h: Hunk): seq<string> {
    [Header(h)] + Lines(h.body)
  }

  function HunksLines(hunks: seq<Hunk>): seq<string> {
    if hunks == [] then [] else HunkLines(hunks[0]) + HunksLines(hunks[1..])
  }

  function OldFile(path: Option<string>): string {
    if path.Some? then "--- " + ("a/" + path.value) else "--- /dev/null"
  }

  function NewFile(f: FilePatch): string {
    "+++ " + f.newFile
  }

  function FileLines(f: FilePatch): seq<string> {
    f.preamble + ([OldFile(f.path)] + ([NewFile(f)] + HunksLines(f.hunks)))
  }

  function PatchLines(files: seq<FilePatch>): seq<string> {
    if files == [] then [] else FileLines(files[0]) + PatchLines(files[1..])
  }

  // ---- What a diff touches ----------------------------------------------------------------------------

  /** The old lines a body removes; the remark about a missing newline is no line. */
  function Removals(body: seq<BodyLine>, at: nat): seq<nat> {
    if body == [] then []
    else
      match body[0]
      case Minus(_) => [at] + Removals(body[1..], at + 1)
      case Same(_) => Removals(body[1..], at + 1)
      case _ => Removals(body[1..], at)
  }

  function Touches(path: string, h: Hunk): Entry {
    EntryFor(path, h.before.start, Removals(h.body, h.before.start))
  }

  function HunksTouch(path: string, hunks: seq<Hunk>): seq<Entry> {
    if hunks == [] then [] else [Touches(path, hunks[0])] + HunksTouch(path, hunks[1..])
  }

  /** A new file has no old lines. */
  function FileTouches(f: FilePatch): seq<Entry> {
    if f.path.Some? then HunksTouch(f.path.value, f.hunks) else []
  }

  /** What a diff touches, file by file and hunk by hunk. */
  function PatchTouches(files: seq<FilePatch>): seq<Entry> {
    if files == [] then [] else FileTouches(files[0]) + PatchTouches(files[1..])
  }

  // ---- Headers are read back ---------------------------------------------------------------------------

  lemma {:induction false} DecimalDigits(n: nat)
    ensures Decimal(n) != "" && (forall x <- Decimal(n) :: IsDigit(x)) && ValueOf(Decimal(n)) == n
  {
    if n >= 10 {
      DecimalDigits(n / 10);
      assert Decimal(n)[..|Decimal(n)| - 1] == Decimal(n / 10);
    } else {
      assert Decimal(n)[..0] == "" && ValueOf("") == 0;
    }
  }

  lemma {:induction false} DigitsOf(d: string, rest: string)
    requires (forall x <- d :: IsDigit(x)) && (rest == "" || !IsDigit(rest[0]))
    ensures Digits(d + rest) == |d|
  {
    if d == "" {
      assert d + rest == rest;
    } else {
      assert d[0] in d && (d + rest)[0] == d[0] && (d + rest)[1..] == d[1..] + rest;
      DigitsOf(d[1..], rest);
    }
  }

  /** What is left of `s` once a count, if there is one, is skipped. */
  function AfterCount(s: string): string {
    if s != "" && s[0] == ',' && Digits(s[1..]) > 0 then s[1..][Digits(s[1..])..] else s
  }

  /** Reading a field from a number followed by something that is no digit. */
  lemma ReadNumber(d: string, tail: string)
    requires d != "" && (forall x <- d :: IsDigit(x)) && (tail == "" || !IsDigit(tail[0]))
    ensures ReadField(d + tail) == Some(Field(ValueOf(d), AfterCount(tail)))
  {
    DigitsOf(d, tail);
    assert (d + tail)[..|d|] == d && (d + tail)[|d|..] == tail;
  }

  lemma SkipDigits(d: string, rest: string)
    requires d != "" && (forall x <- d :: IsDigit(x)) && (rest == "" || !IsDigit(rest[0]))
    ensures AfterCount("," + (d + rest)) == rest
  {
    DigitsOf(d, rest);
    assert ("," + (d + rest))[1..] == d + rest && (d + rest)[|d|..] == rest;
  }

  lemma SkipCount(s: Span, rest: string)
    requires rest != "" && rest[0] == ' '
    ensures var tail := CountText(s) + rest;
      tail != "" && !IsDigit(tail[0]) && AfterCount(tail) == rest
  {
    if s.count.Some? {
      DecimalDigits(s.count.value);
      SkipDigits(Decimal(s.count.value), rest);
      Regroup(",", Decimal(s.count.value), rest);
    } else {
      assert CountText(s) + rest == rest;
    }
  }

  lemma ReadCount(s: Span, rest: string)
    requires rest != "" && rest[0] == ' '
    ensures ReadField(SpanText(s) + rest) == Some(Field(s.start, rest))
  {
    DecimalDigits(s.start);
    SkipCount(s, rest);
    ReadNumber(Decimal(s.start), CountText(s) + rest);
    Regroup(Decimal(s.start), CountText(s), rest);
  }

  lemma HeaderIsRead(h: Hunk)
    ensures HunkStart(Header(h)) == Some(h.before.start) && EndsBody(Header(h)) && !IsFileHeader(Header(h))
  {
    var last := " @@" + h.section;
    var middle := " +" + (SpanText(h.after) + last);
    var fields := SpanText(h.before) + middle;
    ReadCount(h.before, middle);
    ReadCount(h.after, last);
    SpansAreRead(fields, middle, last, h.before.start, h.after.start);
    assert Header(h) == "@@ -" + fields;
  }

  lemma SpansAreRead(fields: string, middle: string, last: string, start: nat, after: nat)
    requires ReadField(fields) == Some(Field(start, middle))
    requires " +" <= middle && ReadField(middle[2..]) == Some(Field(after, last)) && " @@" <= last
    ensures HunkStart("@@ -" + fields) == Some(start) && EndsBody("@@ -" + fields) && !IsFileHeader("@@ -" + fields)
  {
    var line := "@@ -" + fields;
    assert line[4..] == fields && line[0] == '@' && line[1] == '@';
  }

  // ---- Bodies -----------------------------------------------------------------------------------------

  /** A body line that reads like the start of something else. */
  predicate Collides(l: BodyLine) {
    (l.Minus? && "-- " <= l.text) || (l.Plus? && "++ " <= l.text)
  }

  lemma SamePrefix(x: char, p: string, text: string)
    ensures [x] + p <= [x] + text <==> p <= text
  {
    assert ([x] + text)[1..] == text && ([x] + p)[1..] == p;
    if p <= text {
      assert text == p + text[|p|..];
      assert [x] + text == ([x] + p) + text[|p|..];
    }
    if [x] + p <= [x] + text {
      assert ([x] + text)[..|p| + 1] == [x] + p;
      assert text[..|p|] == ([x] + text)[..|p| + 1][1..];
    }
  }

  lemma MinusLine(text: string)
    ensures EndsBody("-" + text) <==> "-- " <= text
    ensures "--- " <= "-" + text <==> "-- " <= text
    ensures HunkStart("-" + text).None?
  {
    SamePrefix('-', "-- ", text);
    assert "--- " == ['-'] + "-- ";
    assert ("-" + text)[0] == '-' && "@@"[0] == '@' && "+++ "[0] == '+' && "diff "[0] == 'd';
  }

  lemma PlusLine(text: string)
    ensures EndsBody("+" + text) <==> "++ " <= text
    ensures HunkStart("+" + text).None?
    ensures !("--- " <= "+" + text)
  {
    SamePrefix('+', "++ ", text);
    assert "+++ " == ['+'] + "++ ";
    assert ("+" + text)[0] == '+' && "@@"[0] == '@' && "--- "[0] == '-' && "diff "[0] == 'd';
  }

  /** The syntax takes a body line for the end of the body just when it collides, and for a header only then. */
  ghost predicate ReadsLine(x: Syntax, l: BodyLine) {
    && (x.ends(Line(l)) <==> Collides(l))
    && (x.file(Line(l)) ==> Collides(l))
    && x.start(Line(l)).None?
  }

  ghost predicate ReadsBody(x: Syntax, body: seq<BodyLine>) {
    forall l <- body :: ReadsLine(x, l)
  }

  lemma LineIsRead(space: char -> bool, l: BodyLine)
    ensures ReadsLine(Unified(space), l)
    ensures !l.Minus? ==> !IsFileHeader(Line(l))
  {
    match l {
      case Minus(text) =>
        MinusLine(text);
      case Plus(text) =>
        PlusLine(text);
      case Same(text) =>
        assert Line(l)[0] == ' ';
      case NoNewline =>
        assert Line(l)[0] == '\\';
    }
  }

  /** The part of a body before the first line that collides. */
  function Intact(body: seq<BodyLine>): (r: seq<BodyLine>)
    ensures r <= body
  {
    if body == [] || Collides(body[0]) then [] else [body[0]] + Intact(body[1..])
  }

  /** After the remark about a missing newline comes no further old line. */
  predicate WellPlaced(body: seq<BodyLine>) {
    body == [] || ((body[0].NoNewline? ==> forall l <- body[1..] :: !l.Minus? && !l.Same?) && WellPlaced(body[1..]))
  }

  lemma LinesHead(body: seq<BodyLine>, rest: seq<string>)
    requires body != []
    ensures var all := Lines(body) + rest; all[0] == Line(body[0]) && all[1..] == Lines(body[1..]) + rest
  {
    ConsAppend(Line(body[0]), Lines(body[1..]), rest);
  }

  lemma ConsAppend(first: string, a: seq<string>, b: seq<string>)
    ensures var all := ([first] + a) + b; all[0] == first && all[1..] == a + b && all == [first] + (a + b)
  {
  }

  lemma {:induction false} BodyIsRead(x: Syntax, body: seq<BodyLine>, rest: seq<string>)
    requires ReadsBody(x, body) && (rest == [] || x.ends(rest[0]))
    ensures BodyLength(x, Lines(body) + rest) == |Intact(body)|
    ensures (Lines(body) + rest)[..|Intact(body)|] == Lines(Intact(body))
  {
    if body == [] {
      assert Lines(body) + rest == rest;
    } else {
      var all := Lines(body) + rest;
      LinesHead(body, rest);
      assert ReadsLine(x, body[0]) by {
        assert body[0] in body;
      }
      if !Collides(body[0]) {
        assert ReadsBody(x, body[1..]) by {
          assert forall l <- body[1..] :: l in body;
        }
        BodyIsRead(x, body[1..], rest);
        IntactLines(body, all);
      }
    }
  }

  lemma IntactLines(body: seq<BodyLine>, all: seq<string>)
    requires body != [] && !Collides(body[0]) && all != [] && all[0] == Line(body[0])
    requires |Intact(body[1..])| <= |all[1..]| && all[1..][..|Intact(body[1..])|] == Lines(Intact(body[1..]))
    ensures |Intact(body)| <= |all| && all[..|Intact(body)|] == Lines(Intact(body))
  {
    TakeCons(all, |Intact(body[1..])|);
  }

  lemma TakeCons(all: seq<string>, n: nat)
    requires n < |all|
    ensures all[..n + 1] == [all[0]] + all[1..][..n]
  {
  }

  lemma {:induction false} NothingOldLeft(body: seq<BodyLine>, at: nat, from: nat)
    requires forall l <- body :: !l.Minus? && !l.Same?
    ensures Removals(body, at) == [] && Removed(Lines(body), from) == []
  {
    if body != [] {
      assert body[0] in body;
      assert Lines(body)[1..] == Lines(body[1..]) && Lines(body)[0] == Line(body[0]);
      NothingOldLeft(body[1..], at, from);
      NothingOldLeft(body[1..], at, from + 1);
    }
  }

  /** Of what the parser takes for the body, it finds the removed lines. */
  lemma {:induction false} RemovalsAreRead(body: seq<BodyLine>, at: nat)
    requires WellPlaced(body)
    ensures Removed(Lines(body), at) == Removals(body, at)
  {
    if body != [] {
      assert Lines(body)[1..] == Lines(body[1..]) && Lines(body)[0] == Line(body[0]);
      if body[0].NoNewline? {
        NothingOldLeft(body[1..], at, at + 1);
      } else if body[0].Plus? {
        RemovalsAreRead(body[1..], at);
      } else {
        RemovalsAreRead(body[1..], at + 1);
      }
    }
  }

  /** No old line is removed from the first colliding line on. */
  predicate LosesNothing(body: seq<BodyLine>) {
    forall l <- body[|Intact(body)|..] :: !l.Minus?
  }

  lemma {:induction false} IntactIsWellPlaced(body: seq<BodyLine>)
    requires WellPlaced(body)
    ensures WellPlaced(Intact(body))
  {
    if body != [] && !Collides(body[0]) {
      IntactIsWellPlaced(body[1..]);
      assert Intact(body)[1..] == Intact(body[1..]);
      forall l | l in Intact(body[1..]) ensures l in body[1..] {
      }
    }
  }

  function Minuses(body: seq<BodyLine>): nat {
    if body == [] then 0 else (if body[0].Minus? then 1 else 0) + Minuses(body[1..])
  }

  lemma {:induction false} RemovalsSplit(a: seq<BodyLine>, b: seq<BodyLine>, at: nat)
    ensures Removals(a, at) <= Removals(a + b, at)
    ensures |Removals(a + b, at)| == |Removals(a, at)| + Minuses(b)
    decreases |a|
  {
    if a == [] {
      assert a + b == b;
      CountRemovals(b, at);
    } else {
      assert (a + b)[0] == a[0] && (a + b)[1..] == a[1..] + b;
      RemovalsSplit(a[1..], b, at);
      RemovalsSplit(a[1..], b, at + 1);
    }
  }

  lemma {:induction false} CountRemovals(b: seq<BodyLine>, at: nat)
    ensures |Removals(b, at)| == Minuses(b)
    decreases |b|
  {
    if b != [] {
      CountRemovals(b[1..], at);
      CountRemovals(b[1..], at + 1);
    }
  }

  lemma {:induction false} NoMinuses(b: seq<BodyLine>)
    ensures Minuses(b) == 0 <==> forall l <- b :: !l.Minus?
  {
    if b != [] {
      NoMinuses(b[1..]);
      assert b == [b[0]] + b[1..];
    }
  }

  lemma AllRemovedIff(body: seq<BodyLine>, at: nat)
    ensures Removals(Intact(body), at) == Removals(body, at) <==> LosesNothing(body)
    ensures Removals(Intact(body), at) == [] <==> Minuses(Intact(body)) == 0
  {
    var intact, lost := Intact(body), body[|Intact(body)|..];
    assert body == intact + lost;
    RemovalsSplit(intact, lost, at);
    CountRemovals(intact, at);
    NoMinuses(lost);
  }

  /**
   Exactly when a hunk is read right: whatever follows it, the removed lines found are the removed lines if and
   only if no line is removed from the first colliding line on.
   */
  lemma HunkReadIff(x: Syntax, body: seq<BodyLine>, rest: seq<string>, at: nat)
    requires WellPlaced(body) && ReadsBody(x, body) && (rest == [] || x.ends(rest[0]))
    ensures var lines := Lines(body) + rest;
      Removed(lines[..BodyLength(x, lines)], at) == Removals(body, at) <==> LosesNothing(body)
  {
    BodyIsRead(x, body, rest);
    IntactIsWellPlaced(body);
    RemovalsAreRead(Intact(body), at);
    AllRemovedIff(body, at);
  }

  // ---- Whole diffs --------------------------------------------------------------------------------------

  /** A hunk that can be found and whose lines can be told apart; its body may still be cut short. */
  ghost predicate FindsHunk(x: Syntax, h: Hunk) {
    && x.start(Header(h)) == Some(h.before.start) && x.ends(Header(h)) && !x.file(Header(h))
    && ReadsBody(x, h.body) && WellPlaced(h.body)
  }

  ghost predicate FindsHunks(x: Syntax, hunks: seq<Hunk>) {
    forall h <- hunks :: FindsHunk(x, h)
  }

  /** No added line, context line or remark is an old-file header. */
  ghost predicate PlusIsNoHeader(x: Syntax, h: Hunk) {
    forall l <- h.body :: !l.Minus? ==> !x.file(Line(l))
  }

  ghost predicate ReadsHunks(x: Syntax, hunks: seq<Hunk>) {
    forall h <- hunks :: FindsHunk(x, h) && LosesNothing(h.body) && PlusIsNoHeader(x, h)
  }

  /** The headers of a file are found and name it. */
  ghost predicate FindsFile(x: Syntax, f: FilePatch) {
    && (f.preamble != [] ==> x.ends(f.preamble[0]))
    && (forall line <- f.preamble :: IsOther(x, line))
    && x.file(OldFile(f.path)) && x.ends(OldFile(f.path)) && x.name(OldFile(f.path)) == f.path
    && IsOther(x, NewFile(f))
  }

  ghost predicate ReadsFile(x: Syntax, f: FilePatch) {
    FindsFile(x, f) && ReadsHunks(x, f.hunks)
  }

  /** A line that is no header of any kind. */
  ghost predicate IsOther(x: Syntax, line: string) {
    !x.file(line) && x.start(line).None?
  }

  lemma EntrySkipped(x: Syntax, line: string, rest: seq<string>, current: Option<string>)
    requires !x.file(line) && (x.start(line).None? || current.None?)
    ensures Entries(x, [line] + rest, current) == Entries(x, rest, current)
  {
    assert ([line] + rest)[1..] == rest;
  }

  lemma EntryNamed(x: Syntax, line: string, rest: seq<string>, current: Option<string>)
    requires x.file(line)
    ensures Entries(x, [line] + rest, current) == Entries(x, rest, x.name(line))
  {
    assert ([line] + rest)[1..] == rest;
  }

  lemma EntryAdded(x: Syntax, line: string, start: nat, tail: seq<string>, path: string)
    requires !x.file(line) && x.start(line) == Some(start)
    ensures var n := BodyLength(x, tail);
      Entries(x, [line] + tail, Some(path))
      == [EntryFor(path, start, Removed(tail[..n], start))] + Entries(x, tail[n..], Some(path))
  {
    assert ([line] + tail)[1..] == tail;
  }

  /** The file that is current after a body: the one its last line that passes for an old-file header names. */
  function Renamed(x: Syntax, body: seq<BodyLine>, current: Option<string>): Option<string> {
    if body == [] then current
    else Renamed(x, body[1..], if x.file(Line(body[0])) then x.name(Line(body[0])) else current)
  }

  /** Body lines met outside a body enter nothing, but may name a file. */
  lemma {:induction false} LinesRename(x: Syntax, body: seq<BodyLine>, rest: seq<string>, current: Option<string>)
    requires ReadsBody(x, body)
    ensures Entries(x, Lines(body) + rest, current) == Entries(x, rest, Renamed(x, body, current))
  {
    if body == [] {
      assert Lines(body) + rest == rest;
    } else {
      var l := body[0];
      assert l in body && ReadsLine(x, l);
      assert forall m <- body[1..] :: m in body;
      ConsAppend(Line(l), Lines(body[1..]), rest);
      if x.file(Line(l)) {
        EntryNamed(x, Line(l), Lines(body[1..]) + rest, current);
        LinesRename(x, body[1..], rest, x.name(Line(l)));
      } else {
        EntrySkipped(x, Line(l), Lines(body[1..]) + rest, current);
        LinesRename(x, body[1..], rest, current);
      }
    }
  }

  lemma {:induction false} IntactRenamesNothing(x: Syntax, body: seq<BodyLine>, current: Option<string>)
    requires ReadsBody(x, body)
    ensures Renamed(x, body, current) == Renamed(x, body[|Intact(body)|..], current)
  {
    if body != [] && !Collides(body[0]) {
      assert body[0] in body && ReadsLine(x, body[0]);
      assert forall m <- body[1..] :: m in body;
      IntactRenamesNothing(x, body[1..], current);
      assert body[1..][|Intact(body[1..])|..] == body[|Intact(body)|..];
    }
  }

  lemma {:induction false} RenamesNothing(x: Syntax, body: seq<BodyLine>, current: Option<string>)
    requires forall l <- body :: !x.file(Line(l))
    ensures Renamed(x, body, current) == current
  {
    if body != [] {
      assert body[0] in body && forall m <- body[1..] :: m in body;
      RenamesNothing(x, body[1..], current);
    }
  }

  lemma {:induction false} LinesSplit(a: seq<BodyLine>, b: seq<BodyLine>)
    ensures Lines(a + b) == Lines(a) + Lines(b)
    ensures |Lines(a)| == |a|
  {
    if a == [] {
      assert a + b == b;
    } else {
      assert (a + b)[0] == a[0] && (a + b)[1..] == a[1..] + b;
      LinesSplit(a[1..], b);
    }
  }

  /** What remains of a body after the part that was read. */
  lemma BodyRemainder(x: Syntax, body: seq<BodyLine>, rest: seq<string>)
    requires ReadsBody(x, body) && (rest == [] || x.ends(rest[0]))
    ensures BodyLength(x, Lines(body) + rest) == |Intact(body)|
    ensures (Lines(body) + rest)[|Intact(body)|..] == Lines(body[|Intact(body)|..]) + rest
  {
    BodyIsRead(x, body, rest);
    LinesRemainder(body, rest, |Intact(body)|);
  }

  lemma LinesRemainder(body: seq<BodyLine>, rest: seq<string>, n: nat)
    requires n <= |body|
    ensures |Lines(body)| == |body| && (Lines(body) + rest)[n..] == Lines(body[n..]) + rest
  {
    assert body == body[..n] + body[n..];
    LinesSplit(body[..n], body[n..]);
    LinesSplit(body, []);
  }

  /** What the parser enters for a hunk: of the current file if there is one, and up to the first colliding line. */
  function HunkRead(h: Hunk, current: Option<string>): seq<Entry> {
    if current.None? then []
    else [EntryFor(current.value, h.before.start, Removals(Intact(h.body), h.before.start))]
  }

  function HunksRead(x: Syntax, hunks: seq<Hunk>, current: Option<string>): seq<Entry> {
    if hunks == [] then []
    else HunkRead(hunks[0], current) + HunksRead(x, hunks[1..], Renamed(x, hunks[0].body, current))
  }

  function PatchRead(x: Syntax, files: seq<FilePatch>): seq<Entry> {
    if files == [] then [] else HunksRead(x, files[0].hunks, files[0].path) + PatchRead(x, files[1..])
  }

  lemma NamedHunkIsRead(x: Syntax, h: Hunk, rest: seq<string>, path: string)
    requires FindsHunk(x, h) && (rest == [] || x.ends(rest[0]))
    ensures Entries(x, [Header(h)] + (Lines(h.body) + rest), Some(path))
         == HunkRead(h, Some(path)) + Entries(x, rest, Renamed(x, h.body, Some(path)))
  {
    var intact, lost := Intact(h.body), h.body[|Intact(h.body)|..];
    EntryAdded(x, Header(h), h.before.start, Lines(h.body) + rest, path);
    BodyIsRead(x, h.body, rest);
    IntactIsWellPlaced(h.body);
    RemovalsAreRead(intact, h.before.start);
    BodyRemainder(x, h.body, rest);
    assert forall l <- lost :: l in h.body;
    LinesRename(x, lost, rest, Some(path));
    IntactRenamesNothing(x, h.body, Some(path));
  }

  lemma HunkIsRead(x: Syntax, h: Hunk, rest: seq<string>, current: Option<string>)
    requires FindsHunk(x, h) && (rest == [] || x.ends(rest[0]))
    ensures Entries(x, HunkLines(h) + rest, current)
         == HunkRead(h, current) + Entries(x, rest, Renamed(x, h.body, current))
  {
    Regroup([Header(h)], Lines(h.body), rest);
    if current.Some? {
      NamedHunkIsRead(x, h, rest, current.value);
    } else {
      EntrySkipped(x, Header(h), Lines(h.body) + rest, current);
      LinesRename(x, h.body, rest, current);
    }
  }

  lemma HunksStart(x: Syntax, hunks: seq<Hunk>, rest: seq<string>)
    requires rest == [] || x.ends(rest[0])
    requires FindsHunks(x, hunks)
    ensures var more := HunksLines(hunks) + rest; more == [] || x.ends(more[0])
  {
    if hunks != [] {
      assert hunks[0] in hunks;
      assert (HunksLines(hunks) + rest)[0] == Header(hunks[0]);
    } else {
      assert HunksLines(hunks) + rest == rest;
    }
  }

  function AllRenamed(x: Syntax, hunks: seq<Hunk>, current: Option<string>): Option<string> {
    if hunks == [] then current else AllRenamed(x, hunks[1..], Renamed(x, hunks[0].body, current))
  }

  lemma {:induction false} HunksAreRead(x: Syntax, hunks: seq<Hunk>, rest: seq<string>, current: Option<string>)
    requires FindsHunks(x, hunks) && (rest == [] || x.ends(rest[0]))
    ensures Entries(x, HunksLines(hunks) + rest, current)
         == HunksRead(x, hunks, current) + Entries(x, rest, AllRenamed(x, hunks, current))
  {
    if hunks == [] {
      assert HunksLines(hunks) + rest == rest;
    } else {
      assert hunks[0] in hunks && forall h <- hunks[1..] :: h in hunks;
      var next := Renamed(x, hunks[0].body, current);
      HunksAreRead(x, hunks[1..], rest, next);
      HunksStart(x, hunks[1..], rest);
      HunkIsRead(x, hunks[0], HunksLines(hunks[1..]) + rest, current);
      Regroup(HunkLines(hunks[0]), HunksLines(hunks[1..]), rest);
      Regroup(HunkRead(hunks[0], current), HunksRead(x, hunks[1..], next),
              Entries(x, rest, AllRenamed(x, hunks, current)));
    }
  }

  lemma {:induction false} PreambleSkipped(x: Syntax, preamble: seq<string>, rest: seq<string>, current: Option<string>)
    requires forall line <- preamble :: IsOther(x, line)
    ensures Entries(x, preamble + rest, current) == Entries(x, rest, current)
  {
    if preamble == [] {
      assert preamble + rest == rest;
    } else {
      assert preamble[0] in preamble && forall line <- preamble[1..] :: line in preamble;
      PreambleSkipped(x, preamble[1..], rest, current);
      EntrySkipped(x, preamble[0], preamble[1..] + rest, current);
      assert preamble + rest == [preamble[0]] + (preamble[1..] + rest);
    }
  }

  lemma RegroupFile(a: seq<string>, b: seq<string>, c: seq<string>, d: seq<string>, e: seq<string>)
    ensures (a + (b + (c + d))) + e == a + (b + (c + (d + e)))
  {
    Regroup(c, d, e);
    Regroup(b, c + d, e);
    Regroup(a, b + (c + d), e);
  }

  lemma FileIsRead(x: Syntax, f: FilePatch, rest: seq<string>, current: Option<string>)
    requires FindsFile(x, f) && FindsHunks(x, f.hunks) && (rest == [] || x.ends(rest[0]))
    ensures Entries(x, FileLines(f) + rest, current)
         == HunksRead(x, f.hunks, f.path) + Entries(x, rest, AllRenamed(x, f.hunks, f.path))
    ensures FileLines(f) != [] && x.ends(FileLines(f)[0])
  {
    var hunks := HunksLines(f.hunks) + rest;
    var named := [NewFile(f)] + hunks;
    var headed := [OldFile(f.path)] + named;
    PreambleSkipped(x, f.preamble, headed, current);
    EntryNamed(x, OldFile(f.path), named, current);
    EntrySkipped(x, NewFile(f), hunks, f.path);
    HunksAreRead(x, f.hunks, rest, f.path);
    RegroupFile(f.preamble, [OldFile(f.path)], [NewFile(f)], HunksLines(f.hunks), rest);
  }

  ghost predicate FindsPatch(x: Syntax, files: seq<FilePatch>) {
    forall f <- files :: FindsFile(x, f) && FindsHunks(x, f.hunks)
  }

  /** What is entered for any patch whose headers are found, bodies cut short and files misnamed included. */
  lemma {:induction false} PatchIsReadAs(x: Syntax, files: seq<FilePatch>, current: Option<string>)
    requires FindsPatch(x, files)
    ensures Entries(x, PatchLines(files), current) == PatchRead(x, files)
    ensures PatchLines(files) == [] || x.ends(PatchLines(files)[0])
  {
    if files != [] {
      assert files[0] in files && forall f <- files[1..] :: f in files;
      PatchIsReadAs(x, files[1..], AllRenamed(x, files[0].hunks, files[0].path));
      FileIsRead(x, files[0], PatchLines(files[1..]), current);
    }
  }

  // ---- When a whole diff is read right ------------------------------------------------------------------

  /**
   What is entered for a hunk is right: no removed line is lost, or the one that is lost is its only one and its first
   old line, which is what is entered when none is found.
   */
  predicate EntersRight(h: Hunk) {
    LosesNothing(h.body) || (Minuses(Intact(h.body)) == 0 && Removals(h.body, h.before.start) == [h.before.start])
  }

  lemma RemovalsPrefix(body: seq<BodyLine>, at: nat)
    ensures Removals(body, at) == [] ==> Removals(Intact(body), at) == []
  {
    var intact, lost := Intact(body), body[|Intact(body)|..];
    assert body == intact + lost;
    RemovalsSplit(intact, lost, at);
  }

  lemma EntryIsRightIff(h: Hunk, path: string)
    ensures HunkRead(h, Some(path)) == [Touches(path, h)] <==> EntersRight(h)
  {
    AllRemovedIff(h.body, h.before.start);
    RemovalsPrefix(h.body, h.before.start);
  }

  /** Every hunk is entered right, and none but the last leaves another file current. */
  predicate HunksRight(x: Syntax, path: string, hunks: seq<Hunk>) {
    hunks == []
    || (EntersRight(hunks[0]) && (|hunks| == 1 || Renamed(x, hunks[0].body, Some(path)) == Some(path))
        && HunksRight(x, path, hunks[1..]))
  }

  lemma {:induction false} FewerAreRead(x: Syntax, hunks: seq<Hunk>, current: Option<string>, path: string)
    ensures |HunksRead(x, hunks, current)| <= |hunks| == |HunksTouch(path, hunks)|
  {
    if hunks != [] {
      FewerAreRead(x, hunks[1..], Renamed(x, hunks[0].body, current), path);
    }
  }

  /** Concatenations agree part by part if no part of the one is longer than its counterpart. */
  lemma PartsAgree<T>(a: seq<T>, b: seq<T>, c: seq<T>, d: seq<T>)
    requires |a| <= |c| && |b| <= |d|
    ensures a + b == c + d <==> a == c && b == d
  {
    if a + b == c + d {
      assert |a| == |c|;
      assert a == (a + b)[..|a|] && c == (c + d)[..|a|] && b == (a + b)[|a|..] && d == (c + d)[|a|..];
    }
  }

  lemma {:induction false} OtherIsWrong(x: Syntax, hunks: seq<Hunk>, current: Option<string>, path: string)
    requires hunks != [] && current != Some(path)
    ensures HunksRead(x, hunks, current) != HunksTouch(path, hunks)
  {
    FewerAreRead(x, hunks[1..], Renamed(x, hunks[0].body, current), path);
    if current.Some? {
      assert HunksRead(x, hunks, current)[0].path == current.value && HunksTouch(path, hunks)[0].path == path;
    }
  }

  lemma {:induction false} HunksAreRightIff(x: Syntax, path: string, hunks: seq<Hunk>)
    ensures HunksRead(x, hunks, Some(path)) == HunksTouch(path, hunks) <==> HunksRight(x, path, hunks)
  {
    if hunks != [] {
      var next := Renamed(x, hunks[0].body, Some(path));
      EntryIsRightIff(hunks[0], path);
      FewerAreRead(x, hunks[1..], next, path);
      PartsAgree(HunkRead(hunks[0], Some(path)), HunksRead(x, hunks[1..], next), [Touches(path, hunks[0])],
                 HunksTouch(path, hunks[1..]));
      if next == Some(path) || |hunks| == 1 {
        HunksAreRightIff(x, path, hunks[1..]);
      } else {
        OtherIsWrong(x, hunks[1..], next, path);
      }
    }
  }

  /** A new file has no old lines to remove. */
  ghost predicate OnlyAdds(f: FilePatch) {
    f.path.None? ==> forall h <- f.hunks, l <- h.body :: !l.Minus?
  }

  ghost predicate FileRight(x: Syntax, f: FilePatch) {
    f.path.Some? ==> HunksRight(x, f.path.value, f.hunks)
  }

  lemma {:induction false} NewFileEntersNothing(x: Syntax, hunks: seq<Hunk>)
    requires forall h <- hunks :: PlusIsNoHeader(x, h) && forall l <- h.body :: !l.Minus?
    ensures HunksRead(x, hunks, None) == []
  {
    if hunks != [] {
      assert hunks[0] in hunks && forall h <- hunks[1..] :: h in hunks;
      RenamesNothing(x, hunks[0].body, None);
      NewFileEntersNothing(x, hunks[1..]);
    }
  }

  lemma FileIsRightIff(x: Syntax, f: FilePatch)
    requires OnlyAdds(f) && forall h <- f.hunks :: PlusIsNoHeader(x, h)
    ensures HunksRead(x, f.hunks, f.path) == FileTouches(f) <==> FileRight(x, f)
    ensures |HunksRead(x, f.hunks, f.path)| <= |FileTouches(f)|
  {
    if f.path.Some? {
      HunksAreRightIff(x, f.path.value, f.hunks);
      FewerAreRead(x, f.hunks, f.path, f.path.value);
    } else {
      NewFileEntersNothing(x, f.hunks);
    }
  }

  ghost predicate PlusIsNoHeaderIn(x: Syntax, files: seq<FilePatch>) {
    forall f <- files, h <- f.hunks :: PlusIsNoHeader(x, h)
  }

  lemma {:induction false} PatchIsRightIff(x: Syntax, files: seq<FilePatch>)
    requires PlusIsNoHeaderIn(x, files) && forall f <- files :: OnlyAdds(f)
    ensures PatchRead(x, files) == PatchTouches(files) <==> forall f <- files :: FileRight(x, f)
    ensures |PatchRead(x, files)| <= |PatchTouches(files)|
  {
    if files != [] {
      assert files[0] in files && forall f <- files[1..] :: f in files;
      PatchIsRightIff(x, files[1..]);
      FileIsRightIff(x, files[0]);
      PartsAgree(HunksRead(x, files[0].hunks, files[0].path), PatchRead(x, files[1..]), FileTouches(files[0]),
                 PatchTouches(files[1..]));
      assert forall f <- files :: f == files[0] || f in files[1..];
    }
  }

  lemma {:induction false} ReadableIsRight(x: Syntax, hunks: seq<Hunk>, path: Option<string>)
    requires ReadsHunks(x, hunks)
    ensures HunksRead(x, hunks, path) == if path.Some? then HunksTouch(path.value, hunks) else []
  {
    if hunks != [] {
      var h := hunks[0];
      assert h in hunks && forall g <- hunks[1..] :: g in hunks;
      assert forall l <- h.body[|Intact(h.body)|..] :: l in h.body;
      IntactRenamesNothing(x, h.body, path);
      RenamesNothing(x, h.body[|Intact(h.body)|..], path);
      if path.Some? {
        EntryIsRightIff(h, path.value);
      }
      ReadableIsRight(x, hunks[1..], path);
    }
  }

  ghost predicate ReadsPatch(x: Syntax, files: seq<FilePatch>) {
    forall f <- files :: ReadsFile(x, f)
  }

  lemma {:induction false} ReadablePatchIsRight(x: Syntax, files: seq<FilePatch>)
    requires ReadsPatch(x, files)
    ensures PatchRead(x, files) == PatchTouches(files)
  {
    if files != [] {
      assert files[0] in files && forall f <- files[1..] :: f in files;
      ReadableIsRight(x, files[0].hunks, files[0].path);
      ReadablePatchIsRight(x, files[1..]);
    }
  }

  lemma PatchIsRead(x: Syntax, files: seq<FilePatch>, current: Option<string>)
    requires ReadsPatch(x, files)
    ensures Entries(x, PatchLines(files), current) == PatchTouches(files)
    ensures PatchLines(files) == [] || x.ends(PatchLines(files)[0])
  {
    PatchIsReadAs(x, files, current);
    ReadablePatchIsRight(x, files);
  }

  // ---- Unified diffs ------------------------------------------------------------------------------------

  /** A path that survives being written into a header and stripped again. */
  predicate PlainPath(space: char -> bool, p: string) {
    '\\' !in p && (p == "" || !space(p[|p| - 1]))
  }

  ghost predicate WellHeaded(space: char -> bool, f: FilePatch) {
    && (f.preamble != [] ==> "diff " <= f.preamble[0])
    && (forall line <- f.preamble :: IsOther(Unified(space), line))
    && (f.path.Some? ==> PlainPath(space, f.path.value))
  }

  /** A diff as it is written, whatever its lines say: removed and added lines may look like headers. */
  ghost predicate Written(space: char -> bool, files: seq<FilePatch>) {
    && !space('a') && !space('/') && !space('l')
    && forall f <- files :: WellHeaded(space, f) && OnlyAdds(f) && forall h <- f.hunks :: WellPlaced(h.body)
  }

  /**
   A diff the parser can be expected to read: preambles start with `diff` and hold no headers, paths are plain,
   and no hunk loses a removed line.
   */
  ghost predicate WellFormedFile(space: char -> bool, f: FilePatch) {
    WellHeaded(space, f) && forall h <- f.hunks :: WellPlaced(h.body) && LosesNothing(h.body)
  }

  ghost predicate WellFormed(space: char -> bool, files: seq<FilePatch>) {
    !space('a') && !space('/') && !space('l') && forall f <- files :: WellFormedFile(space, f)
  }

  lemma {:induction false} NoBackslashes(s: string)
    requires '\\' !in s
    ensures Slashes(s) == s
  {
    if s != "" {
      NoBackslashes(s[1..]);
    }
  }

  lemma NotTrimmed(space: char -> bool, raw: string)
    requires raw != "" && !space(raw[0]) && !space(raw[|raw| - 1])
    ensures TrimRight(space, TrimLeft(space, raw)) == raw
  {
  }

  lemma HeaderText(prefix: string, raw: string)
    requires |prefix| == 4 && prefix == "--- "
    ensures (prefix + raw)[4..] == raw && IsFileHeader(prefix + raw) && EndsBody(prefix + raw)
  {
  }

  lemma NamedPathIsRead(space: char -> bool, p: string)
    requires !space('a') && !space('/') && PlainPath(space, p)
    ensures OldPath(space, "--- " + ("a/" + p)) == Some(p)
  {
    var raw := "a/" + p;
    HeaderText("--- ", raw);
    assert raw[0] == 'a' && raw[1] == '/' && raw[2..] == p;
    assert raw[|raw| - 1] == if p == "" then '/' else p[|p| - 1];
    NotTrimmed(space, raw);
    NoBackslashes(p);
    assert "/dev/null"[0] == '/';
  }

  lemma OldPathIsRead(space: char -> bool, path: Option<string>)
    requires !space('a') && !space('/') && !space('l') && (path.Some? ==> PlainPath(space, path.value))
    ensures IsFileHeader(OldFile(path)) && EndsBody(OldFile(path)) && OldPath(space, OldFile(path)) == path
  {
    if path.Some? {
      HeaderText("--- ", "a/" + path.value);
      NamedPathIsRead(space, path.value);
    } else {
      HeaderText("--- ", "/dev/null");
      assert "--- " + "/dev/null" == "--- /dev/null";
      NotTrimmed(space, "/dev/null");
    }
  }

  lemma NewFileIsOther(space: char -> bool, f: FilePatch)
    ensures IsOther(Unified(space), NewFile(f))
  {
    PlusLine("++ " + f.newFile);
    assert NewFile(f) == "+" + ("++ " + f.newFile);
  }

  lemma UnifiedFindsHunk(space: char -> bool, h: Hunk)
    requires WellPlaced(h.body)
    ensures FindsHunk(Unified(space), h) && PlusIsNoHeader(Unified(space), h)
  {
    HeaderIsRead(h);
    forall l | l in h.body ensures ReadsLine(Unified(space), l) && (!l.Minus? ==> !Unified(space).file(Line(l))) {
      LineIsRead(space, l);
    }
  }

  lemma UnifiedFindsFile(space: char -> bool, f: FilePatch)
    requires !space('a') && !space('/') && !space('l') && WellHeaded(space, f)
    ensures FindsFile(Unified(space), f)
  {
    OldPathIsRead(space, f.path);
    NewFileIsOther(space, f);
  }

  lemma UnifiedReads(space: char -> bool, files: seq<FilePatch>)
    requires WellFormed(space, files)
    ensures ReadsPatch(Unified(space), files)
  {
    forall f | f in files ensures ReadsFile(Unified(space), f) {
      UnifiedFindsFile(space, f);
      forall h | h in f.hunks ensures FindsHunk(Unified(space), h) && PlusIsNoHeader(Unified(space), h) {
        UnifiedFindsHunk(space, h);
      }
    }
  }

  lemma UnifiedFinds(space: char -> bool, files: seq<FilePatch>)
    requires Written(space, files)
    ensures FindsPatch(Unified(space), files) && PlusIsNoHeaderIn(Unified(space), files)
  {
    forall f | f in files ensures FindsFile(Unified(space), f) && FindsHunks(Unified(space), f.hunks) {
      UnifiedFindsFile(space, f);
      forall h | h in f.hunks ensures FindsHunk(Unified(space), h) {
        UnifiedFindsHunk(space, h);
      }
    }
    forall f, h | f in files && h in f.hunks ensures PlusIsNoHeader(Unified(space), h) {
      UnifiedFindsHunk(space, h);
    }
  }

  /**
   Exactly when a whole diff is read right: every hunk of a file that was there before is entered right, and none but
   the last holds a removed line that passes for the header of another file.
   */
  lemma UnifiedPatchReadIff(space: char -> bool, files: seq<FilePatch>)
    requires Written(space, files)
    ensures Entries(Unified(space), PatchLines(files), None) == PatchTouches(files)
      <==> forall f <- files :: FileRight(Unified(space), f)
  {
    UnifiedFinds(space, files);
    PatchIsReadAs(Unified(space), files, None);
    PatchIsRightIff(Unified(space), files);
  }

  lemma FirstRenames(space: char -> bool, q: string, h: Hunk, text: string, path: string)
    requires h.body == [Minus(text), Minus("-- " + ("a/" + q))] && !Collides(Minus(text))
    requires OldPath(space, "--- " + ("a/" + q)) == Some(q)
    ensures Renamed(Unified(space), h.body, Some(path)) == Some(q) && !EntersRight(h)
    ensures HunkRead(h, Some(path)) == [Entry(path, [h.before.start])]
  {
    var kept, lost := Minus(text), Minus("-- " + ("a/" + q));
    var line := "--- " + ("a/" + q);
    HeaderText("--- ", "a/" + q);
    assert Line(lost) == line;
    assert Collides(lost);
    assert h.body[1..] == [lost] && [lost][1..] == [];
    MinusLine(text);
    assert !IsFileHeader(Line(kept));
    assert Renamed(Unified(space), [lost], Some(path)) == Some(q);
    assert Intact([lost]) == [] && Intact(h.body) == [kept];
    assert h.body[1] in h.body[1..];
    assert Removals([kept], h.before.start) == [h.before.start] by {
      assert [kept][1..] == [];
    }
    assert Minuses([kept]) == 1;
  }

  lemma TwoHunksRead(x: Syntax, f: FilePatch, first: Hunk, second: Hunk, path: string, q: string)
    requires f.hunks == [first, second] && f.path == Some(path) && Renamed(x, first.body, Some(path)) == Some(q)
    ensures PatchRead(x, [f]) == HunkRead(first, Some(path)) + HunkRead(second, Some(q))
  {
    assert f.hunks[1..] == [second] && [second][1..] == [] && [f][1..] == [];
    assert HunksRead(x, [], Renamed(x, second.body, Some(q))) == [];
    assert HunksRead(x, [second], Some(q)) == HunkRead(second, Some(q));
  }

  lemma OnePatchIsWritten(space: char -> bool, f: FilePatch, first: Hunk, second: Hunk, path: string)
    requires !space('a') && !space('/') && !space('l') && PlainPath(space, path)
    requires f.preamble == [] && f.path == Some(path) && f.hunks == [first, second]
    requires WellPlaced(first.body) && WellPlaced(second.body)
    ensures Written(space, [f])
  {
  }

  lemma MinusesAreWellPlaced(a: string, b: string)
    ensures WellPlaced([Minus(a), Minus(b)])
  {
    assert [Minus(a), Minus(b)][1..] == [Minus(b)] && [Minus(b)][1..] == [];
  }

  /**
   A removed line `-- a/q` ends its hunk and passes for the header of `q`: it is lost,
     and what comes after it is entered
   for `q` instead.
   */
  lemma RemovedLineRenames(space: char -> bool, path: string, q: string, first: Hunk, text: string, second: Hunk,
                           f: FilePatch)
    requires !space('a') && !space('/') && !space('l') && PlainPath(space, path) && PlainPath(space, q)
    requires first.body == [Minus(text), Minus("-- " + ("a/" + q))] && !Collides(Minus(text))
    requires WellPlaced(second.body) && LosesNothing(second.body)
    requires f.preamble == [] && f.path == Some(path) && f.hunks == [first, second]
    ensures var entries := Entries(Unified(space), PatchLines([f]), None);
      && entries == [Entry(path, [first.before.start]), Touches(q, second)]
      && Written(space, [f]) && entries != PatchTouches([f])
  {
    MinusesAreWellPlaced(text, "-- " + ("a/" + q));
    OnePatchIsWritten(space, f, first, second, path);
    UnifiedFinds(space, [f]);
    PatchIsReadAs(Unified(space), [f], None);
    NamedPathIsRead(space, q);
    FirstRenames(space, q, first, text, path);
    EntryIsRightIff(second, q);
    TwoHunksRead(Unified(space), f, first, second, path, q);
    PatchIsRightIff(Unified(space), [f]);
    FirstIsWrong(Unified(space), f, first);
  }

  lemma FirstIsWrong(x: Syntax, f: FilePatch, first: Hunk)
    requires f.path.Some? && f.hunks != [] && f.hunks[0] == first && !EntersRight(first)
    ensures !(forall g <- [f] :: FileRight(x, g))
  {
    assert f in [f] && !FileRight(x, f);
  }

  /** Round trip: reading a written diff enters exactly what the diff touches. */
  lemma RoundTrip(space: char -> bool, files: seq<FilePatch>)
    requires WellFormed(space, files)
    ensures Entries(Unified(space), PatchLines(files), None) == PatchTouches(files)
  {
    UnifiedReads(space, files);
    PatchIsRead(Unified(space), files, None);
  }

  /** The exact condition for one hunk of a unified diff. */
  lemma UnifiedHunkReadIff(space: char -> bool, body: seq<BodyLine>, rest: seq<string>, at: nat)
    requires WellPlaced(body) && (rest == [] || EndsBody(rest[0]))
    ensures var lines := Lines(body) + rest;
      Removed(lines[..BodyLength(Unified(space), lines)], at) == Removals(body, at) <==> LosesNothing(body)
  {
    forall l | l in body ensures ReadsLine(Unified(space), l) {
      LineIsRead(space, l);
    }
    HunkReadIff(Unified(space), body, rest, at);
  }

  /**
   The ranges the parser reports for a written diff: in order, separated, and covering exactly the old lines the
   diff removes from that file, or the start of a hunk that only inserts.
   */
  method RangesOfPatch(space: char -> bool, files: seq<FilePatch>) returns (ranges: map<string, seq<Range>>)
    requires WellFormed(space, files)
    ensures forall p :: p in ranges <==> Mentioned(PatchTouches(files), p)
    ensures forall p :: p in ranges ==> Separated(ranges[p])
    ensures forall p, n: nat :: p in ranges ==> (Covers(ranges[p], n) <==> n in NumbersOf(PatchTouches(files), p))
  {
    RoundTrip(space, files);
    ranges := ParseOldSideRanges(space, PatchLines(files));
  }
}
