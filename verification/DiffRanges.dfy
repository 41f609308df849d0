/**
 Which lines of the old files a unified diff touches: the parser, and the diffs it is meant to read.
 */
module DiffRanges {
  import opened Decimals
  import opened Wrappers

  // ---- Hunk headers ---------------------------------------------------------------------------------

  /** How many digits a text starts with. */
  function Digits(s: string): (n: nat)
    ensures n <= |s|
  {
    if s == "" || !IsDigit(s[0]) then 0 else 1 + Digits(s[1..])
  }

  function DigitValue(x: char): nat
    requires IsDigit(x)
  {
    x as int - '0' as int
  }

  function ValueOf(digits: string): nat
    requires forall x <- digits :: IsDigit(x)
  {
    if digits == "" then 0
    else
      assert digits[|digits| - 1] in digits;
      ValueOf(digits[..|digits| - 1]) * 10 + DigitValue(digits[|digits| - 1])
  }

  lemma {:induction false} DigitsAreDigits(s: string)
    ensures forall x <- s[..Digits(s)] :: IsDigit(x)
  {
    if s != "" && IsDigit(s[0]) {
      DigitsAreDigits(s[1..]);
      assert s[..Digits(s)] == [s[0]] + s[1..][..Digits(s[1..])];
    }
  }

  datatype Field = Field(value: nat, rest: string)

  /** A line number and, if there is one, a line count. */
  function ReadField(s: string): Option<Field> {
    var n := Digits(s);
    if n == 0 then None
    else
      DigitsAreDigits(s);
      var rest := s[n..];
      Some(Field(ValueOf(s[..n]), if rest != "" && rest[0] == ',' && Digits(rest[1..]) > 0
        then rest[1..][Digits(rest[1..])..] else rest))
  }

  /** The old-side start line of a hunk header. */
  function HunkStart(line: string): Option<nat> {
    if !("@@ -" <= line) then None
    else
      var before := ReadField(line[4..]);
      if before.None? || !(" +" <= before.value.rest) then None
      else
        var after := ReadField(before.value.rest[2..]);
        if after.None? || !(" @@" <= after.value.rest) then None else Some(before.value.value)
  }

  // ---- The parser -----------------------------------------------------------------------------------

  function TrimLeft(space: char -> bool, s: string): string {
    if s != "" && space(s[0]) then TrimLeft(space, s[1..]) else s
  }

  function TrimRight(space: char -> bool, s: string): string {
    if s != "" && space(s[|s| - 1]) then TrimRight(space, s[..|s| - 1]) else s
  }

  function Slashes(s: string): string {
    if s == "" then "" else [if s[0] == '\\' then '/' else s[0]] + Slashes(s[1..])
  }

  /** The file an old-file header names, none for `/dev/null`. */
  function OldPath(space: char -> bool, line: string): Option<string> {
    var raw := TrimRight(space, TrimLeft(space, if |line| >= 4 then line[4..] else ""));
    if raw == "/dev/null" then None else Some(Slashes(if "a/" <= raw then raw[2..] else raw))
  }

  /** A line that ends the body of a hunk. */
  predicate EndsBody(line: string) {
    "@@" <= line || "--- " <= line || "+++ " <= line || "diff " <= line
  }

  predicate IsRemoved(line: string) {
    line != "" && line[0] == '-'
  }

  predicate IsAdded(line: string) {
    line != "" && line[0] == '+'
  }

  /**
   How lines are told apart: old-file headers and the file they name, hunk headers and where they start, ends of
   bodies.
   */
  datatype Syntax = Syntax(file: string -> bool, name: string -> Option<string>, start: string -> Option<nat>,
                           ends: string -> bool)

  predicate IsFileHeader(line: string) {
    "--- " <= line
  }

  /** The syntax of unified diffs. */
  function Unified(space: char -> bool): Syntax {
    Syntax(line => IsFileHeader(line), line => OldPath(space, line), line => HunkStart(line), line => EndsBody(line))
  }

  /** The old-side lines a hunk body removes, counting from `at`. */
  function Removed(body: seq<string>, at: nat): seq<nat> {
    if body == [] then []
    else if IsRemoved(body[0]) then [at] + Removed(body[1..], at + 1)
    else if IsAdded(body[0]) then Removed(body[1..], at)
    else Removed(body[1..], at + 1)
  }

  /** How many lines belong to the body that starts here. */
  function BodyLength(x: Syntax, lines: seq<string>): (n: nat)
    ensures n <= |lines|
  {
    if lines == [] || x.ends(lines[0]) then 0 else 1 + BodyLength(x, lines[1..])
  }

  /** What one hunk contributes to its file: the lines it removes, or for a pure insertion the line it starts at. */
  datatype Entry = Entry(path: string, numbers: seq<nat>)

  function EntryFor(path: string, start: nat, removed: seq<nat>): Entry {
    Entry(path, if removed == [] then [start] else removed)
  }

  function Entries(x: Syntax, lines: seq<string>, current: Option<string>): seq<Entry>
    decreases |lines|
  {
    if lines == [] then []
    else if x.file(lines[0]) then Entries(x, lines[1..], x.name(lines[0]))
    else if x.start(lines[0]).Some? && current.Some? then
      var start := x.start(lines[0]).value;
      var n := BodyLength(x, lines[1..]);
      [EntryFor(current.value, start, Removed(lines[1..][..n], start))] + Entries(x, lines[1..][n..], current)
    else Entries(x, lines[1..], current)
  }

  /** Walks a hunk body, collecting removed lines. */
  method ScanBody(x: Syntax, lines: seq<string>, start: nat) returns (removed: seq<nat>, n: nat)
    ensures n == BodyLength(x, lines) && removed == Removed(lines[..n], start)
  {
    removed, n := [], 0;
    var at := start;
    assert lines[0..] == lines;
    while n < |lines| && !x.ends(lines[n])
      invariant 0 <= n <= |lines| && BodyLength(x, lines) == n + BodyLength(x, lines[n..])
      invariant removed == Removed(lines[..n], start) && at == Cursor(lines[..n], start)
    {
      RemovedNext(lines[..n], lines[n], start);
      assert lines[..n + 1] == lines[..n] + [lines[n]];
      assert lines[n..][1..] == lines[n + 1..];
      if IsRemoved(lines[n]) {
        removed := removed + [at];
        at := at + 1;
      } else if !IsAdded(lines[n]) {
        at := at + 1;
      }
      n := n + 1;
    }
  }

  /** The old-side line after a body. */
  function Cursor(body: seq<string>, at: nat): nat {
    if body == [] then at else Cursor(body[1..], if IsAdded(body[0]) then at else at + 1)
  }

  lemma {:induction false} RemovedNext(body: seq<string>, line: string, at: nat)
    ensures Cursor(body + [line], at) == if IsAdded(line) then Cursor(body, at) else Cursor(body, at) + 1
    ensures Removed(body + [line], at) == Removed(body, at) + if IsRemoved(line) then [Cursor(body, at)] else []
  {
    if body == [] {
      assert body + [line] == [line];
      assert Removed([line][1..], at) == [] && Removed([line][1..], at + 1) == [];
    } else {
      assert (body + [line])[1..] == body[1..] + [line] && (body + [line])[0] == body[0];
      var next := if IsAdded(body[0]) then at else at + 1;
      RemovedNext(body[1..], line, next);
      if IsRemoved(body[0]) {
        assert [at] + (Removed(body[1..], next) + if IsRemoved(line) then [Cursor(body[1..], next)] else [])
            == ([at] + Removed(body[1..], next)) + if IsRemoved(line) then [Cursor(body[1..], next)] else [];
      }
    }
  }

  /** Everything entered for a path, in order. */
  function NumbersOf(entries: seq<Entry>, path: string): seq<nat> {
    if entries == [] then []
    else
      (if entries[0].path == path then entries[0].numbers else [])
      + NumbersOf(entries[1..], path)
  }

  // ---- Merging --------------------------------------------------------------------------------------

  datatype Range = Range(lo: nat, hi: nat)

  ghost predicate Covers(ranges: seq<Range>, n: nat) {
    exists r <- ranges :: r.lo <= n <= r.hi
  }

  /** Ranges in order, none empty, with at least one line between any two. */
  ghost predicate Separated(ranges: seq<Range>) {
    && (forall r <- ranges :: r.lo <= r.hi)
    && forall i, j :: 0 <= i < j < |ranges| ==> ranges[i].hi + 1 < ranges[j].lo
  }

  /** Distinct numbers in ascending order. */
  method Sorted(numbers: seq<nat>) returns (ordered: seq<nat>)
    ensures forall i, j :: 0 <= i < j < |ordered| ==> ordered[i] < ordered[j]
    ensures forall n :: n in ordered <==> n in numbers
  {
    var rest := set n | n in numbers;
    ordered := [];
    while rest != {}
      invariant forall n :: n in rest ==> n in numbers
      invariant forall n :: n in ordered || n in rest <==> n in numbers
      invariant forall n <- ordered, m :: m in rest ==> n < m
      invariant forall i, j :: 0 <= i < j < |ordered| ==> ordered[i] < ordered[j]
      decreases rest
    {
      var m := Least(rest);
      forall i | 0 <= i < |ordered| ensures ordered[i] < m {
        assert ordered[i] in ordered && m in rest;
      }
      ordered := ordered + [m];
      rest := rest - {m};
    }
  }

  method Least(numbers: set<nat>) returns (least: nat)
    requires numbers != {}
    ensures least in numbers && forall n :: n in numbers ==> least <= n
  {
    least :| least in numbers;
    var rest := numbers - {least};
    while rest != {}
      invariant rest <= numbers && least in numbers
      invariant forall n :: n in numbers && n !in rest ==> least <= n
      decreases rest
    {
      var n :| n in rest;
      rest := rest - {n};
      if n < least {
        least := n;
      }
    }
  }

  method MergeContiguous(numbers: seq<nat>) returns (ranges: seq<Range>)
    ensures Separated(ranges)
    ensures forall n: nat :: Covers(ranges, n) <==> n in numbers
  {
    if numbers == [] {
      return [];
    }
    var ordered := Sorted(numbers);
    assert numbers[0] in ordered;
    ranges := [];
    var lo: nat, prev: nat := ordered[0], ordered[0];
    var i := 1;
    while i < |ordered|
      invariant 1 <= i <= |ordered| && lo <= prev == ordered[i - 1]
      invariant Separated(ranges) && (forall r <- ranges :: r.hi + 1 < lo)
      invariant forall n: nat :: Covers(ranges, n) || lo <= n <= prev <==> n in ordered[..i]
    {
      var n := ordered[i];
      assert ordered[..i + 1] == ordered[..i] + [n];
      if n != prev + 1 {
        CoversOneMore(ranges, Range(lo, prev));
        ranges := ranges + [Range(lo, prev)];
        lo := n;
      }
      prev := n;
      i := i + 1;
    }
    assert ordered[..i] == ordered;
    CoversOneMore(ranges, Range(lo, prev));
    ranges := ranges + [Range(lo, prev)];
  }

  lemma CoversOneMore(ranges: seq<Range>, r: Range)
    ensures forall n: nat :: Covers(ranges + [r], n) <==> Covers(ranges, n) || r.lo <= n <= r.hi
  {
    forall n: nat ensures Covers(ranges + [r], n) <==> Covers(ranges, n) || r.lo <= n <= r.hi {
      assert r in ranges + [r];
      assert forall q :: q in ranges + [r] <==> q in ranges || q == r;
    }
  }

  // ---- The whole parser -----------------------------------------------------------------------------

  ghost predicate Mentioned(entries: seq<Entry>, path: string) {
    exists e <- entries :: e.path == path
  }

  ghost predicate Collected(perFile: map<string, seq<nat>>, entries: seq<Entry>) {
    && (forall p :: p in perFile <==> Mentioned(entries, p))
    && forall p :: p in perFile ==> perFile[p] == NumbersOf(entries, p)
  }

  lemma {:induction false} NumbersOneMore(entries: seq<Entry>, e: Entry, path: string)
    ensures NumbersOf(entries + [e], path) == NumbersOf(entries, path) + if e.path == path then e.numbers else []
    ensures !Mentioned(entries, path) ==> NumbersOf(entries, path) == []
  {
    if entries == [] {
      assert entries + [e] == [e];
      assert NumbersOf([e][1..], path) == [];
    } else {
      assert (entries + [e])[1..] == entries[1..] + [e] && (entries + [e])[0] == entries[0];
      NumbersOneMore(entries[1..], e, path);
      assert Mentioned(entries, path) <== Mentioned(entries[1..], path);
      assert entries[0] in entries;
      Regroup(
        if entries[0].path == path then entries[0].numbers else [], NumbersOf(entries[1..], path),
        if e.path == path then e.numbers else []);
    }
  }

  lemma CollectedOneMore(perFile: map<string, seq<nat>>, entries: seq<Entry>, e: Entry)
    requires Collected(perFile, entries)
    ensures Collected(perFile[e.path := (if e.path in perFile then perFile[e.path] else []) + e.numbers], entries + [e])
  {
    forall p ensures Mentioned(entries + [e], p) <==> Mentioned(entries, p) || p == e.path {
      assert e in entries + [e];
      assert forall q :: q in entries + [e] <==> q in entries || q == e;
    }
    forall p ensures NumbersOf(entries + [e], p) == NumbersOf(entries, p) + (if e.path == p then e.numbers else [])
                  && (!Mentioned(entries, p) ==> NumbersOf(entries, p) == []) {
      NumbersOneMore(entries, e, p);
    }
  }

  /** What is entered so far, and what the remaining lines still enter, is what the whole diff enters. */
  ghost predicate Reading(x: Syntax, lines: seq<string>, i: nat, current: Option<string>, entered: seq<Entry>) {
    i <= |lines| && Entries(x, lines, None) == entered + Entries(x, lines[i..], current)
  }

  lemma ReadName(x: Syntax, lines: seq<string>, i: nat, current: Option<string>, entered: seq<Entry>)
    requires Reading(x, lines, i, current, entered) && i < |lines| && x.file(lines[i])
    ensures Reading(x, lines, i + 1, x.name(lines[i]), entered)
  {
    assert lines[i..][1..] == lines[i + 1..];
  }

  lemma ReadHunk(x: Syntax, lines: seq<string>, i: nat, path: string, start: nat, n: nat, entered: seq<Entry>)
    requires Reading(x, lines, i, Some(path), entered) && i < |lines|
    requires !x.file(lines[i]) && x.start(lines[i]) == Some(start) && n == BodyLength(x, lines[i + 1..])
    ensures var e := EntryFor(path, start, Removed(lines[i + 1..][..n], start));
      Reading(x, lines, i + 1 + n, Some(path), entered + [e])
  {
    var e := EntryFor(path, start, Removed(lines[i + 1..][..n], start));
    assert lines[i..][1..] == lines[i + 1..] && lines[i + 1..][n..] == lines[i + 1 + n..];
    Regroup(entered, [e], Entries(x, lines[i + 1 + n..], Some(path)));
  }

  lemma ReadOther(x: Syntax, lines: seq<string>, i: nat, current: Option<string>, entered: seq<Entry>)
    requires Reading(x, lines, i, current, entered) && i < |lines|
    requires !x.file(lines[i]) && (x.start(lines[i]).None? || current.None?)
    ensures Reading(x, lines, i + 1, current, entered)
  {
    assert lines[i..][1..] == lines[i + 1..];
  }

  lemma ReadAll(x: Syntax, lines: seq<string>, i: nat, current: Option<string>, entered: seq<Entry>)
    requires Reading(x, lines, i, current, entered) && i == |lines|
    ensures entered == Entries(x, lines, None)
  {
    assert lines[i..] == [] && entered + [] == entered;
  }

  /** Enters one hunk for its file, and skips its body. */
  method EnterHunk(x: Syntax, lines: seq<string>, i: nat, path: string, start: nat, perFile: map<string, seq<nat>>,
                   ghost entered: seq<Entry>)
    returns (next: nat, more: map<string, seq<nat>>, ghost now: seq<Entry>)
    requires Reading(x, lines, i, Some(path), entered) && Collected(perFile, entered) && i < |lines|
    requires !x.file(lines[i]) && x.start(lines[i]) == Some(start)
    ensures i < next && Reading(x, lines, next, Some(path), now) && Collected(more, now)
  {
    var removed, n := ScanBody(x, lines[i + 1..], start);
    var e := EntryFor(path, start, removed);
    ReadHunk(x, lines, i, path, start, n, entered);
    CollectedOneMore(perFile, entered, e);
    next := i + 1 + n;
    more := perFile[path := (if path in perFile then perFile[path] else []) + e.numbers];
    now := entered + [e];
  }

  /** Reads a diff line by line, hunk by hunk, and collects what each file contributes. */
  method Collect(x: Syntax, lines: seq<string>) returns (perFile: map<string, seq<nat>>)
    ensures Collected(perFile, Entries(x, lines, None))
  {
    perFile := map[];
    var current: Option<string> := None;
    var i := 0;
    ghost var entered: seq<Entry> := [];
    assert lines[0..] == lines;
    while i < |lines|
      invariant Reading(x, lines, i, current, entered)
      invariant Collected(perFile, entered)
      decreases |lines| - i
    {
      if x.file(lines[i]) {
        ReadName(x, lines, i, current, entered);
        current := x.name(lines[i]);
        i := i + 1;
        continue;
      }
      var start := x.start(lines[i]);
      if start.Some? && current.Some? {
        i, perFile, entered := EnterHunk(x, lines, i, current.value, start.value, perFile, entered);
        continue;
      }
      ReadOther(x, lines, i, current, entered);
      i := i + 1;
    }
    ReadAll(x, lines, i, current, entered);
  }

  /** The ranges of every file: in order, separated, and covering exactly what was entered for it. */
  method ParseOldSideRanges(space: char -> bool, lines: seq<string>) returns (ranges: map<string, seq<Range>>)
    ensures var entries := Entries(Unified(space), lines, None);
      && (forall p :: p in ranges <==> Mentioned(entries, p))
      && (forall p :: p in ranges ==> Separated(ranges[p]))
      && forall p, n: nat :: p in ranges ==> (Covers(ranges[p], n) <==> n in NumbersOf(entries, p))
  {
    var perFile := Collect(Unified(space), lines);
    ranges := map[];
    var rest := perFile.Keys;
    while rest != {}
      invariant rest <= perFile.Keys && ranges.Keys == perFile.Keys - rest
      invariant forall p :: p in ranges ==> Separated(ranges[p])
      invariant forall p, n: nat :: p in ranges ==> (Covers(ranges[p], n) <==> n in perFile[p])
      decreases rest
    {
      var p :| p in rest;
      rest := rest - {p};
      var merged := MergeContiguous(perFile[p]);
      ranges := ranges[p := merged];
    }
  }

  /** Separated ranges are determined by what they cover. */
  lemma {:induction false} RangesAreUnique(a: seq<Range>, b: seq<Range>)
    requires Separated(a) && Separated(b)
    requires forall n: nat :: Covers(a, n) <==> Covers(b, n)
    ensures a == b
  {
    if a != [] {
      CoversWithin(a, a[0].lo);
    }
    if b != [] {
      CoversWithin(b, b[0].lo);
    }
    if a != [] && b != [] {
      FirstIsLowest(a, b);
      FirstIsLowest(b, a);
      FirstReaches(a, b);
      FirstReaches(b, a);
      forall n: nat ensures Covers(a[1..], n) <==> Covers(b[1..], n) {
        CoversRest(a, n);
        CoversRest(b, n);
      }
      RangesAreUnique(a[1..], b[1..]);
    }
  }

  lemma CoversWithin(a: seq<Range>, n: nat)
    requires Separated(a) && a != [] && (a[0].lo <= n <= a[0].hi || n == a[0].lo)
    ensures Covers(a, n)
  {
    assert a[0] in a;
  }

  lemma CoversRest(a: seq<Range>, n: nat)
    requires Separated(a) && a != []
    ensures Covers(a[1..], n) <==> Covers(a, n) && n > a[0].hi
    ensures Covers(a, n) ==> n >= a[0].lo
    ensures !Covers(a, a[0].hi + 1)
  {
    forall r | r in a[1..] ensures a[0].hi + 1 < r.lo {
      var i :| 0 <= i < |a[1..]| && a[1..][i] == r;
      assert a[i + 1] == r;
    }
    assert a == [a[0]] + a[1..];
  }

  lemma FirstIsLowest(a: seq<Range>, b: seq<Range>)
    requires Separated(a) && Separated(b) && a != [] && b != []
    requires forall n: nat :: Covers(a, n) <==> Covers(b, n)
    ensures a[0].lo <= b[0].lo
  {
    CoversWithin(b, b[0].lo);
    CoversRest(a, b[0].lo);
  }

  lemma FirstReaches(a: seq<Range>, b: seq<Range>)
    requires Separated(a) && Separated(b) && a != [] && b != []
    requires forall n: nat :: Covers(a, n) <==> Covers(b, n)
    requires a[0].lo == b[0].lo
    ensures a[0].hi <= b[0].hi
  {
    CoversRest(b, b[0].lo);
    if b[0].hi < a[0].hi {
      CoversWithin(a, b[0].hi + 1);
    }
  }
}
