/**
 What a consultation depends on: over any append-only history its outcome is decided by the newest eligible row that
 binds exactly the attempted edit.
 */
module GateConsult {
  import opened Decimals
  import opened Wrappers
  import opened Gate
  import HumanReview

  // ---- Selection ------------------------------------------------------------------------------------

  /** `m` is the newest row at `head`, not older than `newerThan`, that covers the targets and binds exactly `b`. */
  ghost predicate NewestExact(rows: seq<Row>, targets: seq<Place>, head: string, newerThan: nat, b: Binding, m: Row) {
    && m in rows
    && Exact(m, targets, head, newerThan, b)
    && forall r <- rows :: Exact(r, targets, head, newerThan, b) ==> r.id <= m.id
  }

  predicate Exact(r: Row, targets: seq<Place>, head: string, newerThan: nat, b: Binding) {
    Eligible(r, targets, head, newerThan) && CandidateBinding(r) == Some(b)
  }

  /** The entry is a file, leads where the target leads, and every file listed before it leads somewhere. */
  ghost predicate Lists(files: seq<ScopeEntry>, i: nat, target: Place) {
    && i < |files| && IsPath(files[i]) && target.Some? && files[i].place == target
    && forall j :: 0 <= j < i && IsPath(files[j]) ==> files[j].place.Some?
  }

  lemma {:induction false} AmongIff(target: Place, files: seq<ScopeEntry>)
    ensures Among(target, PathEntries(files)) <==> exists i: nat :: Lists(files, i, target)
  {
    if files != [] {
      AmongIff(target, files[1..]);
      ListsRest(files, target);
      var rest := PathEntries(files[1..]);
      if IsPath(files[0]) {
        assert ([files[0].place] + rest)[1..] == rest;
      } else {
        assert [] + rest == rest;
      }
    }
  }

  lemma ListsRest(files: seq<ScopeEntry>, target: Place)
    requires files != []
    ensures (exists i: nat :: Lists(files, i, target)) <==>
      Lists(files, 0, target)
      || ((IsPath(files[0]) ==> files[0].place.Some?) && exists i: nat :: Lists(files[1..], i, target))
  {
    if i: nat :| Lists(files, i, target) && i > 0 {
      assert files[1..][i - 1] == files[i];
      assert forall j :: 0 <= j < i - 1 ==> files[1..][j] == files[j + 1];
      assert Lists(files[1..], i - 1, target);
    }
    if i: nat :| Lists(files[1..], i, target) && (IsPath(files[0]) ==> files[0].place.Some?) {
      assert files[i + 1] == files[1..][i];
      forall j | 0 <= j < i + 1 && IsPath(files[j]) ensures files[j].place.Some? {
        assert j > 0 ==> files[1..][j - 1] == files[j];
      }
      assert Lists(files, i + 1, target);
    }
  }

  /**
   A scope covers the targets when it lists each of them as a file; symbols and values that are no text do not count.
   */
  lemma CoversIff(files: seq<ScopeEntry>, targets: seq<Place>)
    ensures Covers(files, targets) <==> forall t <- targets :: exists i: nat :: Lists(files, i, t)
  {
    forall t | t in targets ensures Among(t, PathEntries(files)) <==> exists i: nat :: Lists(files, i, t) {
      AmongIff(t, files);
    }
  }

  lemma {:induction false} PathMatchesAppend(a: seq<Row>, b: seq<Row>, targets: seq<Place>, head: string,
                                             newerThan: nat)
    ensures PathMatches(a + b, targets, head, newerThan)
         == PathMatches(a, targets, head, newerThan) + PathMatches(b, targets, head, newerThan)
  {
    if a == [] {
      assert a + b == b;
    } else {
      assert (a + b)[1..] == a[1..] + b && (a + b)[0] == a[0];
      PathMatchesAppend(a[1..], b, targets, head, newerThan);
      var first := if Eligible(a[0], targets, head, newerThan) then [a[0]] else [];
      Regroup(first, PathMatches(a[1..], targets, head, newerThan), PathMatches(b, targets, head, newerThan));
    }
  }

  lemma {:induction false} FirstExactAppend(a: seq<Row>, b: seq<Row>, attempted: Binding)
    ensures FirstExact(a + b, attempted)
         == if FirstExact(a, attempted).Some? then FirstExact(a, attempted) else FirstExact(b, attempted)
  {
    if a == [] {
      assert a + b == b;
    } else {
      assert (a + b)[1..] == a[1..] + b && (a + b)[0] == a[0];
      FirstExactAppend(a[1..], b, attempted);
    }
  }

  lemma {:induction false} PathMatchesAre(rows: seq<Row>, targets: seq<Place>, head: string, newerThan: nat)
    ensures forall r ::
      r in PathMatches(rows, targets, head, newerThan)
      <==> r in rows && Eligible(r, targets, head, newerThan)
  {
    if rows != [] {
      PathMatchesAre(rows[1..], targets, head, newerThan);
      assert rows == [rows[0]] + rows[1..];
    }
  }

  lemma Prepended(r: Row, rest: seq<Row>)
    requires NewestFirst(rest) && r.id > 0 && forall e <- rest :: r.id > e.id
    ensures NewestFirst([r] + rest)
  {
  }

  lemma {:induction false} PathMatchesOrdered(rows: seq<Row>, targets: seq<Place>, head: string, newerThan: nat)
    requires NewestFirst(rows)
    ensures NewestFirst(PathMatches(rows, targets, head, newerThan))
  {
    if rows != [] {
      var rest := PathMatches(rows[1..], targets, head, newerThan);
      PathMatchesOrdered(rows[1..], targets, head, newerThan);
      PathMatchesAre(rows[1..], targets, head, newerThan);
      forall r | r in rest ensures rows[0].id > r.id {
        assert r in rows[1..];
      }
      Prepended(rows[0], rest);
    }
  }

  lemma {:induction false} FirstExactIs(rows: seq<Row>, b: Binding)
    requires NewestFirst(rows)
    ensures FirstExact(rows, b).None? <==> forall r <- rows :: CandidateBinding(r) != Some(b)
    ensures FirstExact(rows, b).Some? ==>
      var m := FirstExact(rows, b).value;
      m in rows && CandidateBinding(m) == Some(b) && forall r <- rows :: CandidateBinding(r) == Some(b) ==> r.id <= m.id
  {
    if rows != [] && CandidateBinding(rows[0]) != Some(b) {
      FirstExactIs(rows[1..], b);
      assert rows == [rows[0]] + rows[1..];
    }
  }

  lemma MatchedIsEligible(rows: seq<Row>, targets: seq<Place>, head: string, newerThan: nat,
                          attempted: Option<Binding>)
    requires NewestFirst(rows)
    requires MatchedRow(rows, targets, head, newerThan, attempted).Some?
    ensures var m := MatchedRow(rows, targets, head, newerThan, attempted).value;
      m in rows && m.id > 0 && Eligible(m, targets, head, newerThan)
  {
    var m := MatchedRow(rows, targets, head, newerThan, attempted).value;
    var matches := PathMatches(rows, targets, head, newerThan);
    PathMatchesAre(rows, targets, head, newerThan);
    PathMatchesOrdered(rows, targets, head, newerThan);
    if attempted.Some? {
      FirstExactIs(matches, attempted.value);
    }
    assert m in matches;
  }

  /** The row the gate goes by binds exactly the attempted edit just when it is the newest row that does. */
  lemma MatchedIsNewestExact(rows: seq<Row>, targets: seq<Place>, head: string, newerThan: nat, b: Binding, m: Row)
    requires NewestFirst(rows)
    ensures MatchedRow(rows, targets, head, newerThan, Some(b)) == Some(m) && CandidateBinding(m) == Some(b)
       <==> NewestExact(rows, targets, head, newerThan, b, m)
  {
    var matches := PathMatches(rows, targets, head, newerThan);
    PathMatchesAre(rows, targets, head, newerThan);
    PathMatchesOrdered(rows, targets, head, newerThan);
    FirstExactIs(matches, b);
    if NewestExact(rows, targets, head, newerThan, b, m) {
      assert m in matches;
      var f := FirstExact(matches, b).value;
      assert f in rows && Exact(f, targets, head, newerThan, b) && f.id <= m.id;
    }
  }

  // ---- The consulted outcome ------------------------------------------------------------------------

  /** `m` lifts the gate for the edit: the newest exact row, a proceed that waits for nobody. */
  ghost predicate Lifts(rows: seq<Row>, edit: Edit, head: string, newerThan: nat, m: Row) {
    && edit.attempted.Some?
    && NewestExact(rows, edit.targets, head, newerThan, edit.attempted.value, m)
    && m.decision == "proceed"
    && !m.content.confirmation
  }

  function ConsultFor(rows: seq<Row>, edit: Edit, head: string, newerThan: nat, consultOnly: bool): Outcome {
    Consult(rows, edit.targets, head, newerThan, edit.attempted, consultOnly)
  }

  /** A digest-by-digest comparison that passes leaves nothing of the two bindings different. */
  lemma ComparisonIsEquality(attempted: Binding, expected: Binding)
    requires attempted.algorithm == expected.algorithm
    requires attempted.files.Keys == expected.files.Keys
    requires !exists p :: p in attempted.files && expected.files[p] != attempted.files[p]
    ensures attempted == expected
  {
    assert attempted.files == expected.files;
  }

  /** The outcome speaks of a decision on record just when the matched row binds exactly the attempted edit. */
  lemma ConsultOnExact(rows: seq<Row>, edit: Edit, head: string, newerThan: nat, consultOnly: bool)
    requires !Chokes(rows, newerThan)
    ensures
      var m := MatchedRow(rows, edit.targets, head, newerThan, edit.attempted);
      var answer := ConsultFor(rows, edit, head, newerThan, consultOnly);
      if m.Some? && edit.attempted.Some? && CandidateBinding(m.value) == edit.attempted
      then answer == OnExact(m.value, consultOnly)
      else answer.Decided? && answer.gate.permission.ReturnCandidate? && answer.gate.matched.None?
  {
    var m := MatchedRow(rows, edit.targets, head, newerThan, edit.attempted);
    ReasonsAreNotBlank();
    if m.Some? && edit.attempted.Some? && CandidateBinding(m.value).Some? {
      var expected := CandidateBinding(m.value).value;
      var attempted := edit.attempted.value;
      if attempted.algorithm == expected.algorithm && attempted.files.Keys == expected.files.Keys
         && !exists p :: p in attempted.files && expected.files[p] != attempted.files[p] {
        ComparisonIsEquality(attempted, expected);
      }
    }
  }

  lemma {:induction false} DecimalIsWellFormed(n: nat)
    requires n > 0
    ensures |Decimal(n)| > 0 && Decimal(n)[0] in "123456789" && forall i :: 0 <= i < |Decimal(n)| ==>
      Decimal(n)[i] in "0123456789"
  {
    if n >= 10 {
      DecimalIsWellFormed(n / 10);
    }
  }

  lemma IdsAreWellFormed(id: nat)
    requires id > 0
    ensures IsAssessmentId(AssessmentId(id))
  {
    DecimalIsWellFormed(id);
    var s := AssessmentId(id);
    assert s[..4] == "asm_" && s[4] == Decimal(id)[0];
    assert forall i :: 5 <= i < |s| ==> s[i] == Decimal(id)[i - 4];
  }

  lemma ReasonsAreNotBlank()
    ensures !IsBlank("Consult before editing.")
    ensures !IsBlank("Not the assessed candidate.")
    ensures !IsBlank("Apply the candidate atomically.")
    ensures !IsBlank("Reassess the candidate.")
    ensures !IsBlank("The patch could not be parsed.")
    ensures !IsBlank(HELD)
  {
    assert "Consult before editing."[0] == 'C';
    assert "Not the assessed candidate."[0] == 'N';
    assert "Apply the candidate atomically."[0] == 'A';
    assert "Reassess the candidate."[0] == 'R';
    assert "The patch could not be parsed."[0] == 'T';
    assert HELD[0] == 'T';
  }

  lemma HeldIsNotBlank()
    ensures !IsBlank(HELD)
    ensures !IsBlank("Reassess the candidate.")
  {
    assert HELD[0] == 'T';
    assert "Reassess the candidate."[0] == 'R';
  }

  /** A rejection whose gate evidence cannot be read: going by it raises. */
  predicate Faults(r: Row) {
    && r.content.Object? && r.decision == "reject"
    && r.content.fired.Some? && HumanReview.OverrideGate(r.content.fired.value).Raises?
  }

  lemma OnExactTier(r: Row, consultOnly: bool)
    requires r.content.Object? && r.id > 0 && !Faults(r)
    ensures OnExact(r, consultOnly).Decided? && OnExact(r, consultOnly).gate.matched == Some(r.id)
    ensures OnExact(r, consultOnly).gate.permission.Continue? <==> r.decision == "proceed" && !r.content.confirmation
    ensures OnExact(r, consultOnly).gate.permission.Continue? ==> OnExact(r, consultOnly).gate.tier.Consulted?
  {
    HeldIsNotBlank();
    IdsAreWellFormed(r.id);
  }

  lemma OnExactFaults(r: Row, consultOnly: bool)
    requires Faults(r)
    ensures OnExact(r, consultOnly).Errored?
  {
    assert "reject" in KNOWN;
  }

  /** The newest exact row is a rejection whose gate evidence cannot be read. */
  ghost predicate FaultyMatch(rows: seq<Row>, edit: Edit, head: string, newerThan: nat) {
    && edit.attempted.Some?
    && exists m :: NewestExact(rows, edit.targets, head, newerThan, edit.attempted.value, m) && Faults(m)
  }

  /** What the consultation goes by, when it gets that far. */
  lemma ConsultGoesBy(rows: seq<Row>, edit: Edit, head: string, newerThan: nat, consultOnly: bool, m: Row)
    requires NewestFirst(rows) && !Chokes(rows, newerThan) && edit.attempted.Some?
    requires NewestExact(rows, edit.targets, head, newerThan, edit.attempted.value, m)
    ensures m.content.Object? && m.id > 0
    ensures ConsultFor(rows, edit, head, newerThan, consultOnly) == OnExact(m, consultOnly)
  {
    MatchedIsNewestExact(rows, edit.targets, head, newerThan, edit.attempted.value, m);
    ConsultOnExact(rows, edit, head, newerThan, consultOnly);
  }

  /** Without an exact row the edit goes back to its author. */
  lemma ConsultReturns(rows: seq<Row>, edit: Edit, head: string, newerThan: nat, consultOnly: bool)
    requires NewestFirst(rows) && !Chokes(rows, newerThan)
    requires edit.attempted.None?
      || forall m :: !NewestExact(rows, edit.targets, head, newerThan, edit.attempted.value, m)
    ensures var answer := ConsultFor(rows, edit, head, newerThan, consultOnly);
      answer.Decided? && answer.gate.permission.ReturnCandidate? && answer.gate.matched.None?
  {
    var matched := MatchedRow(rows, edit.targets, head, newerThan, edit.attempted);
    ConsultOnExact(rows, edit, head, newerThan, consultOnly);
    if edit.attempted.Some? && matched.Some? && CandidateBinding(matched.value) == edit.attempted {
      MatchedIsNewestExact(rows, edit.targets, head, newerThan, edit.attempted.value, matched.value);
    }
  }

  lemma NewestExactIsUnique(rows: seq<Row>, targets: seq<Place>, head: string, newerThan: nat, b: Binding, m: Row,
                            n: Row)
    requires NewestFirst(rows)
    requires NewestExact(rows, targets, head, newerThan, b, m) && NewestExact(rows, targets, head, newerThan, b, n)
    ensures m == n
  {
    MatchedIsNewestExact(rows, targets, head, newerThan, b, m);
    MatchedIsNewestExact(rows, targets, head, newerThan, b, n);
  }

  /** A consultation decides unless it chokes on content nested too deep or the row it goes by is faulty. */
  lemma ConsultErrsIff(rows: seq<Row>, edit: Edit, head: string, newerThan: nat, consultOnly: bool)
    requires NewestFirst(rows)
    ensures var answer := ConsultFor(rows, edit, head, newerThan, consultOnly);
      !answer.Refused? && (answer.Errored? <==> Chokes(rows, newerThan) || FaultyMatch(rows, edit, head, newerThan))
  {
    if !Chokes(rows, newerThan) {
      if m :| edit.attempted.Some? && NewestExact(rows, edit.targets, head, newerThan, edit.attempted.value, m) {
        ConsultGoesBy(rows, edit, head, newerThan, consultOnly, m);
        if Faults(m) {
          OnExactFaults(m, consultOnly);
        } else {
          OnExactTier(m, consultOnly);
          forall n | NewestExact(rows, edit.targets, head, newerThan, edit.attempted.value, n) ensures !Faults(n) {
            NewestExactIsUnique(rows, edit.targets, head, newerThan, edit.attempted.value, m, n);
          }
        }
      } else {
        ConsultReturns(rows, edit, head, newerThan, consultOnly);
      }
    }
  }

  /**
   A consultation lets the edit go on exactly when it does not choke and some row lifts the gate; then it names that
   row.
   */
  lemma ConsultContinuesIff(rows: seq<Row>, edit: Edit, head: string, newerThan: nat, consultOnly: bool)
    requires NewestFirst(rows)
    ensures Continues(ConsultFor(rows, edit, head, newerThan, consultOnly))
       <==> !Chokes(rows, newerThan) && exists m :: Lifts(rows, edit, head, newerThan, m)
    ensures forall m :: Lifts(rows, edit, head, newerThan, m) && !Chokes(rows, newerThan) ==>
      Clears(ConsultFor(rows, edit, head, newerThan, consultOnly), m.id)
  {
    if !Chokes(rows, newerThan) {
      if m :| edit.attempted.Some? && NewestExact(rows, edit.targets, head, newerThan, edit.attempted.value, m) {
        ConsultGoesBy(rows, edit, head, newerThan, consultOnly, m);
        forall n | Lifts(rows, edit, head, newerThan, n) ensures n == m {
          NewestExactIsUnique(rows, edit.targets, head, newerThan, edit.attempted.value, m, n);
        }
        if Faults(m) {
          OnExactFaults(m, consultOnly);
        } else {
          OnExactTier(m, consultOnly);
          assert m.decision == "proceed" && !m.content.confirmation ==> Lifts(rows, edit, head, newerThan, m);
        }
      } else {
        ConsultReturns(rows, edit, head, newerThan, consultOnly);
      }
    }
  }

  predicate Continues(answer: Outcome) {
    answer.Decided? && answer.gate.permission.Continue?
  }

  /** The answer lets the edit go on because of assessment `id`. */
  predicate Clears(answer: Outcome, id: nat) {
    Continues(answer) && answer.gate.tier.Consulted? && answer.gate.matched == Some(id)
  }

  lemma MatchIgnoresOlderRows(newer: seq<Row>, older: seq<Row>, targets: seq<Place>, head: string, newerThan: nat,
                              b: Binding)
    requires exists m <- newer :: Exact(m, targets, head, newerThan, b)
    ensures MatchedRow(newer + older, targets, head, newerThan, Some(b))
      == MatchedRow(newer, targets, head, newerThan, Some(b))
  {
    var m :| m in newer && Exact(m, targets, head, newerThan, b);
    var matches := PathMatches(newer, targets, head, newerThan);
    PathMatchesAre(newer, targets, head, newerThan);
    PathMatchesAppend(newer, older, targets, head, newerThan);
    FirstExactAppend(matches, PathMatches(older, targets, head, newerThan), b);
    SomeExact(matches, b, m);
  }

  /** Once the rows read so far hold an exact match, nothing older has any say, unless reading it fails. */
  lemma OlderRowsHaveNoSay(newer: seq<Row>, older: seq<Row>, edit: Edit, head: string, newerThan: nat,
                           consultOnly: bool)
    requires edit.attempted.Some?
    requires exists m <- newer :: Exact(m, edit.targets, head, newerThan, edit.attempted.value)
    ensures ConsultFor(newer + older, edit, head, newerThan, consultOnly)
         == if Chokes(older, newerThan) then Errored else ConsultFor(newer, edit, head, newerThan, consultOnly)
  {
    MatchIgnoresOlderRows(newer, older, edit.targets, head, newerThan, edit.attempted.value);
    ChokesAppend(newer, older, newerThan);
  }

  lemma ChokesAppend(a: seq<Row>, b: seq<Row>, newerThan: nat)
    ensures Chokes(a + b, newerThan) <==> Chokes(a, newerThan) || Chokes(b, newerThan)
  {
    assert forall r :: r in a + b <==> r in a || r in b;
  }

  lemma {:induction false} SomeExact(rows: seq<Row>, b: Binding, m: Row)
    requires m in rows && CandidateBinding(m) == Some(b)
    ensures FirstExact(rows, b).Some?
  {
    if m != rows[0] {
      assert m in rows[1..];
      SomeExact(rows[1..], b, m);
    }
  }

  /**
   `m` is put before a human: a decision to ask, an approval to confirm, or a rejection that may be overridden and
   records its reason and its scores; and it can be replayed.
   */
  predicate AwaitsHuman(m: Row) {
    && m.content.Object? && m.content.replay
    && (m.decision == "ask_human"
        || (m.decision == "proceed" && m.content.confirmation)
        || (m.decision == "reject" && m.content.fired.Some? && m.content.reasoned && m.content.scores.Some?
            && HumanReview.OverrideGate(m.content.fired.value).Eligible?))
  }

  lemma OnExactAsks(r: Row, consultOnly: bool)
    requires r.content.Object? && r.id > 0 && !Faults(r)
    ensures OnExact(r, consultOnly).Decided?
    ensures OnExact(r, consultOnly).gate.permission.RequestHuman? <==> !consultOnly && AwaitsHuman(r)
  {
    HeldIsNotBlank();
    IdsAreWellFormed(r.id);
  }

  predicate Asks(answer: Outcome) {
    answer.Decided? && answer.gate.permission.RequestHuman?
  }

  /** The newest exact row can be put before a human. */
  ghost predicate AwaitingMatch(rows: seq<Row>, edit: Edit, head: string, newerThan: nat) {
    && edit.attempted.Some?
    && exists m :: NewestExact(rows, edit.targets, head, newerThan, edit.attempted.value, m) && AwaitsHuman(m)
  }

  /**
   A human is asked exactly when the newest exact row can be put before one, and never by a caller that only
   consults.
   */
  lemma HumanIsAskedIff(rows: seq<Row>, edit: Edit, head: string, newerThan: nat, consultOnly: bool)
    requires NewestFirst(rows)
    ensures Asks(ConsultFor(rows, edit, head, newerThan, consultOnly))
       <==> !consultOnly && !Chokes(rows, newerThan) && AwaitingMatch(rows, edit, head, newerThan)
  {
    if !Chokes(rows, newerThan) {
      if m :| edit.attempted.Some? && NewestExact(rows, edit.targets, head, newerThan, edit.attempted.value, m) {
        ConsultGoesBy(rows, edit, head, newerThan, consultOnly, m);
        forall n | NewestExact(rows, edit.targets, head, newerThan, edit.attempted.value, n) ensures n == m {
          NewestExactIsUnique(rows, edit.targets, head, newerThan, edit.attempted.value, m, n);
        }
        if Faults(m) {
          OnExactFaults(m, consultOnly);
        } else {
          OnExactAsks(m, consultOnly);
        }
      } else {
        ConsultReturns(rows, edit, head, newerThan, consultOnly);
      }
    }
  }
}
