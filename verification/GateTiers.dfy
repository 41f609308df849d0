/** Which answer an edit gets, and why: every tier with the exact condition under which it is given. */
module GateTiers {
  import opened Wrappers
  import opened Gate
  import opened GateConsult
  import opened GateHistory
  import HumanReview

  predicate HasTier(answer: Outcome, p: Permission, t: Tier) {
    answer.Decided? && answer.gate.permission == p && answer.gate.tier == t
  }

  // ---- The row a consultation goes by -------------------------------------------------------------------

  /** The newest row that binds exactly the attempted edit. */
  ghost predicate GoesExact(rows: seq<Row>, edit: Edit, head: string, newerThan: nat, m: Row) {
    edit.attempted.Some? && NewestExact(rows, edit.targets, head, newerThan, edit.attempted.value, m)
  }

  ghost predicate NewestEligible(rows: seq<Row>, edit: Edit, head: string, newerThan: nat, m: Row) {
    && m in rows && Eligible(m, edit.targets, head, newerThan)
    && forall r <- rows :: Eligible(r, edit.targets, head, newerThan) ==> r.id <= m.id
  }

  /** The newest row that binds exactly the attempted edit, or if there is none, the newest eligible one. */
  ghost predicate GoesBy(rows: seq<Row>, edit: Edit, head: string, newerThan: nat, m: Row) {
    GoesExact(rows, edit, head, newerThan, m)
    || ((forall e :: !GoesExact(rows, edit, head, newerThan, e)) && NewestEligible(rows, edit, head, newerThan, m))
  }

  lemma NoExactRow(rows: seq<Row>, edit: Edit, head: string, newerThan: nat)
    requires NewestFirst(rows) && edit.attempted.Some?
    ensures var found := FirstExact(PathMatches(rows, edit.targets, head, newerThan), edit.attempted.value);
      if found.Some? then GoesExact(rows, edit, head, newerThan, found.value)
      else forall e :: !GoesExact(rows, edit, head, newerThan, e)
  {
    var matches, b := PathMatches(rows, edit.targets, head, newerThan), edit.attempted.value;
    PathMatchesAre(rows, edit.targets, head, newerThan);
    PathMatchesOrdered(rows, edit.targets, head, newerThan);
    FirstExactIs(matches, b);
  }

  lemma FirstMatchIsNewest(rows: seq<Row>, edit: Edit, head: string, newerThan: nat)
    requires NewestFirst(rows)
    ensures var matches := PathMatches(rows, edit.targets, head, newerThan);
      if matches == [] then forall r <- rows :: !Eligible(r, edit.targets, head, newerThan)
      else NewestEligible(rows, edit, head, newerThan, matches[0])
  {
    var matches := PathMatches(rows, edit.targets, head, newerThan);
    PathMatchesAre(rows, edit.targets, head, newerThan);
    PathMatchesOrdered(rows, edit.targets, head, newerThan);
    if matches != [] {
      assert matches[0] in matches;
      forall r | r in matches ensures r.id <= matches[0].id {
        var i :| 0 <= i < |matches| && matches[i] == r;
      }
    }
  }

  /** What the two scans find is the row to go by; nothing just when no row is eligible. */
  lemma MatchedIff(rows: seq<Row>, edit: Edit, head: string, newerThan: nat)
    requires NewestFirst(rows)
    ensures var found := MatchedRow(rows, edit.targets, head, newerThan, edit.attempted);
      if found.Some? then GoesBy(rows, edit, head, newerThan, found.value)
      else forall r <- rows :: !Eligible(r, edit.targets, head, newerThan)
  {
    FirstMatchIsNewest(rows, edit, head, newerThan);
    if edit.attempted.Some? {
      NoExactRow(rows, edit, head, newerThan);
    }
  }

  lemma SameIdSameRow(rows: seq<Row>, m: Row, n: Row)
    requires NewestFirst(rows) && m in rows && n in rows && m.id == n.id
    ensures m == n
  {
  }

  lemma GoesByIsUnique(rows: seq<Row>, edit: Edit, head: string, newerThan: nat, m: Row, n: Row)
    requires NewestFirst(rows) && GoesBy(rows, edit, head, newerThan, m) && GoesBy(rows, edit, head, newerThan, n)
    ensures m == n
  {
    SameIdSameRow(rows, m, n);
  }

  // ---- What the row calls for ---------------------------------------------------------------------------

  /** The answer a decision on record calls for, once the edit is known to be exactly what was assessed. */
  predicate RowCalls(p: Permission, t: Tier, m: Row, consultOnly: bool)
    requires m.content.Object?
  {
    match (p, t)
    case (ReturnCandidate, MustConsult) => m.decision !in KNOWN
    case (ReturnCandidate, ConsultedRevise) => m.decision == "revise_safer"
    case (ReturnCandidate, ConsultedPrerequisite) => m.decision == "inspect_first" || m.decision == "test_first"
    case (ReturnCandidate, ConsultedReview) =>
      m.decision == "reject" && !Faults(m) && (consultOnly || !AwaitsHuman(m))
    case (ReturnCandidate, ConsultedReviewUnavailable) =>
      (m.decision == "ask_human" || (m.decision == "proceed" && m.content.confirmation))
      && (consultOnly || !m.content.replay)
    case (RequestHuman, ConsultedRejectReview) => m.decision == "reject" && !consultOnly && AwaitsHuman(m)
    case (RequestHuman, ConsultedReview) => m.decision != "reject" && !consultOnly && AwaitsHuman(m)
    case (Continue, Consulted) => m.decision == "proceed" && !m.content.confirmation
    case _ => false
  }

  lemma OnExactCalls(m: Row, consultOnly: bool, p: Permission, t: Tier)
    requires m.content.Object? && m.id > 0
    ensures HasTier(OnExact(m, consultOnly), p, t) <==> RowCalls(p, t, m, consultOnly)
  {
    HeldIsNotBlank();
    IdsAreWellFormed(m.id);
  }

  /** And it carries the scores of that very row. */
  lemma OnExactCarries(m: Row, consultOnly: bool)
    requires m.content.Object? && m.id > 0 && !Faults(m)
    ensures var answer := OnExact(m, consultOnly);
      && answer.Decided? && answer.gate.matched == Some(m.id)
      && answer.gate.risk == if m.decision in KNOWN && m.content.scores.Some?
        then Some(Risk(m.decision, m.content.scores.value)) else None
  {
    HeldIsNotBlank();
    IdsAreWellFormed(m.id);
  }

  /** The candidate differs from what was assessed although it touches the same paths, or cannot be compared. */
  predicate Mismatches(attempted: Binding, assessed: Binding) {
    || attempted.algorithm != assessed.algorithm
    || attempted.files == map[]
    || (attempted.files.Keys == assessed.files.Keys
        && exists p :: p in attempted.files && attempted.files[p] != assessed.files[p])
  }

  /** It touches other paths. */
  predicate Incompletes(attempted: Binding, assessed: Binding) {
    && attempted.algorithm == assessed.algorithm && attempted.files != map[]
    && attempted.files.Keys != assessed.files.Keys
  }

  /** What a row that binds something else, or nothing, calls for. */
  predicate OtherCalls(t: Tier, assessed: Option<Binding>, attempted: Option<Binding>) {
    match t
    case CandidateUnbound => assessed.None?
    case CandidateUnverifiable => assessed.Some? && attempted.None?
    case CandidateMismatch => assessed.Some? && attempted.Some? && Mismatches(attempted.value, assessed.value)
    case CandidateIncomplete => assessed.Some? && attempted.Some? && Incompletes(attempted.value, assessed.value)
    case _ => false
  }

  lemma ComparedIff(attempted: Binding, assessed: Binding)
    requires assessed.files != map[]
    ensures attempted == assessed <==> !Mismatches(attempted, assessed) && !Incompletes(attempted, assessed)
    ensures !(Mismatches(attempted, assessed) && Incompletes(attempted, assessed))
  {
    if !Mismatches(attempted, assessed) && !Incompletes(attempted, assessed) {
      ComparisonIsEquality(attempted, assessed);
    }
  }

  /** The answer the rows call for: by the row to go by, or, if none is eligible, to consult first. */
  ghost predicate Calls(p: Permission, t: Tier, rows: seq<Row>, edit: Edit, head: string, newerThan: nat,
                        consultOnly: bool)
  {
    || (p.ReturnCandidate? && t.MustConsult? && forall r <- rows :: !Eligible(r, edit.targets, head, newerThan))
    || (exists m :: GoesExact(rows, edit, head, newerThan, m) && m.content.Object? && RowCalls(p, t, m, consultOnly))
    || (p.ReturnCandidate?
        && exists m :: GoesBy(rows, edit, head, newerThan, m) && OtherCalls(t, CandidateBinding(m), edit.attempted))
  }

  /** The consultation as far as the matched row: what it answers by how the row compares. */
  lemma ConsultCases(rows: seq<Row>, edit: Edit, head: string, newerThan: nat, consultOnly: bool, p: Permission,
                     t: Tier)
    requires !Chokes(rows, newerThan)
    ensures
      var m := MatchedRow(rows, edit.targets, head, newerThan, edit.attempted);
      var answer := ConsultFor(rows, edit, head, newerThan, consultOnly);
      if m.None? then HasTier(answer, p, t) <==> p.ReturnCandidate? && t.MustConsult?
      else if edit.attempted.Some? && CandidateBinding(m.value) == edit.attempted then
        answer == OnExact(m.value, consultOnly)
      else HasTier(answer, p, t) <==> p.ReturnCandidate? && OtherCalls(t, CandidateBinding(m.value), edit.attempted)
  {
    var m := MatchedRow(rows, edit.targets, head, newerThan, edit.attempted);
    ReasonsAreNotBlank();
    ConsultOnExact(rows, edit, head, newerThan, consultOnly);
    if m.Some? && edit.attempted.Some? && CandidateBinding(m.value).Some? {
      ComparedIff(edit.attempted.value, CandidateBinding(m.value).value);
    }
  }

  lemma GoesByExactly(rows: seq<Row>, edit: Edit, head: string, newerThan: nat, m: Row)
    requires NewestFirst(rows) && GoesBy(rows, edit, head, newerThan, m)
    ensures edit.attempted.Some? && CandidateBinding(m) == edit.attempted <==> GoesExact(rows, edit, head, newerThan, m)
    ensures m.id > 0 && m.content.Object?
  {
    if edit.attempted.Some? {
      NoExactRow(rows, edit, head, newerThan);
      PathMatchesAre(rows, edit.targets, head, newerThan);
      PathMatchesOrdered(rows, edit.targets, head, newerThan);
      FirstExactIs(PathMatches(rows, edit.targets, head, newerThan), edit.attempted.value);
    }
  }

  lemma OtherIsNotExact(t: Tier, b: Option<Binding>, m: Row)
    requires b.Some? && CandidateBinding(m) == b
    ensures !OtherCalls(t, CandidateBinding(m), b)
  {
    ComparedIff(b.value, b.value);
  }

  /** Where there is a row to go by, it alone decides what is called for. */
  lemma CallsByRow(rows: seq<Row>, edit: Edit, head: string, newerThan: nat, consultOnly: bool, p: Permission, t: Tier,
                   m: Row)
    requires NewestFirst(rows) && GoesBy(rows, edit, head, newerThan, m) && m.content.Object?
    ensures Calls(p, t, rows, edit, head, newerThan, consultOnly) <==>
      if GoesExact(rows, edit, head, newerThan, m) then RowCalls(p, t, m, consultOnly)
      else p.ReturnCandidate? && OtherCalls(t, CandidateBinding(m), edit.attempted)
  {
    forall n | GoesBy(rows, edit, head, newerThan, n) ensures n == m {
      GoesByIsUnique(rows, edit, head, newerThan, m, n);
    }
    assert m in rows && Eligible(m, edit.targets, head, newerThan);
    if GoesExact(rows, edit, head, newerThan, m) {
      OtherIsNotExact(t, edit.attempted, m);
    } else {
      assert forall n :: GoesExact(rows, edit, head, newerThan, n) ==> GoesBy(rows, edit, head, newerThan, n);
    }
  }

  lemma CallsByNone(rows: seq<Row>, edit: Edit, head: string, newerThan: nat, consultOnly: bool, p: Permission, t: Tier)
    requires forall r <- rows :: !Eligible(r, edit.targets, head, newerThan)
    ensures Calls(p, t, rows, edit, head, newerThan, consultOnly) <==> p.ReturnCandidate? && t.MustConsult?
  {
    assert forall m :: !GoesExact(rows, edit, head, newerThan, m) && !GoesBy(rows, edit, head, newerThan, m);
  }

  /** Every answer of a consultation, with the exact condition under which it is given. */
  lemma ConsultTierIff(rows: seq<Row>, edit: Edit, head: string, newerThan: nat, consultOnly: bool, p: Permission,
                       t: Tier)
    requires NewestFirst(rows)
    ensures HasTier(ConsultFor(rows, edit, head, newerThan, consultOnly), p, t) <==>
      !Chokes(rows, newerThan) && Calls(p, t, rows, edit, head, newerThan, consultOnly)
  {
    if !Chokes(rows, newerThan) {
      MatchedIff(rows, edit, head, newerThan);
      ConsultCases(rows, edit, head, newerThan, consultOnly, p, t);
      var found := MatchedRow(rows, edit.targets, head, newerThan, edit.attempted);
      if found.Some? {
        GoesByExactly(rows, edit, head, newerThan, found.value);
        CallsByRow(rows, edit, head, newerThan, consultOnly, p, t, found.value);
        OnExactCalls(found.value, consultOnly, p, t);
      } else {
        CallsByNone(rows, edit, head, newerThan, consultOnly, p, t);
      }
    }
  }

  /** What an answer says of the assessment on record: the number and the scores of the newest exact row, or nothing. */
  ghost predicate Carries(answer: Outcome, rows: seq<Row>, edit: Edit, head: string, newerThan: nat) {
    answer.Decided? ==>
      && (forall m :: GoesExact(rows, edit, head, newerThan, m) ==>
            && m.content.Object? && answer.gate.matched == Some(m.id)
            && answer.gate.risk == if m.decision in KNOWN && m.content.scores.Some?
              then Some(Risk(m.decision, m.content.scores.value)) else None)
      && ((forall m :: !GoesExact(rows, edit, head, newerThan, m)) ==>
            answer.gate.matched.None? && answer.gate.risk.None?)
  }

  lemma ConsultCarries(rows: seq<Row>, edit: Edit, head: string, newerThan: nat, consultOnly: bool)
    requires NewestFirst(rows)
    ensures Carries(ConsultFor(rows, edit, head, newerThan, consultOnly), rows, edit, head, newerThan)
  {
    if !Chokes(rows, newerThan) {
      if m :| GoesExact(rows, edit, head, newerThan, m) {
        ConsultGoesBy(rows, edit, head, newerThan, consultOnly, m);
        forall n | GoesExact(rows, edit, head, newerThan, n) ensures n == m {
          NewestExactIsUnique(rows, edit.targets, head, newerThan, edit.attempted.value, m, n);
        }
        if Faults(m) {
          OnExactFaults(m, consultOnly);
        } else {
          OnExactCarries(m, consultOnly);
        }
      } else {
        WithoutExactRow(rows, edit, head, newerThan, consultOnly);
      }
    }
  }

  lemma WithoutExactRow(rows: seq<Row>, edit: Edit, head: string, newerThan: nat, consultOnly: bool)
    requires NewestFirst(rows) && !Chokes(rows, newerThan)
    requires forall m :: !GoesExact(rows, edit, head, newerThan, m)
    ensures var answer := ConsultFor(rows, edit, head, newerThan, consultOnly);
      answer.Decided? && answer.gate.matched.None? && answer.gate.risk.None?
  {
    MatchedIff(rows, edit, head, newerThan);
    var found := MatchedRow(rows, edit.targets, head, newerThan, edit.attempted);
    if found.Some? {
      GoesByExactly(rows, edit, head, newerThan, found.value);
    }
    ConsultOnExact(rows, edit, head, newerThan, consultOnly);
  }

  // ---- Whole decisions ----------------------------------------------------------------------------------

  /** Rows are considered from the newest restriction at HEAD on, or all of them when the edit is forced. */
  ghost predicate IsFloor(o: Observed, exact: bool, head: string, floor: nat)
    requires Unforced(o, exact) ==> o.first.Readable?
  {
    if Unforced(o, exact) then
      (exists held <- o.first.rows :: Restricts(held, head) && held.id == floor)
      && forall r <- o.first.rows :: Restricts(r, head) ==> r.id <= floor
    else floor == 0
  }

  /** The edit is put to the assessments, and these are the rows and the floor they are judged by. */
  ghost predicate PutTo(edit: Edit, o: Observed, exact: bool, rows: seq<Row>, floor: nat) {
    && Reaches(edit, o, exact) && IsFloor(o, exact, o.head.commit, floor)
    && rows == o.second.rows[..if |o.second.rows| <= 200 then |o.second.rows| else 200]
  }

  /** The gate fails open: no root, no HEAD, no readable store, or no graph and nothing pending. */
  ghost predicate FailsOpen(edit: Edit, o: Observed, exact: bool) {
    && edit.readable && edit.targets != []
    && (!o.rootFound
        || (!o.graph.Breaks? && o.head.NoHead? && (Unforced(o, exact) ==> o.graph.Unknown?))
        || (!o.graph.Breaks? && o.head.At? && StoreFailsOpen(o, exact, o.head.commit)))
  }

  ghost predicate StoreFailsOpen(o: Observed, exact: bool, head: string) {
    || (Unforced(o, exact) && o.first.Unreadable?)
    || (Unforced(o, exact) && o.first.Readable? && NothingPending(o.first.rows, head) && o.graph.Unknown?)
    || (IsConsulted(o, exact, head) && o.second.Unreadable?)
  }

  /** Nothing is to be edited, or the graph has spoken and nothing is pending. */
  ghost predicate PassesThrough(edit: Edit, o: Observed, exact: bool) {
    && edit.readable
    && if edit.targets == [] then !edit.patchText
       else
         Unforced(o, exact) && !o.graph.Unknown?
         && (o.head.NoHead? || (o.head.At? && o.first.Readable? && NothingPending(o.first.rows, o.head.commit)))
  }

  /** The edit gets as far as the assessments, and they can be read. */
  ghost predicate Reaches(edit: Edit, o: Observed, exact: bool) {
    && edit.readable && edit.targets != [] && o.rootFound && !o.graph.Breaks? && o.head.At?
    && IsConsulted(o, exact, o.head.commit) && o.second.Readable?
  }

  /** The answers that look at no assessment. */
  ghost predicate DueWithoutRows(p: Permission, t: Tier, edit: Edit, o: Observed, exact: bool) {
    || (p.Continue? && t.Pass? && PassesThrough(edit, o, exact))
    || (p.Continue? && t.FailOpen? && FailsOpen(edit, o, exact))
    || (p.ReturnCandidate? && t.CandidateUnverifiable? && edit.readable && edit.targets == [] && edit.patchText)
  }

  /** The answer an edit must get, by what is observed. */
  ghost predicate Due(p: Permission, t: Tier, edit: Edit, o: Observed, consultOnly: bool, exact: bool) {
    || DueWithoutRows(p, t, edit, o, exact)
    || (exists rows, floor :: PutTo(edit, o, exact, rows, floor) && !Chokes(rows, floor)
          && Calls(p, t, rows, edit, o.head.commit, floor, consultOnly))
  }

  lemma FloorIsFloor(o: Observed, exact: bool, head: string)
    requires WellKept(o) && o.rootFound && !o.graph.Breaks? && o.head == At(head) && IsConsulted(o, exact, head)
    ensures IsFloor(o, exact, head, Floor(o, exact))
    ensures forall n: nat :: IsFloor(o, exact, head, n) ==> n == Floor(o, exact)
  {
    if Unforced(o, exact) {
      PendingRaisesIff(o.first.rows, head);
      PendingMeans(o.first.rows, head);
      PendingIsNewest(o.first.rows, head);
    }
  }

  /** What is put to the assessments is answered by the consultation. */
  lemma DecideConsults(edit: Edit, o: Observed, consultOnly: bool, exact: bool)
    requires WellKept(o) && edit.readable && edit.targets != [] && o.rootFound && !o.graph.Breaks? && o.head.At?
    requires IsConsulted(o, exact, o.head.commit) && o.second.Readable?
    ensures Decide(edit, o, consultOnly, exact)
      == ConsultFor(Limited(o.second.rows), edit, o.head.commit, Floor(o, exact), consultOnly)
  {
    if Unforced(o, exact) {
      PendingRaisesIff(o.first.rows, o.head.commit);
      PendingMeans(o.first.rows, o.head.commit);
    }
  }

  predicate IsPass(answer: Outcome) {
    answer == Make(GateDecision(Continue, Pass, None, None, None, None))
  }

  /** An answer without rows passes, fails open with some warning, or is none at all. */
  lemma AnswersWithoutRows(answer: Outcome, p: Permission, t: Tier, passes: bool, opens: bool, warn: string)
    requires if passes then IsPass(answer) else if opens then answer == Warned(warn) else answer.Errored?
    requires !(passes && opens)
    ensures HasTier(answer, p, t) <==> (p.Continue? && t.Pass? && passes) || (p.Continue? && t.FailOpen? && opens)
  {
  }

  lemma NothingToEdit(edit: Edit, o: Observed, consultOnly: bool, exact: bool, p: Permission, t: Tier)
    requires !edit.readable || edit.targets == []
    ensures HasTier(Decide(edit, o, consultOnly, exact), p, t) <==> DueWithoutRows(p, t, edit, o, exact)
  {
    PatchIsToldApart();
  }

  lemma NoRoot(edit: Edit, o: Observed, consultOnly: bool, exact: bool, p: Permission, t: Tier)
    requires edit.readable && edit.targets != [] && (!o.rootFound || o.graph.Breaks?)
    ensures HasTier(Decide(edit, o, consultOnly, exact), p, t) <==> DueWithoutRows(p, t, edit, o, exact)
  {
    AnswersWithoutRows(Decide(edit, o, consultOnly, exact), p, t, false, !o.rootFound, "gate: repo root unresolved");
  }

  lemma NoHeadMeans(edit: Edit, o: Observed, exact: bool)
    requires edit.readable && edit.targets != [] && o.rootFound && !o.graph.Breaks? && !o.head.At?
    ensures PassesThrough(edit, o, exact) <==> o.head.NoHead? && Unforced(o, exact) && !o.graph.Unknown?
    ensures FailsOpen(edit, o, exact) <==> o.head.NoHead? && (!Unforced(o, exact) || o.graph.Unknown?)
  {
  }

  lemma NoHeadAnswer(edit: Edit, o: Observed, consultOnly: bool, exact: bool) returns (warn: string)
    requires edit.readable && edit.targets != [] && o.rootFound && !o.graph.Breaks? && !o.head.At?
    ensures var answer := Decide(edit, o, consultOnly, exact);
      if o.head.Garbled? then answer.Errored?
      else if Unforced(o, exact) && !o.graph.Unknown? then IsPass(answer) else answer == Warned(warn)
  {
    warn := if Unforced(o, exact) then "gate: graph unavailable; skipping consult check"
      else "gate: git HEAD unavailable; skipping consult check";
  }

  lemma NoHeadRead(edit: Edit, o: Observed, consultOnly: bool, exact: bool, p: Permission, t: Tier)
    requires edit.readable && edit.targets != [] && o.rootFound && !o.graph.Breaks? && !o.head.At?
    ensures HasTier(Decide(edit, o, consultOnly, exact), p, t) <==> DueWithoutRows(p, t, edit, o, exact)
  {
    var warn := NoHeadAnswer(edit, o, consultOnly, exact);
    NoHeadMeans(edit, o, exact);
    AnswersWithoutRows(Decide(edit, o, consultOnly, exact), p, t, PassesThrough(edit, o, exact),
                       FailsOpen(edit, o, exact), warn);
  }

  lemma AtHeadForced(edit: Edit, o: Observed, consultOnly: bool, exact: bool, p: Permission, t: Tier)
    requires edit.readable && edit.targets != [] && o.rootFound && !o.graph.Breaks? && o.head.At?
    requires !Unforced(o, exact) && !o.second.Readable?
    ensures HasTier(Decide(edit, o, consultOnly, exact), p, t) <==> DueWithoutRows(p, t, edit, o, exact)
  {
  }

  lemma AtHeadUnread(edit: Edit, o: Observed, consultOnly: bool, exact: bool, p: Permission, t: Tier)
    requires edit.readable && edit.targets != [] && o.rootFound && !o.graph.Breaks? && o.head.At?
    requires Unforced(o, exact) && !o.first.Readable?
    ensures HasTier(Decide(edit, o, consultOnly, exact), p, t) <==> DueWithoutRows(p, t, edit, o, exact)
  {
  }

  /** A scan that raises, one that finds nothing, and one that finds a restriction. */
  lemma ScanCases(o: Observed, exact: bool, head: string)
    requires WellKept(o) && o.first.Readable? && Unforced(o, exact)
    ensures PendingRestriction(o.first.rows, head) == Newest(0) <==> NothingPending(o.first.rows, head)
    ensures PendingRestriction(o.first.rows, head).Raises? ==>
      !IsConsulted(o, exact, head) && !NothingPending(o.first.rows, head)
    ensures PendingRestriction(o.first.rows, head).Newest? ==>
      (PendingRestriction(o.first.rows, head).id > 0 <==> IsConsulted(o, exact, head))
  {
    PendingRaisesIff(o.first.rows, head);
    PendingNoneIff(o.first.rows, head);
    if PendingRestriction(o.first.rows, head).Newest? {
      PendingMeans(o.first.rows, head);
    }
  }

  lemma AtHeadRead(edit: Edit, o: Observed, consultOnly: bool, exact: bool, p: Permission, t: Tier)
    requires WellKept(o) && edit.readable && edit.targets != [] && o.rootFound && !o.graph.Breaks? && o.head.At?
    requires Unforced(o, exact) && o.first.Readable? && !Reaches(edit, o, exact)
    ensures HasTier(Decide(edit, o, consultOnly, exact), p, t) <==> DueWithoutRows(p, t, edit, o, exact)
  {
    ScanCases(o, exact, o.head.commit);
    AfterScan(edit, o, consultOnly, exact, p, t, NothingPending(o.first.rows, o.head.commit),
              IsConsulted(o, exact, o.head.commit));
  }

  lemma AfterScan(edit: Edit, o: Observed, consultOnly: bool, exact: bool, p: Permission, t: Tier, nothing: bool,
                  held: bool)
    requires edit.readable && edit.targets != [] && Unforced(o, exact) && o.head.At? && o.first.Readable?
    requires nothing == NothingPending(o.first.rows, o.head.commit) && held == IsConsulted(o, exact, o.head.commit)
    requires PendingRestriction(o.first.rows, o.head.commit) == Newest(0) <==> nothing
    requires PendingRestriction(o.first.rows, o.head.commit).Raises? ==> !held && !nothing
    requires PendingRestriction(o.first.rows, o.head.commit).Newest? && !nothing ==> held
    requires PendingRestriction(o.first.rows, o.head.commit).Newest? && nothing ==> !held
    requires held ==> !o.second.Readable?
    ensures HasTier(Decide(edit, o, consultOnly, exact), p, t) <==> DueWithoutRows(p, t, edit, o, exact)
  {
  }

  lemma DueWhenReached(p: Permission, t: Tier, edit: Edit, o: Observed, consultOnly: bool, exact: bool)
    requires WellKept(o) && Reaches(edit, o, exact)
    ensures Due(p, t, edit, o, consultOnly, exact) <==>
      !Chokes(Limited(o.second.rows), Floor(o, exact))
      && Calls(p, t, Limited(o.second.rows), edit, o.head.commit, Floor(o, exact), consultOnly)
  {
    FloorIsFloor(o, exact, o.head.commit);
    NotWaived(edit, o, exact);
    assert PutTo(edit, o, exact, Limited(o.second.rows), Floor(o, exact));
  }

  lemma NotWaived(edit: Edit, o: Observed, exact: bool)
    requires Reaches(edit, o, exact)
    ensures !PassesThrough(edit, o, exact) && !FailsOpen(edit, o, exact)
  {
  }

  /** Every decision of the gate, with the exact condition under which it is taken. */
  lemma DecideTierIff(edit: Edit, o: Observed, consultOnly: bool, exact: bool, p: Permission, t: Tier)
    requires WellKept(o)
    ensures HasTier(Decide(edit, o, consultOnly, exact), p, t) <==> Due(p, t, edit, o, consultOnly, exact)
  {
    if Reaches(edit, o, exact) {
      DueWhenReached(p, t, edit, o, consultOnly, exact);
      DecideConsults(edit, o, consultOnly, exact);
      LimitedKeepsOrder(o.second.rows);
      ConsultTierIff(Limited(o.second.rows), edit, o.head.commit, Floor(o, exact), consultOnly, p, t);
    } else {
      assert Due(p, t, edit, o, consultOnly, exact) <==> DueWithoutRows(p, t, edit, o, exact);
      if !edit.readable || edit.targets == [] {
        NothingToEdit(edit, o, consultOnly, exact, p, t);
      } else if !o.rootFound || o.graph.Breaks? {
        NoRoot(edit, o, consultOnly, exact, p, t);
      } else if !o.head.At? {
        NoHeadRead(edit, o, consultOnly, exact, p, t);
      } else if !Unforced(o, exact) {
        AtHeadForced(edit, o, consultOnly, exact, p, t);
      } else if !o.first.Readable? {
        AtHeadUnread(edit, o, consultOnly, exact, p, t);
      } else {
        AtHeadRead(edit, o, consultOnly, exact, p, t);
      }
    }
  }

  /** A warning comes with failing open and with nothing else, a reason with every answer that stops the edit. */
  predicate WellSaid(answer: Outcome) {
    answer.Decided? ==>
      (answer.gate.warn.Some? <==> answer.gate.tier.FailOpen?)
      && (answer.gate.reason.Some? <==> !answer.gate.permission.Continue?)
  }

  lemma OnExactIsWellSaid(m: Row, consultOnly: bool)
    requires m.content.Object?
    ensures WellSaid(OnExact(m, consultOnly))
  {
  }

  lemma ReturnedIsWellSaid(t: Tier, reason: string)
    ensures WellSaid(Returned(t, reason))
  {
  }

  lemma ConsultIsWellSaid(rows: seq<Row>, edit: Edit, head: string, newerThan: nat, consultOnly: bool)
    ensures WellSaid(ConsultFor(rows, edit, head, newerThan, consultOnly))
  {
    ReturnedIsWellSaid(MustConsult, "Consult before editing.");
    ReturnedIsWellSaid(CandidateUnbound, "Not the assessed candidate.");
    ReturnedIsWellSaid(CandidateUnverifiable, "Not the assessed candidate.");
    ReturnedIsWellSaid(CandidateMismatch, "Not the assessed candidate.");
    ReturnedIsWellSaid(CandidateIncomplete, "Apply the candidate atomically.");
    var m := MatchedRow(rows, edit.targets, head, newerThan, edit.attempted);
    if m.Some? && m.value.content.Object? {
      OnExactIsWellSaid(m.value, consultOnly);
    }
  }

  lemma StoreIsWellSaid(edit: Edit, o: Observed, newerThan: nat, consultOnly: bool)
    requires o.head.At?
    ensures WellSaid(ConsultStore(edit, o, newerThan, consultOnly))
  {
    if o.second.Readable? {
      ConsultIsWellSaid(Limited(o.second.rows), edit, o.head.commit, newerThan, consultOnly);
    }
  }

  lemma UnforcedIsWellSaid(edit: Edit, o: Observed, consultOnly: bool)
    requires edit.readable && edit.targets != [] && Unforced(o, false) && o.head.At? && o.first.Readable?
    ensures WellSaid(Decide(edit, o, consultOnly, false))
  {
    match PendingRestriction(o.first.rows, o.head.commit) {
      case Raises =>
      case Newest(id) =>
        if id > 0 {
          StoreIsWellSaid(edit, o, id, consultOnly);
          assert Decide(edit, o, consultOnly, false) == ConsultStore(edit, o, id, consultOnly);
        }
    }
  }

  lemma ForcedIsWellSaid(edit: Edit, o: Observed, consultOnly: bool, exact: bool)
    requires edit.readable && edit.targets != [] && o.rootFound && !o.graph.Breaks? && !Unforced(o, exact) && o.head.At?
    ensures WellSaid(Decide(edit, o, consultOnly, exact))
  {
    StoreIsWellSaid(edit, o, 0, consultOnly);
    assert Decide(edit, o, consultOnly, exact) == ConsultStore(edit, o, 0, consultOnly);
  }

  lemma DecideIsWellSaid(edit: Edit, o: Observed, consultOnly: bool, exact: bool)
    ensures WellSaid(Decide(edit, o, consultOnly, exact))
  {
    if edit.readable && edit.targets != [] && o.rootFound && !o.graph.Breaks? && o.head.At? {
      if !Unforced(o, exact) {
        ForcedIsWellSaid(edit, o, consultOnly, exact);
      } else if o.first.Readable? {
        UnforcedIsWellSaid(edit, o, consultOnly);
      }
    }
  }

  // ---- In terms of what is stored -----------------------------------------------------------------------

  /** A SHA-256 digest in lower-case hexadecimal. */
  predicate IsHex(d: string) {
    |d| == 64 && forall x <- d :: '0' <= x <= '9' || 'a' <= x <= 'f'
  }

  lemma HexDigit(x: char)
    ensures x in "0123456789abcdef" <==> '0' <= x <= '9' || 'a' <= x <= 'f'
  {
  }

  lemma DigestIff(d: string)
    ensures IsDigest(d) <==> IsHex(d)
  {
    forall i | 0 <= i < |d| ensures d[i] in "0123456789abcdef" <==> '0' <= d[i] <= '9' || 'a' <= d[i] <= 'f' {
      HexDigit(d[i]);
    }
    if IsDigest(d) {
      forall x | x in d ensures '0' <= x <= '9' || 'a' <= x <= 'f' {
        var i :| 0 <= i < |d| && d[i] == x;
      }
    }
    if IsHex(d) {
      forall i | 0 <= i < |d| ensures d[i] in "0123456789abcdef" {
        assert d[i] in d;
      }
    }
  }

  /**
   What is stored as the candidate of a row counts only if it is whole: the algorithm, some files, and their digests.
   */
  lemma StoredBindingIff(r: Row, b: Binding)
    ensures CandidateBinding(r) == Some(b) <==>
      && r.content.Object? && r.content.candidate == Some(b) && b.algorithm == "sha256-normalized-content-v1"
      && b.files != map[] && forall p :: p in b.files ==> IsHex(b.files[p])
  {
    forall d: string ensures IsDigest(d) <==> IsHex(d) {
      DigestIff(d);
    }
  }

  /**
   A row restricts when it is stored at HEAD and is one of the five decisions that forbid, or an unconfirmed
   approval.
   */
  lemma RestrictsIff(r: Row, head: string)
    ensures Restricts(r, head) <==>
      && r.content.Object? && r.content.commit == Some(head)
      && (r.decision == "reject" || r.decision == "ask_human" || r.decision == "revise_safer"
          || r.decision == "inspect_first" || r.decision == "test_first"
          || (r.decision == "proceed" && r.content.confirmation))
  {
  }

  /** A row is eligible when it is stored at HEAD, not below the floor, and its scope lists every target. */
  lemma EligibleIff(r: Row, targets: seq<Place>, head: string, floor: nat)
    ensures Eligible(r, targets, head, floor) <==>
      && r.id >= floor && r.content.Object? && r.content.commit == Some(head) && r.content.scope.Some?
      && forall t <- targets :: exists i: nat :: Lists(r.content.scope.value, i, t)
  {
    if r.content.Object? && r.content.scope.Some? {
      CoversIff(r.content.scope.value, targets);
    }
  }

  /** An approval on record of this very edit at this commit. */
  ghost predicate Approves(m: Row, edit: Edit, head: string) {
    && m.decision == "proceed" && m.content.Object? && !m.content.confirmation && m.content.commit == Some(head)
    && m.content.scope.Some?
    && (forall t <- edit.targets :: exists i: nat :: Lists(m.content.scope.value, i, t))
    && edit.attempted.Some? && m.content.candidate == edit.attempted
    && edit.attempted.value.algorithm == "sha256-normalized-content-v1" && edit.attempted.value.files != map[]
    && forall p :: p in edit.attempted.value.files ==> IsHex(edit.attempted.value.files[p])
  }

  /** What the gate lets through by consultation was approved: this edit, at this commit, without reservation. */
  lemma AllowedIsApproved(edit: Edit, o: Observed, consultOnly: bool, exact: bool)
    requires WellKept(o) && HasTier(Decide(edit, o, consultOnly, exact), Continue, Consulted)
    ensures o.head.At? && o.second.Readable? && exists m <- o.second.rows :: Approves(m, edit, o.head.commit)
  {
    DecideTierIff(edit, o, consultOnly, exact, Continue, Consulted);
    var rows, floor :| PutTo(edit, o, exact, rows, floor) && !Chokes(rows, floor)
      && Calls(Continue, Consulted, rows, edit, o.head.commit, floor, consultOnly);
    var m :| GoesExact(rows, edit, o.head.commit, floor, m) && m.content.Object?
      && RowCalls(Continue, Consulted, m, consultOnly);
    EligibleIff(m, edit.targets, o.head.commit, floor);
    StoredBindingIff(m, edit.attempted.value);
    assert m in rows && m in o.second.rows;
    assert Approves(m, edit, o.head.commit);
  }
}
