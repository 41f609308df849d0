/**
 The gate's wire format and, written down a second time and separately, the consumer that validates it.
 The two sides keep their own tables; what is proved is that they agree.
 */
module GateContract {
  import opened Wrappers
  import opened Gate
  import H = GateHistory
  import Q = GateConsult

  datatype Summary = Summary(decision: string, scores: Scores)

  datatype Envelope = Envelope(
    schema: int,
    permission: string,
    tier: string,
    reason: Option<string>,
    warn: Option<string>,
    risk: Option<Summary>,
    matched: Option<string>)

  // ---- The producer's side --------------------------------------------------------------------------

  function PermissionName(p: Permission): string {
    match p
    case Continue => "allow"
    case ReturnCandidate => "deny"
    case RequestHuman => "ask"
  }

  function TierName(t: Tier): string {
    match t
    case Pass => "pass"
    case FailOpen => "fail_open"
    case MustConsult => "must_consult"
    case CandidateUnverifiable => "candidate_unverifiable"
    case CandidateUnbound => "candidate_unbound"
    case CandidateMismatch => "candidate_mismatch"
    case CandidateIncomplete => "candidate_incomplete"
    case Consulted => "consulted"
    case ConsultedRevise => "consulted_revise"
    case ConsultedPrerequisite => "consulted_prerequisite"
    case ConsultedReview => "consulted_review"
    case ConsultedRejectReview => "consulted_reject_review"
    case ConsultedReviewUnavailable => "consulted_review_unavailable"
  }

  /** The decision as the host sees it, with the host's own metadata. */
  function Wire(g: GateDecision): Envelope {
    Envelope(
      2, PermissionName(g.permission), TierName(g.tier), g.reason, g.warn,
      if g.risk.Some? then Some(Summary(g.risk.value.decision, g.risk.value.scores)) else None,
      if g.matched.Some? then Some(AssessmentId(g.matched.value)) else None)
  }

  // ---- The consumer's side --------------------------------------------------------------------------

  const SUPPORTED_SCHEMA: int := 2

  const TIER_TABLE: map<string, set<string>> := map[
    "allow" := {"pass", "fail_open", "consulted"},
    "ask" := {"consulted_review", "consulted_reject_review"},
    "deny" := {
      "must_consult", "candidate_unverifiable", "candidate_unbound", "candidate_mismatch", "candidate_incomplete",
      "consulted_revise", "consulted_prerequisite", "consulted_review", "consulted_review_unavailable"}
  ]

  const DECISIONS: set<string> := {"proceed", "inspect_first", "test_first", "revise_safer", "ask_human", "reject"}

  function RiskTable(permission: string, tier: string): set<string> {
    if permission == "allow" && tier == "consulted" then {"proceed"}
    else if permission == "deny" && tier == "consulted_revise" then {"revise_safer"}
    else if permission == "deny" && tier == "consulted_prerequisite" then {"inspect_first", "test_first"}
    else if permission == "ask" && tier == "consulted_review" then {"ask_human", "proceed"}
    else if permission == "deny" && tier == "consulted_review" then {"reject"}
    else if permission == "deny" && tier == "consulted_review_unavailable" then {"ask_human", "proceed"}
    else if permission == "ask" && tier == "consulted_reject_review" then {"reject"}
    else {}
  }

  predicate AcceptsSummary(s: Summary, permission: string, tier: string) {
    s.decision in DECISIONS && s.decision in RiskTable(permission, tier)
  }

  predicate Accepts(e: Envelope) {
    && e.schema == SUPPORTED_SCHEMA
    && e.permission in TIER_TABLE
    && e.tier in TIER_TABLE[e.permission]
    && (e.permission in {"deny", "ask"} ==> e.reason.Some? && !IsBlank(e.reason.value))
    && (e.matched.Some? ==> IsAssessmentId(e.matched.value))
    && (e.risk.Some? ==> AcceptsSummary(e.risk.value, e.permission, e.tier))
    && (e.permission == "ask" && e.tier == "consulted_reject_review" ==> e.risk.Some?)
    && (e.risk.Some? ==> e.matched.Some?)
  }

  // ---- Agreement ------------------------------------------------------------------------------------

  lemma TierTableAgrees(p: Permission, t: Tier)
    ensures PermissionName(p) in TIER_TABLE
    ensures TierName(t) in TIER_TABLE[PermissionName(p)] <==> t in AllowedTiers(p)
  {
    match p
    case Continue =>
    case ReturnCandidate =>
    case RequestHuman =>
  }

  lemma RiskTableAgrees(p: Permission, t: Tier)
    requires t in AllowedTiers(p)
    ensures RiskTable(PermissionName(p), TierName(t)) == AllowedRisks(p, t)
    ensures AllowedRisks(p, t) <= DECISIONS
    ensures PermissionName(p) == "ask" && TierName(t) == "consulted_reject_review" <==> t.ConsultedRejectReview?
  {
    match p
    case Continue =>
    case ReturnCandidate =>
    case RequestHuman =>
  }

  /**
   The consumer accepts exactly what the producer's constructor lets through: neither side is stricter than the
   other.
   */
  lemma TablesAgree(g: GateDecision)
    requires g.matched.Some? ==> g.matched.value > 0
    ensures Accepts(Wire(g)) <==> Make(g) == Decided(g)
  {
    TierTableAgrees(g.permission, g.tier);
    if g.matched.Some? {
      Q.IdsAreWellFormed(g.matched.value);
    }
    if g.tier in AllowedTiers(g.permission) {
      RiskTableAgrees(g.permission, g.tier);
    }
  }

  /** Every decision the gate takes, on any event, history and graph verdict, is one the consumer accepts. */
  lemma ContractHolds(edit: Edit, o: Observed, consultOnly: bool, exact: bool)
    requires H.WellKept(o)
    ensures Decide(edit, o, consultOnly, exact).Decided? ==> Accepts(Wire(Decide(edit, o, consultOnly, exact).gate))
  {
    var d := Decide(edit, o, consultOnly, exact);
    if d.Decided? {
      DecisionsAreMade(edit, o, consultOnly, exact);
      TablesAgree(d.gate);
    }
  }

  predicate IsMade(d: Outcome) {
    d.Decided? ==> Make(d.gate) == d && (d.gate.matched.Some? ==> d.gate.matched.value > 0)
  }

  /**
   What a consultation says, if it says anything, went through the constructor and names an assessment on record if
   any.
   */
  lemma ConsultIsMade(rows: seq<Row>, edit: Edit, head: string, newerThan: nat, consultOnly: bool)
    requires NewestFirst(rows)
    ensures IsMade(Q.ConsultFor(rows, edit, head, newerThan, consultOnly))
  {
    if !Chokes(rows, newerThan) {
      var m := MatchedRow(rows, edit.targets, head, newerThan, edit.attempted);
      Q.ConsultOnExact(rows, edit, head, newerThan, consultOnly);
      if m.Some? {
        Q.MatchedIsEligible(rows, edit.targets, head, newerThan, edit.attempted);
        if Q.Faults(m.value) {
          Q.OnExactFaults(m.value, consultOnly);
        } else {
          Q.OnExactTier(m.value, consultOnly);
        }
      }
    }
  }

  lemma ReturnedIsMade(t: Tier, reason: string)
    ensures IsMade(Returned(t, reason))
  {
  }

  lemma WarnedIsMade(warn: string)
    ensures IsMade(Warned(warn))
  {
  }

  lemma PassIsMade()
    ensures IsMade(Make(GateDecision(Continue, Pass, None, None, None, None)))
  {
  }

  lemma DecisionsAreMade(edit: Edit, o: Observed, consultOnly: bool, exact: bool)
    requires H.WellKept(o)
    ensures IsMade(Decide(edit, o, consultOnly, exact))
  {
    ReturnedIsMade(CandidateUnverifiable, "The patch could not be parsed.");
    PassIsMade();
    WarnedIsMade("gate: repo root unresolved");
    WarnedIsMade("gate: graph unavailable; skipping consult check");
    WarnedIsMade("gate: assessment store unavailable");
    WarnedIsMade("gate: git HEAD unavailable; skipping consult check");
    if o.head.At? && o.second.Readable? {
      H.LimitedKeepsOrder(o.second.rows);
      ConsultIsMade(Limited(o.second.rows), edit, o.head.commit, H.Floor(o, exact), consultOnly);
    }
  }

  // ---- Going on without a consultation ----------------------------------------------------------------

  predicate Waives(d: Outcome) {
    d.Decided? && (d.gate.tier.Pass? || d.gate.tier.FailOpen?)
  }

  lemma ConsultNeverWaives(rows: seq<Row>, edit: Edit, head: string, newerThan: nat, consultOnly: bool)
    requires NewestFirst(rows)
    ensures !Waives(Q.ConsultFor(rows, edit, head, newerThan, consultOnly))
  {
    Q.ConsultContinuesIff(rows, edit, head, newerThan, consultOnly);
    ConsultIsMade(rows, edit, head, newerThan, consultOnly);
  }

  /**
   An edit passes without a consultation or a warning exactly when there is nothing to edit, or the graph has
   spoken and at HEAD, if there is one, nothing is pending.
   */
  lemma PassesIff(edit: Edit, o: Observed, consultOnly: bool, exact: bool)
    requires H.WellKept(o) && Decide(edit, o, consultOnly, exact).Decided?
    ensures Decide(edit, o, consultOnly, exact).gate.tier.Pass? <==>
      || (edit.targets == [] && !edit.patchText)
      || (edit.targets != [] && H.Unforced(o, exact) && !o.graph.Unknown?
          && (o.head.NoHead? || (o.first.Readable? && H.NothingPending(o.first.rows, o.head.commit))))
  {
    if o.head.At? && o.first.Readable? {
      H.PendingNoneIff(o.first.rows, o.head.commit);
    }
    if o.head.At? && o.second.Readable? {
      H.LimitedKeepsOrder(o.second.rows);
      ConsultNeverWaives(Limited(o.second.rows), edit, o.head.commit, H.Floor(o, exact), consultOnly);
    }
  }

  /** When everything the gate needs could be read it never fails open. */
  lemma AllReadNeverFailsOpen(edit: Edit, o: Observed, consultOnly: bool, exact: bool)
    requires H.WellKept(o) && Decide(edit, o, consultOnly, exact).Decided?
    requires o.rootFound && !o.graph.Unknown? && o.head.At? && o.first.Readable? && o.second.Readable?
    ensures !Decide(edit, o, consultOnly, exact).gate.tier.FailOpen?
  {
    H.LimitedKeepsOrder(o.second.rows);
    ConsultNeverWaives(Limited(o.second.rows), edit, o.head.commit, H.Floor(o, exact), consultOnly);
  }
}
