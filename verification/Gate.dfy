/**
 The pre-edit gate: given a proposed edit and the append-only history of assessments, whether the
 edit goes on, returns to its author, or is put before a human.
 */
module Gate {
  import opened Decimals
  import opened Wrappers
  import HumanReview

  const QUERY_LIMIT: nat := 200
  const BINDING_ALGORITHM: string := "sha256-normalized-content-v1"

  // ---- The persisted history ------------------------------------------------------------------------

  /** The files a candidate would leave behind, by digest of their normalized content. */
  datatype Binding = Binding(algorithm: string, files: map<string, string>)

  datatype Scores = Scores(loss: real, benefit: real, rau: real)

  /** Where a path leads: its one absolute spelling with links resolved, or none for text that cannot be a path. */
  type Place = Option<string>

  /** An entry of a stored scope: a value that is no text, or text, and where it leads if it is a path. */
  datatype ScopeEntry = NoText | Text(raw: string, place: Place)

  /**
   The stored JSON of an assessment, as far as the gate reads it: none at all, text that is no JSON, JSON nested too
   deep for the reader, JSON that is no object, or an object.
   */
  datatype Content =
    | Blank
    | Unparseable
    | TooDeep
    | NonObject
    | Object(
        commit: Option<string>,
        confirmation: bool,
        scope: Option<seq<ScopeEntry>>,
        candidate: Option<Binding>,
        scores: Option<Scores>,
        replay: bool,
        fired: Option<seq<HumanReview.Fired>>,
        reasoned: bool)

  datatype Row = Row(id: nat, decision: string, content: Content)

  /**
   A store that can be read yields the rows of the repository, newest first; a missing one has none. Looking for the
   store may itself raise, as in a directory that may not be searched.
   */
  datatype Store = Unreadable | Raising | Readable(rows: seq<Row>)

  /** The commit of HEAD, if there is one; what git says of it may not be text, which raises. */
  datatype Head = NoHead | Garbled | At(commit: string)

  ghost predicate NewestFirst(rows: seq<Row>) {
    && (forall i :: 0 <= i < |rows| ==> rows[i].id > 0)
    && (forall i, j :: 0 <= i < j < |rows| ==> rows[i].id > rows[j].id)
  }

  const RESTRICTIVE: set<string> := {"revise_safer", "ask_human", "reject", "inspect_first", "test_first"}
  const KNOWN: set<string> := RESTRICTIVE + {"proceed"}

  /** An assessment at `head` that forbids editing on: restrictive, or waiting for confirmation. */
  predicate Restricts(r: Row, head: string) {
    && r.decision in KNOWN
    && r.content.Object?
    && r.content.commit == Some(head)
    && (r.decision in RESTRICTIVE || r.content.confirmation)
  }

  /** Result of looking for the newest restriction: its id, 0 when there is none, or an error raised on the way. */
  datatype Pending = Newest(id: nat) | Raises

  function PendingRestriction(rows: seq<Row>, head: string): Pending {
    if rows == [] then Newest(0)
    else if rows[0].decision !in KNOWN || rows[0].content.Unparseable? then PendingRestriction(rows[1..], head)
    else if rows[0].content.NonObject? || rows[0].content.TooDeep? then Raises
    else if Restricts(rows[0], head) then Newest(rows[0].id)
    else PendingRestriction(rows[1..], head)
  }

  predicate IsDigest(d: string) {
    |d| == 64 && forall i :: 0 <= i < |d| ==> d[i] in "0123456789abcdef"
  }

  /** The candidate an assessment binds, when what is stored is well-formed. */
  function CandidateBinding(r: Row): Option<Binding> {
    if r.content.Object? && r.content.candidate.Some?
       && r.content.candidate.value.algorithm == BINDING_ALGORITHM
       && r.content.candidate.value.files != map[]
       && (forall p :: p in r.content.candidate.value.files ==> IsDigest(r.content.candidate.value.files[p]))
    then r.content.candidate else None
  }

  /** Scopes list symbols beside files; a symbol holds `::`, a file does not. */
  predicate IsPath(e: ScopeEntry) {
    e.Text? && forall i :: 0 <= i < |e.raw| - 1 ==> !(e.raw[i] == ':' && e.raw[i + 1] == ':')
  }

  function PathEntries(files: seq<ScopeEntry>): seq<Place> {
    if files == [] then []
    else (if IsPath(files[0]) then [files[0].place] else []) + PathEntries(files[1..])
  }

  /** The target leads to the same place as one of the candidates; one that leads nowhere raises. */
  predicate Among(target: Place, candidates: seq<Place>) {
    target.Some? && candidates != [] && candidates[0].Some?
    && (candidates[0] == target || Among(target, candidates[1..]))
  }

  predicate Covers(files: seq<ScopeEntry>, targets: seq<Place>) {
    forall t <- targets :: Among(t, PathEntries(files))
  }

  /** The row is at `head`, not older than `newerThan`, and its scope covers every target. */
  predicate Eligible(r: Row, targets: seq<Place>, head: string, newerThan: nat) {
    && r.id >= newerThan
    && r.content.Object?
    && r.content.commit == Some(head)
    && r.content.scope.Some?
    && Covers(r.content.scope.value, targets)
  }

  /** Looking through the rows for path matches stops with an error at content nested too deep. */
  predicate Chokes(rows: seq<Row>, newerThan: nat) {
    exists r <- rows :: r.id >= newerThan && r.content.TooDeep?
  }

  function PathMatches(rows: seq<Row>, targets: seq<Place>, head: string, newerThan: nat): seq<Row> {
    if rows == [] then []
    else
      (if Eligible(rows[0], targets, head, newerThan) then [rows[0]] else [])
      + PathMatches(rows[1..], targets, head, newerThan)
  }

  function FirstExact(rows: seq<Row>, attempted: Binding): Option<Row> {
    if rows == [] then None
    else if CandidateBinding(rows[0]) == Some(attempted) then Some(rows[0])
    else FirstExact(rows[1..], attempted)
  }

  /** The newest eligible row with the attempted binding, else the newest eligible row. */
  function MatchedRow(rows: seq<Row>, targets: seq<Place>, head: string, newerThan: nat,
                      attempted: Option<Binding>): Option<Row>
  {
    var matches := PathMatches(rows, targets, head, newerThan);
    if attempted.Some? && FirstExact(matches, attempted.value).Some? then FirstExact(matches, attempted.value)
    else if matches == [] then None
    else Some(matches[0])
  }

  method QueryPendingRestriction(rows: seq<Row>, head: string) returns (p: Pending)
    ensures p == PendingRestriction(rows, head)
  {
    var i := 0;
    while i < |rows|
      invariant 0 <= i <= |rows| && PendingRestriction(rows, head) == PendingRestriction(rows[i..], head)
    {
      var r := rows[i];
      i := i + 1;
      if r.decision !in KNOWN || r.content.Unparseable? {
        continue;
      }
      if r.content.NonObject? || r.content.TooDeep? {
        return Raises;
      }
      if Restricts(r, head) {
        return Newest(r.id);
      }
    }
    return Newest(0);
  }

  method PathsMatch(target: Place, candidates: seq<Place>) returns (matched: bool)
    ensures matched == Among(target, candidates)
  {
    if target.None? {
      return false;
    }
    var i := 0;
    assert candidates[0..] == candidates;
    while i < |candidates|
      invariant 0 <= i <= |candidates| && Among(target, candidates) == Among(target, candidates[i..])
    {
      assert candidates[i..][1..] == candidates[i + 1..];
      if candidates[i].None? {
        return false;
      }
      if candidates[i] == target {
        return true;
      }
      i := i + 1;
    }
    return false;
  }

  method ScopeCovers(files: seq<ScopeEntry>, targets: seq<Place>) returns (covered: bool)
    ensures covered == Covers(files, targets)
  {
    var candidates := PathEntries(files);
    for i := 0 to |targets|
      invariant forall j :: 0 <= j < i ==> Among(targets[j], candidates)
    {
      var matched := PathsMatch(targets[i], candidates);
      if !matched {
        assert targets[i] in targets;
        return false;
      }
    }
    return true;
  }

  method IsEligible(r: Row, targets: seq<Place>, head: string, newerThan: nat) returns (eligible: bool)
    ensures eligible == Eligible(r, targets, head, newerThan)
  {
    if r.id < newerThan || !r.content.Object? || r.content.commit != Some(head) || r.content.scope.None? {
      return false;
    }
    eligible := ScopeCovers(r.content.scope.value, targets);
  }

  method FindPathMatches(rows: seq<Row>, targets: seq<Place>, head: string, newerThan: nat)
    returns (matches: Option<seq<Row>>)
    ensures matches
         == if Chokes(rows, newerThan) then None else Some(PathMatches(rows, targets, head, newerThan))
  {
    var found: seq<Row> := [];
    var i := 0;
    assert rows[0..] == rows;
    while i < |rows|
      invariant 0 <= i <= |rows|
      invariant forall k :: 0 <= k < i ==> !(rows[k].id >= newerThan && rows[k].content.TooDeep?)
      invariant PathMatches(rows, targets, head, newerThan) == found + PathMatches(rows[i..], targets, head, newerThan)
    {
      assert rows[i] in rows;
      if rows[i].id >= newerThan && rows[i].content.TooDeep? {
        return None;
      }
      ghost var rest := PathMatches(rows[i + 1..], targets, head, newerThan);
      assert rows[i..][1..] == rows[i + 1..];
      var eligible := IsEligible(rows[i], targets, head, newerThan);
      if eligible {
        Regroup(found, [rows[i]], rest);
        found := found + [rows[i]];
      } else {
        assert [] + rest == rest;
      }
      i := i + 1;
    }
    assert rows[i..] == [] && found + [] == found;
    return Some(found);
  }

  method FindFirstExact(matches: seq<Row>, attempted: Binding) returns (found: Option<Row>)
    ensures found == FirstExact(matches, attempted)
  {
    var k := 0;
    while k < |matches|
      invariant 0 <= k <= |matches| && FirstExact(matches, attempted) == FirstExact(matches[k..], attempted)
    {
      if CandidateBinding(matches[k]) == Some(attempted) {
        return Some(matches[k]);
      }
      k := k + 1;
    }
    return None;
  }

  datatype Match = Found(row: Row) | NoMatch | Choked

  function Matched(rows: seq<Row>, targets: seq<Place>, head: string, newerThan: nat,
                   attempted: Option<Binding>): Match
  {
    if Chokes(rows, newerThan) then Choked
    else
      match MatchedRow(rows, targets, head, newerThan, attempted)
      case Some(r) => Found(r)
      case None => NoMatch
  }

  method FindMatchedRow(rows: seq<Row>, targets: seq<Place>, head: string, newerThan: nat, attempted: Option<Binding>)
    returns (matched: Match)
    ensures matched == Matched(rows, targets, head, newerThan, attempted)
  {
    var matches := FindPathMatches(rows, targets, head, newerThan);
    if matches.None? {
      return Choked;
    }
    if attempted.Some? {
      var exact := FindFirstExact(matches.value, attempted.value);
      if exact.Some? {
        return Found(exact.value);
      }
    }
    return if matches.value == [] then NoMatch else Found(matches.value[0]);
  }

  // ---- The graph's verdict ----------------------------------------------------------------------------

  const IMPACT_THRESHOLD: real := 0.90
  const ANCHOR_THRESHOLD: real := 0.75

  /**
   What is on file about a target's standing in the import graph; reading it raises when the file is nested too deep,
   the target's path cannot be resolved, or the score is an integer too large for a float.
   */
  datatype Anchor = NoAnchor | Score(value: real) | Throws

  /** What is known about one target: its fan-in percentile and its standing. */
  datatype Evidence = Evidence(percentile: Option<real>, anchor: Anchor)

  /** Whether the edit matters, as far as the graph can tell; or reading the graph raised. */
  datatype Verdict = Impactful | Harmless | Unknown | Breaks

  predicate Alarms(e: Evidence) {
    || (e.percentile.Some? && e.percentile.value >= IMPACT_THRESHOLD)
    || (e.anchor.Score? && e.anchor.value >= ANCHOR_THRESHOLD)
  }

  /** Looking at the target raises: its percentile does not settle it and its score cannot be read. */
  predicate Trips(e: Evidence) {
    !Alarms(e) && e.anchor.Throws?
  }

  predicate Tells(e: Evidence) {
    e.percentile.Some? || !e.anchor.NoAnchor?
  }

  /** The first target that alarms or trips decides; without one, any evidence means harmless. */
  method AnyImpactful(evidence: seq<Evidence>) returns (v: Verdict)
    ensures v.Impactful? <==> exists i :: 0 <= i < |evidence| && Alarms(evidence[i]) && forall j :: 0 <= j < i ==>
      !Trips(evidence[j])
    ensures v.Breaks? <==> exists i :: 0 <= i < |evidence| && Trips(evidence[i]) && forall j :: 0 <= j < i ==>
      !Alarms(evidence[j])
    ensures v.Unknown? <==> forall e <- evidence :: e.percentile.None? && e.anchor.NoAnchor?
    ensures v.Impactful? ==> exists e <- evidence ::
      (e.percentile.Some? && e.percentile.value >= 0.90) || (e.anchor.Score? && e.anchor.value >= 0.75)
    ensures v.Harmless? ==> forall e <- evidence ::
      (e.percentile.Some? ==> e.percentile.value < 0.90) && (e.anchor.Score? ==> e.anchor.value < 0.75)
      && !e.anchor.Throws?
  {
    var seen := false;
    for i := 0 to |evidence|
      invariant forall j :: 0 <= j < i ==> !Alarms(evidence[j]) && !Trips(evidence[j])
      invariant seen <==> exists j :: 0 <= j < i && Tells(evidence[j])
    {
      var e := evidence[i];
      assert e in evidence;
      if e.percentile.Some? {
        seen := true;
        if e.percentile.value >= IMPACT_THRESHOLD {
          return Impactful;
        }
      }
      if e.anchor.Throws? {
        return Breaks;
      }
      if e.anchor.Score? {
        seen := true;
        if e.anchor.value >= ANCHOR_THRESHOLD {
          return Impactful;
        }
      }
    }
    return if seen then Harmless else Unknown;
  }

  // ---- Decisions ------------------------------------------------------------------------------------

  datatype Permission = Continue | ReturnCandidate | RequestHuman

  datatype Tier =
    | Pass | FailOpen | MustConsult | CandidateUnverifiable | CandidateUnbound | CandidateMismatch | CandidateIncomplete
    | Consulted | ConsultedRevise | ConsultedPrerequisite
    | ConsultedReview | ConsultedRejectReview | ConsultedReviewUnavailable

  datatype Risk = Risk(decision: string, scores: Scores)

  datatype GateDecision = GateDecision(
    permission: Permission, tier: Tier, reason: Option<string>, warn: Option<string>, risk: Option<Risk>,
      matched: Option<nat>)

  /** A decision, an error raised on the way to one, or a decision its own constructor refuses. */
  datatype Outcome = Decided(gate: GateDecision) | Errored | Refused

  predicate IsBlank(s: string) {
    forall i :: 0 <= i < |s| ==> s[i] in " \t\n\r"
  }

  function AllowedTiers(p: Permission): set<Tier> {
    match p
    case Continue => {Pass, FailOpen, Consulted}
    case RequestHuman => {ConsultedReview, ConsultedRejectReview}
    case ReturnCandidate =>
      {MustConsult, CandidateUnverifiable, CandidateUnbound, CandidateMismatch, CandidateIncomplete,
       ConsultedRevise, ConsultedPrerequisite, ConsultedReview, ConsultedReviewUnavailable}
  }

  function AllowedRisks(p: Permission, t: Tier): set<string> {
    match (p, t)
    case (Continue, Consulted) => {"proceed"}
    case (ReturnCandidate, ConsultedRevise) => {"revise_safer"}
    case (ReturnCandidate, ConsultedPrerequisite) => {"inspect_first", "test_first"}
    case (RequestHuman, ConsultedReview) => {"ask_human", "proceed"}
    case (RequestHuman, ConsultedRejectReview) => {"reject"}
    case (ReturnCandidate, ConsultedReview) => {"reject"}
    case (ReturnCandidate, ConsultedReviewUnavailable) => {"ask_human", "proceed"}
    case _ => {}
  }

  predicate IsAssessmentId(s: string) {
    |s| >= 5 && s[..4] == "asm_" && s[4] in "123456789" && forall i :: 5 <= i < |s| ==> s[i] in "0123456789"
  }

  function AssessmentId(id: nat): string {
    "asm_" + Decimal(id)
  }

  /** The constructor's own checks. */
  function Make(g: GateDecision): Outcome {
    if g.tier !in AllowedTiers(g.permission) then Refused
    else if !g.permission.Continue? && (g.reason.None? || IsBlank(g.reason.value)) then Refused
    else if g.risk.Some? && g.risk.value.decision !in AllowedRisks(g.permission, g.tier) then Refused
    else if g.tier.ConsultedRejectReview? && g.risk.None? then Refused
    else if g.risk.Some? && (g.matched.None? || !IsAssessmentId(AssessmentId(g.matched.value))) then Refused
    else Decided(g)
  }

  function Warned(warn: string): Outcome {
    Make(GateDecision(Continue, FailOpen, None, Some(warn), None, None))
  }

  function Returned(t: Tier, reason: string): Outcome {
    Make(GateDecision(ReturnCandidate, t, Some(reason), None, None, None))
  }

  const HELD: string := "This exact candidate is held."

  /** Whether the rejection on record may be overridden: it needs the evidence of its gates and a recorded reason. */
  function Override(c: Content): HumanReview.Eligibility
    requires c.Object?
  {
    if c.fired.None? then HumanReview.Ineligible
    else
      var e := HumanReview.OverrideGate(c.fired.value);
      if e.Eligible? && !c.reasoned then HumanReview.Ineligible else e
  }

  /** What the matched row says about the edit once the edit is known to be exactly the assessed candidate. */
  function OnExact(r: Row, consultOnly: bool): Outcome
    requires r.content.Object?
  {
    var risk := if r.content.scores.Some? then Some(Risk(r.decision, r.content.scores.value)) else None;
    var id := Some(r.id);
    if r.decision !in KNOWN then
      Make(GateDecision(ReturnCandidate, MustConsult, Some("Reassess the candidate."), None, None, id))
    else if r.decision == "revise_safer" then
      Make(GateDecision(ReturnCandidate, ConsultedRevise, Some(HELD), None, risk, id))
    else if r.decision == "inspect_first" || r.decision == "test_first" then
      Make(GateDecision(ReturnCandidate, ConsultedPrerequisite, Some(HELD), None, risk, id))
    else if r.decision == "reject" then
      if Override(r.content).Raises? then Errored
      else if !consultOnly && r.content.replay && Override(r.content).Eligible? && risk.Some? then
        Make(GateDecision(RequestHuman, ConsultedRejectReview, Some(HELD), None, risk, id))
      else
        Make(GateDecision(ReturnCandidate, ConsultedReview, Some(HELD), None, risk, id))
    else if r.decision == "ask_human" || r.content.confirmation then
      if consultOnly || !r.content.replay then
        Make(GateDecision(ReturnCandidate, ConsultedReviewUnavailable, Some(HELD), None, risk, id))
      else
        Make(GateDecision(RequestHuman, ConsultedReview, Some(HELD), None, risk, id))
    else
      Make(GateDecision(Continue, Consulted, None, None, risk, id))
  }

  /** The consultation: finds the row to go by and compares the attempted edit with what it binds. */
  function Consult(rows: seq<Row>, targets: seq<Place>, head: string, newerThan: nat, attempted: Option<Binding>,
                   consultOnly: bool): Outcome
  {
    var matched := Matched(rows, targets, head, newerThan, attempted);
    if matched.Choked? then Errored
    else if matched.NoMatch? then Returned(MustConsult, "Consult before editing.")
    else
      var expected := CandidateBinding(matched.row);
      if expected.None? then Returned(CandidateUnbound, "Not the assessed candidate.")
      else if attempted.None? then Returned(CandidateUnverifiable, "Not the assessed candidate.")
      else if attempted.value.algorithm != expected.value.algorithm || attempted.value.files == map[] then
        Returned(CandidateMismatch, "Not the assessed candidate.")
      else if attempted.value.files.Keys != expected.value.files.Keys then
        Returned(CandidateIncomplete, "Apply the candidate atomically.")
      else if exists p :: p in attempted.value.files && expected.value.files[p] != attempted.value.files[p] then
        Returned(CandidateMismatch, "Not the assessed candidate.")
      else if matched.row.content.Object? then OnExact(matched.row, consultOnly)
      else assert false; Errored
  }

  /**
   A proposed edit: whether its event can be read at all, its target files, or a patch text from which none could be
   read, and the candidate it amounts to.
   */
  datatype Edit = Edit(readable: bool, targets: seq<Place>, patchText: bool, attempted: Option<Binding>)

  /**
   Everything the gate observes: the repository root, the graph's verdict on the targets, the HEAD commit, and
   the store at the two moments it is read.
   */
  datatype Observed = Observed(rootFound: bool, graph: Verdict, head: Head, first: Store, second: Store)

  function Limited(rows: seq<Row>): seq<Row> {
    if |rows| <= QUERY_LIMIT then rows else rows[..QUERY_LIMIT]
  }

  function Decide(edit: Edit, o: Observed, consultOnly: bool, exact: bool): Outcome {
    if !edit.readable then Errored
    else if edit.targets == [] then
      if edit.patchText then Returned(CandidateUnverifiable, "The patch could not be parsed.")
      else Make(GateDecision(Continue, Pass, None, None, None, None))
    else if !o.rootFound then Warned("gate: repo root unresolved")
    else if o.graph.Breaks? then Errored
    else if !o.graph.Impactful? && !exact then
      if o.head.Garbled? then Errored
      else if o.head.At? && o.first.Raising? then Errored
      else if o.head.At? && o.first.Unreadable? then Warned("gate: assessment store unavailable")
      else if o.head.NoHead? || PendingRestriction(o.first.rows, o.head.commit) == Newest(0) then
        if o.graph.Unknown? then Warned("gate: graph unavailable; skipping consult check")
        else Make(GateDecision(Continue, Pass, None, None, None, None))
      else
        match PendingRestriction(o.first.rows, o.head.commit)
        case Raises => Errored
        case Newest(id) => ConsultStore(edit, o, id, consultOnly)
    else if o.head.Garbled? then Errored
    else if o.head.NoHead? then Warned("gate: git HEAD unavailable; skipping consult check")
    else ConsultStore(edit, o, 0, consultOnly)
  }

  /** The second reading of the store, and the consultation. */
  function ConsultStore(edit: Edit, o: Observed, newerThan: nat, consultOnly: bool): Outcome
    requires o.head.At?
  {
    match o.second
    case Unreadable => Warned("gate: assessment store unavailable")
    case Raising => Errored
    case Readable(rows) => Consult(Limited(rows), edit.targets, o.head.commit, newerThan, edit.attempted, consultOnly)
  }
}
