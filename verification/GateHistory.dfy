/** What the gate's answer depends on: a restriction holds until a newer row lifts it, and where that promise stops. */
module GateHistory {
  import opened Wrappers
  import opened Gate
  import opened GateConsult
  import HumanReview

  // ---- Pending restrictions ------------------------------------------------------------------------

  /**
   A stored decision whose content is no object or nested too deep, which the reader of restrictions does not
   survive.
   */
  predicate Unsurvivable(r: Row) {
    r.decision in KNOWN && (r.content.NonObject? || r.content.TooDeep?)
  }

  /** `u` is unsurvivable and newer than every restriction at `head`. */
  ghost predicate Blocks(rows: seq<Row>, head: string, u: Row) {
    u in rows && Unsurvivable(u) && forall r <- rows :: Restricts(r, head) ==> r.id < u.id
  }

  /** Reading restrictions fails just when an unsurvivable row is newer than all of them. */
  lemma {:induction false} PendingRaisesIff(rows: seq<Row>, head: string)
    requires NewestFirst(rows)
    ensures PendingRestriction(rows, head).Raises? <==> exists u :: Blocks(rows, head, u)
  {
    if rows != [] {
      var rest := rows[1..];
      PendingRaisesIff(rest, head);
      assert forall r <- rest :: r.id < rows[0].id;
      if Unsurvivable(rows[0]) {
        assert Blocks(rows, head, rows[0]);
      } else if Restricts(rows[0], head) {
        assert forall u :: !Blocks(rows, head, u);
      } else {
        assert forall u :: Blocks(rows, head, u) <==> Blocks(rest, head, u) by {
          assert forall r :: r in rows <==> r == rows[0] || r in rest;
        }
      }
    }
  }

  /** Otherwise it finds the newest restriction at `head`, or 0 when there is none. */
  lemma {:induction false} PendingIsNewest(rows: seq<Row>, head: string)
    requires NewestFirst(rows) && PendingRestriction(rows, head).Newest?
    ensures forall r <- rows :: Restricts(r, head) ==> 0 < r.id <= PendingRestriction(rows, head).id
    ensures PendingRestriction(rows, head).id > 0 ==>
      exists r <- rows :: Restricts(r, head) && r.id == PendingRestriction(rows, head).id
  {
    if rows != [] {
      var rest := rows[1..];
      assert forall r <- rest :: r.id < rows[0].id;
      assert forall r :: r in rows <==> r == rows[0] || r in rest;
      if !Restricts(rows[0], head) {
        PendingIsNewest(rest, head);
      }
    }
  }

  /** The second reading of the store: nothing is lost, and what is new has a larger id than anything read before. */
  ghost predicate Extends(first: seq<Row>, second: seq<Row>) {
    && (forall r <- first :: r in second)
    && forall r <- second :: r in first || forall e <- first :: e.id < r.id
  }

  /** The edit goes through the check for pending restrictions instead of a full consultation. */
  predicate Unforced(o: Observed, exact: bool) {
    o.rootFound && !o.graph.Impactful? && !o.graph.Breaks? && !exact
  }

  lemma LimitedKeepsOrder(rows: seq<Row>)
    requires NewestFirst(rows)
    ensures NewestFirst(Limited(rows)) && forall r <- Limited(rows) :: r in rows
  {
  }

  lemma HeldEditsAreConsulted(edit: Edit, o: Observed, consultOnly: bool)
    requires edit.readable && edit.targets != [] && Unforced(o, false)
    requires o.head.At? && o.first.Readable? && o.second.Readable?
    requires PendingRestriction(o.first.rows, o.head.commit).Newest?
      && PendingRestriction(o.first.rows, o.head.commit).id > 0
    ensures Decide(edit, o, consultOnly, false)
         == ConsultFor(Limited(o.second.rows), edit, o.head.commit, PendingRestriction(o.first.rows, o.head.commit).id,
           consultOnly)
  {
  }

  lemma LiftsIsNotHeld(o: Observed, held: Row, m: Row)
    requires o.head.At? && o.first.Readable? && o.second.Readable?
    requires NewestFirst(o.second.rows) && Extends(o.first.rows, o.second.rows)
    requires held in o.first.rows && Restricts(held, o.head.commit)
    requires m in o.second.rows && m.decision == "proceed" && m.content.Object? && !m.content.confirmation
    requires m.id >= held.id
    ensures m.id > held.id
  {
  }

  /**
   Restrictions stick. With a restriction on record at HEAD and a store that can be read, an edit is allowed
   exactly when a row lifts the gate, and every such row is newer than every restriction.
   */
  lemma RestrictionsStick(edit: Edit, o: Observed, consultOnly: bool, held: Row)
    requires edit.readable && edit.targets != [] && Unforced(o, false)
    requires o.head.At? && o.first.Readable? && o.second.Readable?
    requires NewestFirst(o.first.rows) && NewestFirst(o.second.rows) && Extends(o.first.rows, o.second.rows)
    requires held in o.first.rows && Restricts(held, o.head.commit)
    requires PendingRestriction(o.first.rows, o.head.commit).Newest?
    ensures var pending := PendingRestriction(o.first.rows, o.head.commit).id;
      var rows := Limited(o.second.rows);
      && (Continues(Decide(edit, o, consultOnly, false)) <==>
          !Chokes(rows, pending) && exists m :: Lifts(rows, edit, o.head.commit, pending, m))
      && forall m :: Lifts(rows, edit, o.head.commit, pending, m) ==>
           m.id > held.id && (Chokes(rows, pending) || Clears(Decide(edit, o, consultOnly, false), m.id))
  {
    var head := o.head.commit;
    var pending := PendingRestriction(o.first.rows, head).id;
    var rows := Limited(o.second.rows);
    PendingIsNewest(o.first.rows, head);
    HeldEditsAreConsulted(edit, o, consultOnly);
    LimitedKeepsOrder(o.second.rows);
    ConsultContinuesIff(rows, edit, head, pending, consultOnly);
    forall m | Lifts(rows, edit, head, pending, m) ensures m.id > held.id {
      LiftsIsNotHeld(o, held, m);
    }
  }

  // ---- Where the promise stops ---------------------------------------------------------------------

  /** The id below which rows are not considered. */
  function Floor(o: Observed, exact: bool): nat {
    if Unforced(o, exact) && o.head.At? && o.first.Readable? && PendingRestriction(o.first.rows, o.head.commit).Newest?
    then PendingRestriction(o.first.rows, o.head.commit).id else 0
  }

  ghost predicate WellKept(o: Observed) {
    (o.first.Readable? ==> NewestFirst(o.first.rows)) && (o.second.Readable? ==> NewestFirst(o.second.rows))
  }

  /** No input makes the gate build a decision its own constructor refuses. */
  lemma NeverRefused(edit: Edit, o: Observed, consultOnly: bool, exact: bool)
    requires WellKept(o)
    ensures !Decide(edit, o, consultOnly, exact).Refused?
  {
    PatchIsToldApart();
    if o.head.At? && o.second.Readable? {
      LimitedKeepsOrder(o.second.rows);
      ConsultErrsIff(Limited(o.second.rows), edit, o.head.commit, Floor(o, exact), consultOnly);
    }
  }

  lemma PatchIsToldApart()
    ensures Returned(CandidateUnverifiable, "The patch could not be parsed.").Decided?
  {
    ReasonsAreNotBlank();
  }

  /**
   Looking for a pending restriction, the store cannot be looked up or a row not survived comes before any
   restriction.
   */
  ghost predicate ScanErrs(o: Observed, head: string) {
    o.first.Raising? || (o.first.Readable? && exists u :: Blocks(o.first.rows, head, u))
  }

  /** The edit is put to the assessments: it is forced, or a restriction is pending. */
  ghost predicate IsConsulted(o: Observed, exact: bool, head: string) {
    Unforced(o, exact) ==> o.first.Readable? && !ScanErrs(o, head) && exists r <- o.first.rows :: Restricts(r, head)
  }

  /**
   The store cannot be looked up, or the consultation meets content nested too deep or goes by a rejection whose gate
   evidence cannot be read.
   */
  ghost predicate ConsultErrs(edit: Edit, o: Observed, exact: bool, head: string) {
    && IsConsulted(o, exact, head)
    && match o.second
       case Unreadable => false
       case Raising => true
       case Readable(all) =>
         Chokes(Limited(all), Floor(o, exact)) || FaultyMatch(Limited(all), edit, head, Floor(o, exact))
  }

  /** At a HEAD, the scan for restrictions or the consultation fails. */
  ghost predicate ErrsAtHead(edit: Edit, o: Observed, exact: bool, head: string) {
    (Unforced(o, exact) && ScanErrs(o, head)) || ConsultErrs(edit, o, exact, head)
  }

  /**
   No decision at all, for any event, graph, HEAD, store, history and flags: exactly when the event cannot be read, or,
   on an edit that has targets, the graph or HEAD cannot, or at a HEAD the scan for restrictions or the consultation
   fails.
   */
  lemma NoDecisionIff(edit: Edit, o: Observed, consultOnly: bool, exact: bool)
    requires WellKept(o)
    ensures Decide(edit, o, consultOnly, exact).Errored? <==>
      || !edit.readable
      || (edit.targets != [] && o.rootFound
          && (o.graph.Breaks? || o.head.Garbled? || (o.head.At? && ErrsAtHead(edit, o, exact, o.head.commit))))
  {
    if edit.readable && edit.targets != [] && o.rootFound && !o.graph.Breaks? && o.head.At? {
      if Unforced(o, exact) {
        NoScanDecisionIff(edit, o, consultOnly, exact);
      } else if o.second.Readable? {
        ConsultationErrsIff(edit, o, consultOnly, exact);
      }
    }
  }

  lemma ConsultationErrsIff(edit: Edit, o: Observed, consultOnly: bool, exact: bool)
    requires o.head.At? && o.second.Readable? && NewestFirst(o.second.rows)
    ensures var rows := Limited(o.second.rows);
      ConsultFor(rows, edit, o.head.commit, Floor(o, exact), consultOnly).Errored? <==>
        Chokes(rows, Floor(o, exact)) || FaultyMatch(rows, edit, o.head.commit, Floor(o, exact))
  {
    LimitedKeepsOrder(o.second.rows);
    ConsultErrsIff(Limited(o.second.rows), edit, o.head.commit, Floor(o, exact), consultOnly);
  }

  lemma NoScanDecisionIff(edit: Edit, o: Observed, consultOnly: bool, exact: bool)
    requires WellKept(o) && edit.readable && edit.targets != [] && o.head.At? && Unforced(o, exact)
    ensures Decide(edit, o, consultOnly, exact).Errored?
      <==> ErrsAtHead(edit, o, exact, o.head.commit)
  {
    if o.first.Readable? {
      var head := o.head.commit;
      PendingRaisesIff(o.first.rows, head);
      if PendingRestriction(o.first.rows, head).Newest? {
        PendingMeans(o.first.rows, head);
        if o.second.Readable? {
          ConsultationErrsIff(edit, o, consultOnly, exact);
        }
      }
    }
  }

  /** A scan that finds something found a restriction. */
  lemma PendingMeans(rows: seq<Row>, head: string)
    requires NewestFirst(rows) && PendingRestriction(rows, head).Newest?
    ensures PendingRestriction(rows, head).id > 0 <==> exists r <- rows :: Restricts(r, head)
  {
    PendingIsNewest(rows, head);
  }

  /** Nothing on record at HEAD restricts, and everything read there is an object or unreadable JSON. */
  ghost predicate NothingPending(rows: seq<Row>, head: string) {
    forall r <- rows :: !Restricts(r, head) && !Unsurvivable(r)
  }

  lemma {:induction false} PendingNoneIff(rows: seq<Row>, head: string)
    requires NewestFirst(rows)
    ensures PendingRestriction(rows, head) == Newest(0) <==> NothingPending(rows, head)
  {
    if rows != [] {
      PendingNoneIff(rows[1..], head);
      NothingPendingStep(rows, head);
    }
  }

  lemma NothingPendingStep(rows: seq<Row>, head: string)
    requires rows != []
    ensures NothingPending(rows, head) <==>
      !Restricts(rows[0], head) && !Unsurvivable(rows[0]) && NothingPending(rows[1..], head)
  {
    assert forall r :: r in rows <==> r == rows[0] || r in rows[1..];
    assert rows[0] in rows;
  }

  /**
   An edit the graph calls impactful, or that must match exactly, is judged on all of the readable history, whatever
   restricts.
   */
  lemma ForcedContinuesIff(edit: Edit, o: Observed, consultOnly: bool, exact: bool)
    requires edit.readable && edit.targets != [] && o.rootFound && !o.graph.Breaks? && !Unforced(o, exact)
    requires o.head.At? && o.second.Readable? && NewestFirst(o.second.rows)
    ensures var rows := Limited(o.second.rows);
      && (Continues(Decide(edit, o, consultOnly, exact)) <==>
          !Chokes(rows, 0) && exists m :: Lifts(rows, edit, o.head.commit, 0, m))
      && forall m :: Lifts(rows, edit, o.head.commit, 0, m) && !Chokes(rows, 0) ==>
           Clears(Decide(edit, o, consultOnly, exact), m.id)
  {
    LimitedKeepsOrder(o.second.rows);
    ConsultContinuesIff(Limited(o.second.rows), edit, o.head.commit, 0, consultOnly);
  }

  /**
   So there a restriction does not stick: an older approval of the very same edit still lifts the gate although
   a newer row at the same HEAD, for another candidate, restricts.
   */
  lemma ForcedEditOutlivesRestriction(b: Binding)
    requires CandidateBinding(Approval(b)) == Some(b)
    ensures Restricts(Objection(), "h") && Objection().id > Approval(b).id
    ensures var rows := [Objection(), Approval(b)];
      NewestFirst(rows) && Continues(Decide(EditOf(b), Seen(rows), false, false))
  {
    var rows := [Objection(), Approval(b)];
    assert Restricts(Objection(), "h") by {
      assert "ask_human" in KNOWN;
    }
    assert rows[0] == Objection() && rows[1] == Approval(b);
    assert NewestFirst(rows);
    assert Lifts(Limited(rows), EditOf(b), "h", 0, Approval(b)) by {
      assert CandidateBinding(Objection()).None?;
      assert Approval(b) in rows;
    }
    assert forall r <- rows :: r == rows[0] || r == rows[1];
    ForcedContinuesIff(EditOf(b), Seen(rows), false, false);
  }

  function ScopeOfA(): (files: seq<ScopeEntry>)
    ensures Covers(files, [Some("a")])
  {
    var e := Text("a", Some("a"));
    assert IsPath(e) && PathEntries([e][1..]) == [] && PathEntries([e]) == [Some("a")];
    [e]
  }

  /** An edit of `a`, impactful, at HEAD `h`, with these rows on record. */
  function EditOf(b: Binding): Edit {
    Edit(true, [Some("a")], false, Some(b))
  }

  function Seen(rows: seq<Row>): Observed {
    Observed(true, Impactful, At("h"), Readable(rows), Readable(rows))
  }

  /** A rejection of the very edit by gate 4, on a utility that is an integer too large for a float. */
  function Rejection(b: Binding): Row {
    var gate := HumanReview.Fired(
      4, "negative_rau", false, HumanReview.NotANumber, HumanReview.NotANumber, HumanReview.Oversize,
        HumanReview.NotANumber);
    Row(1, "reject", Object(Some("h"), false, Some(ScopeOfA()), Some(b), None, false, Some([gate]), true))
  }

  /** One such row is enough for no decision, whoever asks. */
  lemma OversizeEvidenceIsFatal(b: Binding, consultOnly: bool, exact: bool)
    requires CandidateBinding(Rejection(b)) == Some(b)
    ensures NewestFirst([Rejection(b)]) && Decide(EditOf(b), Seen([Rejection(b)]), consultOnly, exact).Errored?
  {
    var r := Rejection(b);
    var rows := [r];
    assert rows[0] == r && Limited(rows) == rows;
    OversizeRaises(r.content.fired.value);
    assert Faults(r);
    assert NewestExact(rows, [Some("a")], "h", 0, b, r);
    assert FaultyMatch(rows, EditOf(b), "h", 0);
    NoDecisionIff(EditOf(b), Seen(rows), consultOnly, exact);
  }

  lemma OversizeRaises(fired: seq<HumanReview.Fired>)
    requires |fired| == 1 && fired[0].Fired? && !fired[0].advisory && fired[0].gate == 4
      && fired[0].name == "negative_rau"
    requires fired[0].rau.Oversize?
    ensures HumanReview.OverrideGate(fired).Raises?
  {
    assert forall f <- fired :: f == fired[0];
  }

  /** So is a store that cannot be looked up, on any edit that has targets and is put to it. */
  lemma UnsearchableStoreIsFatal(b: Binding, consultOnly: bool, exact: bool)
    ensures Decide(EditOf(b), Seen([]).(first := Raising, second := Raising), consultOnly, exact).Errored?
  {
    NoDecisionIff(EditOf(b), Seen([]).(first := Raising, second := Raising), consultOnly, exact);
  }

  /** So is one row, of any decision and any commit, whose content is nested too deep. */
  lemma DeepContentIsFatal(decision: string, b: Binding, consultOnly: bool, exact: bool)
    ensures var r := Row(1, decision, TooDeep);
      NewestFirst([r]) && Decide(EditOf(b), Seen([r]), consultOnly, exact).Errored?
  {
    var r := Row(1, decision, TooDeep);
    var rows := [r];
    assert rows[0] == r && Limited(rows) == rows;
    assert r in rows;
    assert Chokes(rows, 0);
    NoDecisionIff(EditOf(b), Seen(rows), consultOnly, exact);
  }

  function Approval(b: Binding): Row {
    Row(1, "proceed", Object(Some("h"), false, Some(ScopeOfA()), Some(b), None, false, None, false))
  }

  function Objection(): Row {
    Row(2, "ask_human", Object(Some("h"), false, Some(ScopeOfA()), None, None, false, None, false))
  }

  /** Whole decisions, too, ignore what is older than an exact match among the rows read, as long as it reads alike. */
  lemma OlderHistoryHasNoSay(edit: Edit, o: Observed, newer: seq<Row>, older: seq<Row>, other: seq<Row>,
                             consultOnly: bool, exact: bool)
    requires o.second == Readable(newer + older) && |newer| <= QUERY_LIMIT
    requires edit.attempted.Some? && o.head.At?
    requires exists m <- newer :: Exact(m, edit.targets, o.head.commit, Floor(o, exact), edit.attempted.value)
    requires Chokes(Rest(newer, older), Floor(o, exact)) == Chokes(Rest(newer, other), Floor(o, exact))
    ensures Decide(edit, o, consultOnly, exact)
      == Decide(edit, o.(second := Readable(newer + other)), consultOnly, exact)
  {
    var floor := Floor(o, exact);
    LimitedAppend(newer, older);
    LimitedAppend(newer, other);
    OlderRowsHaveNoSay(newer, Rest(newer, older), edit, o.head.commit, floor, consultOnly);
    OlderRowsHaveNoSay(newer, Rest(newer, other), edit, o.head.commit, floor, consultOnly);
    DecideByRows(edit, o, newer + other, consultOnly, exact);
  }

  /** The second reading of the store matters only through the consultation. */
  lemma DecideByRows(edit: Edit, o: Observed, rows: seq<Row>, consultOnly: bool, exact: bool)
    requires o.second.Readable? && o.head.At?
    requires ConsultFor(Limited(o.second.rows), edit, o.head.commit, Floor(o, exact), consultOnly)
          == ConsultFor(Limited(rows), edit, o.head.commit, Floor(o, exact), consultOnly)
    ensures Decide(edit, o, consultOnly, exact) == Decide(edit, o.(second := Readable(rows)), consultOnly, exact)
  {
  }

  /** What is read of the older rows after the newer ones. */
  function Rest(newer: seq<Row>, older: seq<Row>): seq<Row>
    requires |newer| <= QUERY_LIMIT
  {
    if |older| <= QUERY_LIMIT - |newer| then older else older[..QUERY_LIMIT - |newer|]
  }

  lemma LimitedAppend(newer: seq<Row>, older: seq<Row>)
    requires |newer| <= QUERY_LIMIT
    ensures Limited(newer + older) == newer + Rest(newer, older)
  {
  }
}
