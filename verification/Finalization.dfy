/**
 Closing one assessment from trusted host evidence: record the terminal outcome, measure it, both exactly once,
 with any number of retries racing and any of them dying at any point.
 */
module Finalization {
  import opened Wrappers

  const LABEL_SOURCE: string := "_pebra_label_source"

  datatype Record = Record(status: string, detail: map<string, string>)

  /** One measurement: how many prediction errors it appended, and whether they count for production. */
  datatype Measurement = Measurement(rows: nat, proceeded: bool)

  /** What is stored about the assessment; the number of captured predictions never changes. */
  datatype Store = Store(predictions: nat, outcomes: seq<Record>, measurements: seq<Measurement>)

  /** A call: the status and detail the host reports, and whether recording them would be accepted at all. */
  datatype Request = Request(status: string, detail: map<string, string>, valid: bool)

  datatype Failure = Conflict | Invalid | NoManifest | NoOutcome | AlreadyMeasured

  function Trusted(detail: map<string, string>): map<string, string> {
    detail[LABEL_SOURCE := "host"]
  }

  function RecordOf(q: Request): Record {
    Record(q.status, Trusted(q.detail))
  }

  /** A record is the request's own if status and detail agree; a record without a label source counts as the host's. */
  predicate Matches(r: Record, q: Request) {
    && r.status == q.status
    && (if LABEL_SOURCE in r.detail then r.detail else r.detail[LABEL_SOURCE := "host"]) == Trusted(q.detail)
  }

  /**
   Status and detail are those of the request, whatever it said of where its labels come from; the record says they come
   from the host, or nothing.
   */
  ghost predicate IsOwn(r: Record, q: Request) {
    && r.status == q.status
    && (forall k :: k != LABEL_SOURCE ==> (k in r.detail <==> k in q.detail))
    && (forall k :: k in r.detail && k != LABEL_SOURCE ==> r.detail[k] == q.detail[k])
    && (LABEL_SOURCE in r.detail ==> r.detail[LABEL_SOURCE] == "host")
  }

  lemma MatchesIff(r: Record, q: Request)
    ensures Matches(r, q) <==> IsOwn(r, q)
  {
    var labelled := if LABEL_SOURCE in r.detail then r.detail else r.detail[LABEL_SOURCE := "host"];
    if Matches(r, q) {
      forall k | k != LABEL_SOURCE ensures k in r.detail <==> k in q.detail {
        assert k in labelled <==> k in Trusted(q.detail);
      }
      forall k | k in r.detail && k != LABEL_SOURCE ensures r.detail[k] == q.detail[k] {
        assert labelled[k] == Trusted(q.detail)[k];
      }
    }
    if IsOwn(r, q) {
      assert labelled == Trusted(q.detail);
    }
  }

  /** Prediction errors are on record. */
  predicate Measured(s: Store) {
    exists m <- s.measurements :: m.rows > 0
  }

  function MeasurementFor(s: Store): Measurement
    requires s.outcomes != []
  {
    Measurement(s.predictions, s.outcomes[|s.outcomes| - 1].status == "completed")
  }

  // ---- The store's own transactions -----------------------------------------------------------------

  /** Appends the outcome unless there is one. */
  function RecordOutcome(s: Store, r: Record): Option<Store> {
    if s.outcomes == [] then Some(s.(outcomes := [r])) else None
  }

  /** Appends the measurement unless prediction errors exist. */
  function WriteMeasurement(s: Store, m: Measurement): Option<Store> {
    if Measured(s) then None else Some(s.(measurements := s.measurements + [m]))
  }

  // ---- One call, undisturbed --------------------------------------------------------------------------

  class Lifecycle {
    var store: Store

    constructor (predictions: nat)
      ensures store == Store(predictions, [], [])
    {
      store := Store(predictions, [], []);
    }

    method MatchingRecordedOutcome(q: Request) returns (found: bool, conflict: bool)
      ensures store.outcomes == [] ==> !found && !conflict
      ensures store.outcomes != [] ==>
        found == Matches(store.outcomes[|store.outcomes| - 1], q) && conflict == !found
    {
      if store.outcomes == [] {
        return false, false;
      }
      found := Matches(store.outcomes[|store.outcomes| - 1], q);
      conflict := !found;
    }

    /** Measures once: a second measurement is an error that leaves the store as it is. */
    method MeasureLearning() returns (failure: Option<Failure>)
      modifies this
      ensures failure.None? <==> old(store).predictions > 0 && old(store).outcomes != [] && !Measured(old(store))
      ensures failure.Some? ==> store == old(store)
      ensures failure.None? ==>
        var s := old(store);
        store == s.(measurements := s.measurements
          + [Measurement(s.predictions, s.outcomes[|s.outcomes| - 1].status == "completed")])
      ensures failure.None? ==> Measured(store)
      ensures failure == Some(NoManifest) <==> old(store).predictions == 0
      ensures failure == Some(NoOutcome) <==> old(store).predictions > 0 && old(store).outcomes == []
      ensures failure == Some(AlreadyMeasured) <==>
        old(store).predictions > 0 && old(store).outcomes != [] && Measured(old(store))
    {
      ghost var before := store;
      if store.predictions == 0 {
        return Some(NoManifest);
      }
      if store.outcomes == [] {
        return Some(NoOutcome);
      }
      if Measured(store) {
        return Some(AlreadyMeasured);
      }
      var written := WriteMeasurement(store, MeasurementFor(store));
      store := written.value;
      assert store.measurements[|before.measurements|] == MeasurementFor(before);
      failure := None;
    }

    /**
     What a call does to the store when nobody interferes is the function `Finalized`: it records the outcome unless
     there is one, accepts one only if it is the call's own, and measures it unless that has been done.
     */
    method FinalizeOutcome(q: Request) returns (failure: Option<Failure>)
      requires Sound(store)
      modifies this
      ensures Sound(store) && store == Finalized(old(store), q)
      ensures failure.None? <==> store.outcomes != [] && Matches(store.outcomes[0], q) && Measured(store)
      ensures var s := old(store);
        && (failure.None? <==> Accepted(s, q) && s.predictions > 0)
        && (failure == Some(Invalid) <==> s.outcomes == [] && !q.valid)
        && (failure == Some(Conflict) <==> s.outcomes != [] && !IsOwn(s.outcomes[0], q))
        && (failure == Some(NoManifest) <==> Accepted(s, q) && s.predictions == 0)
        && store.predictions == s.predictions
        && (if s.outcomes == [] && q.valid then
              |store.outcomes| == 1 && IsOwn(store.outcomes[0], q) && LABEL_SOURCE in store.outcomes[0].detail
            else store.outcomes == s.outcomes)
        && store.measurements == if Accepted(s, q) && s.predictions > 0 && s.measurements == []
          then [Measurement(s.predictions, q.status == "completed")] else s.measurements
    {
      if store.outcomes != [] {
        MatchesIff(store.outcomes[0], q);
      }
      MatchesIff(RecordOf(q), q);
      if store.outcomes != [] {
        var found, conflict := MatchingRecordedOutcome(q);
        if conflict {
          return Some(Conflict);
        }
      } else {
        if !q.valid {
          return Some(Invalid);
        }
        var recorded := RecordOutcome(store, RecordOf(q));
        store := recorded.value;
      }
      if !Measured(store) {
        ghost var before := store;
        failure := MeasureLearning();
        if failure.None? {
          assert before.measurements + [MeasurementFor(before)] == [MeasurementFor(before)];
          assert MeasurementFor(store) == MeasurementFor(before);
        }
        return;
      }
      failure := None;
    }
  }

  /** The request is good for closing the assessment: acceptable, if nothing is recorded, or what is recorded. */
  ghost predicate Accepted(s: Store, q: Request) {
    if s.outcomes == [] then q.valid else IsOwn(s.outcomes[0], q)
  }

  /** At most one outcome and one measurement, the measurement being of that outcome and of every prediction. */
  ghost predicate Sound(s: Store) {
    && |s.outcomes| <= 1 && |s.measurements| <= 1
    && (s.measurements != [] ==> s.predictions > 0 && s.outcomes != [] && s.measurements == [MeasurementFor(s)])
  }

  /** Closed and measured. */
  ghost predicate Complete(s: Store) {
    s.outcomes != [] && s.measurements == [MeasurementFor(s)]
  }

  /** Where a call leaves the store. */
  function Finalized(s: Store, q: Request): Store {
    if s.outcomes == [] then
      if !q.valid then s
      else
        var recorded := s.(outcomes := [RecordOf(q)]);
        if s.predictions == 0 then recorded else recorded.(measurements := [MeasurementFor(recorded)])
    else if Matches(s.outcomes[0], q) && s.predictions > 0 && s.measurements == []
      then s.(measurements := [MeasurementFor(s)])
    else s
  }

  // ---- Many calls -----------------------------------------------------------------------------------

  type Pid = nat

  datatype Pc =
    | Idle
    | Begun(q: Request)
    | Recording(q: Request)
    | Rejected(q: Request)
    | Closed(q: Request)
    | Measuring(q: Request)
    | Writing(q: Request, m: Measurement)
    | Returned(q: Request)
    | Failed(q: Request, why: Failure)

  datatype State = State(store: Store, procs: map<Pid, Pc>)

  function At(s: State, p: Pid): Pc {
    if p in s.procs then s.procs[p] else Idle
  }

  datatype Event = Call(p: Pid, q: Request) | Advance(p: Pid) | Crash(p: Pid)

  /** What the outcome on record means for a request that looks at it. */
  function Judged(s: Store, q: Request, none: Pc): Pc {
    if s.outcomes == [] then none
    else if Matches(s.outcomes[|s.outcomes| - 1], q) then Closed(q)
    else Failed(q, Conflict)
  }

  /** One atomic action of a call. */
  function Act(s: Store, pc: Pc): State
    requires !pc.Idle? && !pc.Returned? && !pc.Failed?
  {
    match pc
    case Begun(q) => State(s, map[0 := Judged(s, q, Recording(q))])
    case Recording(q) =>
      if !q.valid || RecordOutcome(s, RecordOf(q)).None? then State(s, map[0 := Rejected(q)])
      else State(RecordOutcome(s, RecordOf(q)).value, map[0 := Closed(q)])
    case Rejected(q) => State(s, map[0 := Judged(s, q, Failed(q, Invalid))])
    case Closed(q) => State(s, map[0 := if Measured(s) then Returned(q) else Measuring(q)])
    case Measuring(q) =>
      State(s, map[0 :=
        if s.predictions == 0 then Failed(q, NoManifest)
        else if s.outcomes == [] then Failed(q, NoOutcome)
        else if Measured(s) then Failed(q, AlreadyMeasured)
        else Writing(q, MeasurementFor(s))])
    case Writing(q, m) =>
      State(if WriteMeasurement(s, m).Some? then WriteMeasurement(s, m).value else s, map[0 := Returned(q)])
  }

  predicate Running(pc: Pc) {
    !pc.Idle? && !pc.Returned? && !pc.Failed?
  }

  ghost predicate Step(s: State, e: Event, s': State) {
    match e
    case Call(p, q) => !Running(At(s, p)) && s' == s.(procs := s.procs[p := Begun(q)])
    case Advance(p) =>
      Running(At(s, p)) && s' == State(Act(s.store, At(s, p)).store, s.procs[p := At(Act(s.store, At(s, p)), 0)])
    case Crash(p) => s' == s.(procs := s.procs[p := Idle])
  }

  ghost predicate Run(states: seq<State>, events: seq<Event>) {
    && |states| == |events| + 1
    && states[0].procs == map[] && states[0].store.outcomes == [] && states[0].store.measurements == []
    && forall i {:trigger events[i]} :: 0 <= i < |events| ==> Step(states[i], events[i], states[i + 1])
  }

  /** A call that takes up to `n` steps with nobody in between. */
  function Alone(s: Store, pc: Pc, n: nat): State
    decreases n
  {
    if n == 0 || !Running(pc) then State(s, map[0 := pc])
    else Alone(Act(s, pc).store, At(Act(s, pc), 0), n - 1)
  }

  lemma ClosedAlone(s: Store, q: Request)
    requires Sound(s) && s.outcomes != []
    ensures Alone(s, Closed(q), 3) ==
      if s.measurements != [] then State(s, map[0 := Returned(q)])
      else if s.predictions == 0 then State(s, map[0 := Failed(q, NoManifest)])
      else State(s.(measurements := [MeasurementFor(s)]), map[0 := Returned(q)])
  {
    if s.measurements != [] {
      assert s.measurements[0] in s.measurements && Measured(s);
      assert Act(s, Closed(q)) == State(s, map[0 := Returned(q)]);
    } else {
      assert Alone(s, Closed(q), 3) == Alone(s, Measuring(q), 2);
      if s.predictions > 0 {
        assert Alone(s, Measuring(q), 2) == Alone(s, Writing(q, MeasurementFor(s)), 1);
        assert s.measurements + [MeasurementFor(s)] == [MeasurementFor(s)];
        var measured := s.(measurements := [MeasurementFor(s)]);
        assert Act(s, Writing(q, MeasurementFor(s))) == State(measured, map[0 := Returned(q)]);
        assert Alone(s, Writing(q, MeasurementFor(s)), 1) == Alone(measured, Returned(q), 0);
      }
    }
  }

  /** The steps of a call, taken alone, are the undisturbed call: five at most, and then it has returned or failed. */
  lemma AloneIsUndisturbed(s: Store, q: Request)
    requires Sound(s)
    ensures var t := Alone(s, Begun(q), 5);
      && t.store == Finalized(s, q)
      && (At(t, 0) == Returned(q) <==> Accepted(s, q) && s.predictions > 0)
      && (At(t, 0) == Failed(q, Invalid) <==> s.outcomes == [] && !q.valid)
      && (At(t, 0) == Failed(q, Conflict) <==> s.outcomes != [] && !IsOwn(s.outcomes[0], q))
      && (At(t, 0) == Failed(q, NoManifest) <==> Accepted(s, q) && s.predictions == 0)
  {
    if s.outcomes != [] {
      MatchesIff(s.outcomes[0], q);
      assert Act(s, Begun(q)) == State(s, map[0 := Judged(s, q, Recording(q))]);
      if Matches(s.outcomes[0], q) {
        assert Alone(s, Begun(q), 5) == Alone(s, Closed(q), 4);
        ClosedAlone(s, q);
        AloneIsDone(s, Closed(q), 3, 4);
      }
    } else {
      assert Alone(s, Begun(q), 5) == Alone(s, Recording(q), 4);
      if q.valid {
        var recorded := s.(outcomes := [RecordOf(q)]);
        assert Alone(s, Recording(q), 4) == Alone(recorded, Closed(q), 3);
        ClosedAlone(recorded, q);
      } else {
        assert Alone(s, Recording(q), 4) == Alone(s, Rejected(q), 3);
      }
    }
  }

  /** Once a call is over, more steps change nothing. */
  lemma {:induction false} AloneIsDone(s: Store, pc: Pc, n: nat, m: nat)
    requires n <= m && !Running(At(Alone(s, pc, n), 0))
    ensures Alone(s, pc, m) == Alone(s, pc, n)
    decreases n
  {
    if n > 0 && Running(pc) {
      AloneIsDone(Act(s, pc).store, At(Act(s, pc), 0), n - 1, m - 1);
    }
  }

  /** What a call may rely on, by how far it has come. */
  ghost predicate Relies(s: Store, pc: Pc) {
    match pc
    case Closed(q) => Closes(s, q)
    case Measuring(q) => Closes(s, q)
    case Writing(q, m) => Closes(s, q) && s.predictions > 0 && m == MeasurementFor(s)
    case Returned(q) => Closes(s, q) && Measured(s)
    case Failed(q, why) => why != NoOutcome && (why.AlreadyMeasured? ==> Closes(s, q) && Measured(s))
    case _ => true
  }

  /** The assessment is closed, by a record that is the request's own. */
  ghost predicate Closes(s: Store, q: Request) {
    |s.outcomes| == 1 && Matches(s.outcomes[0], q)
  }

  ghost predicate Inv(s: State) {
    Sound(s.store) && forall p: Pid :: Relies(s.store, At(s, p))
  }

  /** The store only grows. */
  ghost predicate Grows(s: Store, s': Store) {
    && s.predictions == s'.predictions
    && (s.outcomes == [] || s'.outcomes == s.outcomes)
    && (s.measurements == [] || s'.measurements == s.measurements)
  }

  lemma StepKeeps(s: State, e: Event, s': State)
    requires Inv(s) && Step(s, e, s')
    ensures Inv(s') && Grows(s.store, s'.store)
  {
    forall p: Pid ensures Relies(s'.store, At(s', p)) {
      if p != e.p {
        assert At(s', p) == At(s, p);
      }
    }
  }

  lemma {:induction false} InvHolds(states: seq<State>, events: seq<Event>, i: nat)
    requires Run(states, events) && i < |states|
    ensures Inv(states[i])
  {
    if i > 0 {
      InvHolds(states, events, i - 1);
      StepKeeps(states[i - 1], events[i - 1], states[i]);
    }
  }

  /**
   Safety of every interleaving of retries and crashes: never more than one outcome or measurement; a call that
   has returned left both on record with its own status and detail; a call that failed because somebody else was
   measuring can rely on the measurement being there.
   */
  lemma FinalizationIsSafe(states: seq<State>, events: seq<Event>, i: nat, p: Pid)
    requires Run(states, events) && i < |states|
    ensures var s := states[i].store;
      && |s.outcomes| <= 1 && |s.measurements| <= 1
      && (At(states[i], p).Returned? ==> Closes(s, At(states[i], p).q) && Complete(s))
      && (At(states[i], p).Failed? && At(states[i], p).why.AlreadyMeasured? ==> Complete(s))
      && !(At(states[i], p).Failed? && At(states[i], p).why.NoOutcome?)
  {
    InvHolds(states, events, i);
    assert Relies(states[i].store, At(states[i], p));
  }

  /** Whatever is recorded stays recorded. */
  lemma {:induction false} NothingIsTakenBack(states: seq<State>, events: seq<Event>, i: nat, j: nat)
    requires Run(states, events) && i <= j < |states|
    ensures Grows(states[i].store, states[j].store)
    decreases j
  {
    if i < j {
      NothingIsTakenBack(states, events, i, j - 1);
      InvHolds(states, events, j - 1);
      StepKeeps(states[j - 1], events[j - 1], states[j]);
    }
  }

  // ---- Starting over ----------------------------------------------------------------------------------

  /** Calling twice is calling once. */
  lemma FinalizedIsIdempotent(s: Store, q: Request)
    requires Sound(s)
    ensures Sound(Finalized(s, q)) && Finalized(Finalized(s, q), q) == Finalized(s, q)
  {
    var once := Finalized(s, q);
    if once.measurements != [] {
      assert once.measurements[0] in once.measurements;
    }
  }

  /** The calls under way all make the same request, one that would be accepted. */
  ghost predicate AllFor(s: State, q: Request) {
    forall p: Pid :: At(s, p).Idle? || At(s, p).q == q
  }

  /**
   Crashing anywhere and starting over reaches the same end: as long as all calls make the same acceptable
   request, a fresh call made at any point leaves the store as a single undisturbed call would have.
   */
  lemma {:induction false} RestartsEndAlike(states: seq<State>, events: seq<Event>, q: Request, i: nat)
    requires Run(states, events) && i < |states| && q.valid
    requires forall k :: 0 <= k < |events| && events[k].Call? ==> events[k].q == q
    ensures AllFor(states[i], q)
    ensures Finalized(states[i].store, q) == Finalized(states[0].store, q)
  {
    if i > 0 {
      RestartsEndAlike(states, events, q, i - 1);
      InvHolds(states, events, i - 1);
      StepEndsAlike(states[i - 1], events[i - 1], states[i], q);
    }
  }

  lemma StepEndsAlike(s: State, e: Event, s': State, q: Request)
    requires Inv(s) && Step(s, e, s') && AllFor(s, q) && q.valid && (e.Call? ==> e.q == q)
    ensures AllFor(s', q) && Finalized(s'.store, q) == Finalized(s.store, q)
  {
    if e.Advance? {
      assert At(s, e.p).q == q && Relies(s.store, At(s, e.p));
    }
    assert forall p: Pid :: p != e.p ==> At(s', p) == At(s, p);
  }

  /** A call that has returned leaves the store as that undisturbed call: neither a race nor a crash shows in it. */
  lemma ReturnedCallFinalizes(states: seq<State>, events: seq<Event>, q: Request, i: nat, p: Pid)
    requires Run(states, events) && i < |states| && q.valid
    requires forall k :: 0 <= k < |events| && events[k].Call? ==> events[k].q == q
    requires At(states[i], p).Returned?
    ensures states[i].store == Finalized(states[0].store, q)
  {
    RestartsEndAlike(states, events, q, i);
    FinalizationIsSafe(states, events, i, p);
  }
}
