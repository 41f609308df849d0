/**
 Applying a held candidate, with any number of processes at work: each loads a replay, takes the repository's
 lock, asks the gate, spends the one-shot token, applies, and cleans up, while others store tokens and reap
 stale ones. Every step of every process is one transition of the shared state.
 */
module ApplyProtocol {
  import opened Wrappers
  import G = Gate
  import H = GateHistory
  import Q = GateConsult
  import B = CandidateBinding
  import T = Transaction

  type Pid = nat

  /** A replayable candidate: its patch, the files it is expected to touch, and everything else in the request. */
  datatype Bundle = Bundle(patch: string, expected: seq<string>, rest: string)

  /**
   The parts of the environment that only compute: spelling of paths, targets and result of a patch, the hash, and what
   a path is recognised by.
   */
  datatype Env = Env(
    spelling: T.Spelling,
    targets: string -> seq<G.Place>,
    materialize: (T.Files, string) -> Option<T.After>,
    hash: string -> string,
    identity: string -> string)

  datatype Pc =
    | Idle
    | Storing(bundle: Bundle)
    | Loaded(asm: nat, bundle: Bundle)
    | Locked(asm: nat, bundle: Bundle)
    | Gated(asm: nat, bundle: Bundle)
    | Consumed(asm: nat, bundle: Bundle)
    | Leaving(applied: Option<Bundle>)
    | Cleaning(bundle: Bundle)
    | Sweeping(bundle: Bundle)

  /**
   The working tree, the ledger of assessments with the replay each one holds, the replay cache with its live
   entries and tombstones (a file's name is the digest of its content, so the bundle stands for both), the lock,
   and where every process is.
   */
  datatype State = State(
    tree: T.Files,
    rows: seq<G.Row>,
    replays: map<nat, Bundle>,
    live: set<Bundle>,
    tombs: set<Bundle>,
    lock: Option<Pid>,
    procs: map<Pid, Pc>)

  function At(s: State, p: Pid): Pc {
    if p in s.procs then s.procs[p] else Idle
  }

  function Goto(s: State, p: Pid, pc: Pc): State {
    s.(procs := s.procs[p := pc])
  }

  datatype Event =
    | Assess(row: G.Row, replay: Option<Bundle>)
    | CheckStored(p: Pid, bundle: Bundle)
    | WriteStored(p: Pid, effect: bool)
    | Reap(bundle: Bundle, tomb: bool)
    | Load(p: Pid, asm: nat, bundle: Bundle)
    | Lock(p: Pid)
    | AskGate(p: Pid, seen: G.Observed)
    | Consume(p: Pid, effect: bool, ok: bool)
    | Apply(p: Pid, after: T.Files, out: T.Outcome)
    | Release(p: Pid)
    | DeleteSource(p: Pid, ok: bool)
    | DeleteTomb(p: Pid)
    | Crash(p: Pid, after: T.Files)

  /** The candidate a patch amounts to on a tree, if it can be worked out. */
  function Attempted(env: Env, tree: T.Files, patch: string): Option<G.Binding> {
    match env.materialize(tree, patch)
    case None => None
    case Some(after) => B.BindingOf(env.hash, env.identity, after)
  }

  function EditFor(env: Env, tree: T.Files, patch: string): G.Edit {
    G.Edit(true, env.targets(patch), true, Attempted(env, tree, patch))
  }

  /** The gate's answer names this very assessment as the one that clears the edit. */
  predicate Authorizes(d: G.Outcome, asm: nat) {
    Q.Clears(d, asm)
  }

  // ---- Steps ----------------------------------------------------------------------------------------

  ghost predicate Init(s: State) {
    s.live == {} && s.tombs == {} && s.lock == None && s.procs == map[] && G.NewestFirst(s.rows)
  }

  /** The ledger only grows, and a new assessment gets a larger id. */
  ghost predicate AssessStep(s: State, row: G.Row, replay: Option<Bundle>, s': State) {
    && G.NewestFirst([row] + s.rows)
    && s' == s.(rows := [row] + s.rows, replays := if replay.Some? then s.replays[row.id := replay.value]
      else s.replays)
  }

  /** Storing looks first and writes later; in between others may do anything. */
  ghost predicate CheckStoredStep(s: State, p: Pid, b: Bundle, s': State) {
    && At(s, p).Idle?
    && s' == if b in s.live then s else Goto(s, p, Storing(b))
  }

  ghost predicate WriteStoredStep(s: State, p: Pid, effect: bool, s': State) {
    && At(s, p).Storing?
    && s' == Goto(if effect then s.(live := s.live + {At(s, p).bundle}) else s, p, Idle)
  }

  ghost predicate ReapStep(s: State, b: Bundle, tomb: bool, s': State) {
    s' == if tomb then s.(tombs := s.tombs - {b}) else s.(live := s.live - {b})
  }

  ghost predicate LoadStep(s: State, p: Pid, asm: nat, b: Bundle, s': State) {
    && At(s, p).Idle?
    && asm in s.replays && s.replays[asm] == b && b in s.live
    && s' == Goto(s, p, Loaded(asm, b))
  }

  ghost predicate LockStep(s: State, p: Pid, s': State) {
    && At(s, p).Loaded?
    && s.lock == None
    && s' == Goto(s, p, Locked(At(s, p).asm, At(s, p).bundle)).(lock := Some(p))
  }

  /** The gate sees the ledger as it is, or not at all; what it makes of the graph and of HEAD is not constrained. */
  ghost predicate GateStep(env: Env, s: State, p: Pid, seen: G.Observed, s': State) {
    && At(s, p).Locked?
    && (seen.second.Readable? ==> seen.second.rows == s.rows)
    && var pc := At(s, p);
       var d := G.Decide(EditFor(env, s.tree, pc.bundle.patch), seen, true, true);
       s' == Goto(s, p, if Authorizes(d, pc.asm) then Gated(pc.asm, pc.bundle) else Leaving(None))
  }

  /** Spending the token renames it to a tombstone; the rename may report failure although it took effect. */
  ghost predicate ConsumeStep(s: State, p: Pid, effect: bool, ok: bool, s': State) {
    && At(s, p).Gated?
    && (ok ==> effect)
    && (effect ==> At(s, p).bundle in s.live)
    && var pc := At(s, p);
       var spent := if effect then s.(live := s.live - {pc.bundle}, tombs := s.tombs + {pc.bundle}) else s;
       s' == Goto(spent, p, if ok then Consumed(pc.asm, pc.bundle) else Leaving(None))
  }

  /** The transaction, seen from outside the lock as one step, with any outcome it can have. */
  ghost predicate ApplyStep(env: Env, s: State, p: Pid, after: T.Files, out: T.Outcome, s': State) {
    && At(s, p).Consumed?
    && var b := At(s, p).bundle;
       && T.Applied(env.spelling, env.materialize(s.tree, b.patch), b.expected, s.tree, after, out)
       && s' == Goto(s, p, Leaving(if out.Done? then Some(b) else None)).(tree := after)
  }

  ghost predicate ReleaseStep(s: State, p: Pid, s': State) {
    && At(s, p).Leaving?
    && var a := At(s, p).applied;
       s' == Goto(s, p, if a.Some? then Cleaning(a.value) else Idle).(lock := None)
  }

  ghost predicate DeleteSourceStep(s: State, p: Pid, ok: bool, s': State) {
    && At(s, p).Cleaning?
    && var b := At(s, p).bundle;
       s' == if ok then Goto(s.(live := s.live - {b}), p, Sweeping(b)) else Goto(s, p, Idle)
  }

  ghost predicate DeleteTombStep(s: State, p: Pid, s': State) {
    && At(s, p).Sweeping?
    && s' == Goto(s.(tombs := s.tombs - {At(s, p).bundle}), p, Idle)
  }

  /** A process dies: the system drops its lock, and if it was applying, some of its targets may have changed. */
  ghost predicate CrashStep(env: Env, s: State, p: Pid, after: T.Files, s': State) {
    && (if At(s, p).Consumed? && env.materialize(s.tree, At(s, p).bundle.patch).Some?
        then T.OnlyTouches(s.tree, after, env.materialize(s.tree, At(s, p).bundle.patch).value.Keys)
        else after == s.tree)
    && s' == Goto(s, p, Idle).(tree := after, lock := if s.lock == Some(p) then None else s.lock)
  }

  ghost predicate Step(env: Env, s: State, e: Event, s': State) {
    match e
    case Assess(row, replay) => AssessStep(s, row, replay, s')
    case CheckStored(p, b) => CheckStoredStep(s, p, b, s')
    case WriteStored(p, effect) => WriteStoredStep(s, p, effect, s')
    case Reap(b, tomb) => ReapStep(s, b, tomb, s')
    case Load(p, asm, b) => LoadStep(s, p, asm, b, s')
    case Lock(p) => LockStep(s, p, s')
    case AskGate(p, seen) => GateStep(env, s, p, seen, s')
    case Consume(p, effect, ok) => ConsumeStep(s, p, effect, ok, s')
    case Apply(p, after, out) => ApplyStep(env, s, p, after, out, s')
    case Release(p) => ReleaseStep(s, p, s')
    case DeleteSource(p, ok) => DeleteSourceStep(s, p, ok, s')
    case DeleteTomb(p) => DeleteTombStep(s, p, s')
    case Crash(p, after) => CrashStep(env, s, p, after, s')
  }

  ghost predicate StepAt(env: Env, states: seq<State>, events: seq<Event>, i: nat)
    requires i < |events| && i + 1 < |states|
  {
    Step(env, states[i], events[i], states[i + 1])
  }

  /** A run: one more state than events, each event leading from one state to the next. */
  ghost predicate Run(env: Env, states: seq<State>, events: seq<Event>) {
    && |states| == |events| + 1
    && Init(states[0])
    && forall i: nat :: i < |events| ==> StepAt(env, states, events, i)
  }

  // ---- Mutual exclusion -----------------------------------------------------------------------------

  predicate InSection(pc: Pc) {
    pc.Locked? || pc.Gated? || pc.Consumed? || pc.Leaving?
  }

  /** Who is inside the apply section holds the lock. */
  ghost predicate Exclusive(s: State) {
    forall p: Pid :: InSection(At(s, p)) ==> s.lock == Some(p)
  }

  // ---- Authorization --------------------------------------------------------------------------------

  /** `m` is an assessment on record that clears exactly what the patch amounts to on the tree as it is. */
  ghost predicate Clears(env: Env, s: State, asm: nat, patch: string, m: G.Row) {
    && m in s.rows
    && m.id == asm
    && m.decision == "proceed"
    && m.content.Object? && !m.content.confirmation
    && Attempted(env, s.tree, patch).Some?
    && G.CandidateBinding(m) == Attempted(env, s.tree, patch)
  }

  ghost predicate Cleared(env: Env, s: State, asm: nat, patch: string) {
    exists m :: Clears(env, s, asm, patch, m)
  }

  /** Past the gate, and as long as the lock is held, the assessment still clears the patch. */
  ghost predicate Authorized(env: Env, s: State) {
    forall p: Pid :: At(s, p).Gated? || At(s, p).Consumed? ==> Cleared(env, s, At(s, p).asm, At(s, p).bundle.patch)
  }

  ghost predicate Inv(env: Env, s: State) {
    G.NewestFirst(s.rows) && Exclusive(s) && Authorized(env, s)
  }

  lemma ExclusiveKept(env: Env, s: State, e: Event, s': State)
    requires Exclusive(s) && Step(env, s, e, s')
    ensures Exclusive(s')
  {
    forall q: Pid | InSection(At(s', q)) ensures s'.lock == Some(q) {
      assert InSection(At(s, q)) ==> s.lock == Some(q);
    }
  }

  /** A yes that names an assessment comes out of a consultation. */
  lemma YesIsConsulted(edit: G.Edit, seen: G.Observed, asm: nat)
    requires Authorizes(G.Decide(edit, seen, true, true), asm)
    ensures edit.readable && edit.targets != [] && seen.rootFound && !seen.graph.Breaks?
    ensures seen.head.At? && seen.second.Readable?
  {
  }

  /** Once the gate answers yes, the assessment it named clears the patch. */
  lemma GateAuthorizes(env: Env, s: State, asm: nat, patch: string, seen: G.Observed)
    requires G.NewestFirst(s.rows)
    requires seen.second.Readable? ==> seen.second.rows == s.rows
    requires Authorizes(G.Decide(EditFor(env, s.tree, patch), seen, true, true), asm)
    ensures Cleared(env, s, asm, patch)
  {
    var edit := EditFor(env, s.tree, patch);
    YesIsConsulted(edit, seen, asm);
    H.ForcedContinuesIff(edit, seen, true, true);
    var m :| Q.Lifts(G.Limited(s.rows), edit, seen.head.commit, 0, m);
    H.LimitedKeepsOrder(s.rows);
    assert Clears(env, s, asm, patch, m);
  }

  lemma ClearedKept(env: Env, s: State, s': State, asm: nat, patch: string)
    requires Cleared(env, s, asm, patch) && s'.tree == s.tree
    requires forall m <- s.rows :: m in s'.rows
    ensures Cleared(env, s', asm, patch)
  {
    var m :| Clears(env, s, asm, patch, m);
    assert Clears(env, s', asm, patch, m);
  }

  /** Steps other than the gate's put nobody past the gate who was not there before with the same patch. */
  lemma PastGateBefore(env: Env, s: State, e: Event, s': State, q: Pid)
    requires Step(env, s, e, s') && (At(s', q).Gated? || At(s', q).Consumed?)
    requires !(e.AskGate? && e.p == q)
    ensures At(s, q).Gated? || At(s, q).Consumed?
    ensures At(s, q).asm == At(s', q).asm && At(s, q).bundle == At(s', q).bundle
  {
  }

  /** While somebody is past the gate, nobody else changes the tree. */
  lemma TreeKept(env: Env, s: State, e: Event, s': State, q: Pid)
    requires Exclusive(s) && Step(env, s, e, s')
    requires At(s, q).Gated? || At(s, q).Consumed?
    requires At(s', q).Gated? || At(s', q).Consumed?
    ensures s'.tree == s.tree
  {
    assert s.lock == Some(q);
    if e.Apply? || e.Crash? {
      assert InSection(At(s, e.p)) ==> s.lock == Some(e.p);
    }
  }

  lemma AuthorizedKept(env: Env, s: State, e: Event, s': State)
    requires Inv(env, s) && Step(env, s, e, s')
    ensures Authorized(env, s')
  {
    forall q: Pid | At(s', q).Gated? || At(s', q).Consumed?
      ensures Cleared(env, s', At(s', q).asm, At(s', q).bundle.patch)
    {
      if e.AskGate? && e.p == q {
        GateAuthorizes(env, s, At(s, q).asm, At(s, q).bundle.patch, e.seen);
        ClearedKept(env, s, s', At(s, q).asm, At(s, q).bundle.patch);
      } else {
        PastGateBefore(env, s, e, s', q);
        TreeKept(env, s, e, s', q);
        ClearedKept(env, s, s', At(s, q).asm, At(s, q).bundle.patch);
      }
    }
  }

  lemma InvKept(env: Env, s: State, e: Event, s': State)
    requires Inv(env, s) && Step(env, s, e, s')
    ensures Inv(env, s')
  {
    ExclusiveKept(env, s, e, s');
    AuthorizedKept(env, s, e, s');
  }

  /** Every state of every run. */
  lemma {:induction false} InvHolds(env: Env, states: seq<State>, events: seq<Event>, i: nat)
    requires Run(env, states, events) && i < |states|
    ensures Inv(env, states[i])
  {
    if i > 0 {
      InvHolds(env, states, events, i - 1);
      assert StepAt(env, states, events, i - 1);
      InvKept(env, states[i - 1], events[i - 1], states[i]);
    }
  }

  /** Apply sections never overlap. */
  lemma ApplySectionsExclude(env: Env, states: seq<State>, events: seq<Event>, i: nat, p: Pid, q: Pid)
    requires Run(env, states, events) && i < |states|
    requires InSection(At(states[i], p)) && InSection(At(states[i], q))
    ensures p == q
  {
    InvHolds(env, states, events, i);
  }

  /**
   Authorized bytes are the written bytes: when an application succeeds, the tree it leaves has, at every path
   the assessment binds, content with exactly the bound digest, and everything that has changed is such a path.
   */
  lemma AuthorizedBytesAreWritten(env: Env, states: seq<State>, events: seq<Event>, i: nat)
    requires Run(env, states, events) && i < |events|
    requires events[i].Apply? && events[i].out.Done?
    ensures At(states[i], events[i].p).Consumed?
    ensures var s, s' := states[i], states[i + 1];
      exists m <- s.rows ::
        && m.id == At(s, events[i].p).asm && m.decision == "proceed" && m.content.Object? && !m.content.confirmation
        && G.CandidateBinding(m).Some?
        && Written(env, s.tree, s'.tree, G.CandidateBinding(m).value.files)
  {
    var s, s', p := states[i], states[i + 1], events[i].p;
    InvHolds(env, states, events, i);
    assert StepAt(env, states, events, i);
    var b := At(s, p).bundle;
    assert Cleared(env, s, At(s, p).asm, b.patch);
    var m :| Clears(env, s, At(s, p).asm, b.patch, m);
    var after := env.materialize(s.tree, b.patch).value;
    BoundIsWritten(env, s.tree, s'.tree, after, events[i].out.changed);
    assert m in s.rows;
  }

  /**
   What has changed holds content with the digest bound for its path, a deleted path being bound by the digest of a
   deletion, and for every bound path some file holds such content.
   */
  ghost predicate Written(env: Env, before: T.Files, after: T.Files, bound: map<string, string>) {
    && (forall p :: T.At(after, p) != T.At(before, p) ==> Holds(env, after, p, bound))
    && forall i :: i in bound ==> exists p :: env.identity(p) == i && Holds(env, after, p, bound)
  }

  ghost predicate Holds(env: Env, files: T.Files, p: string, bound: map<string, string>) {
    env.identity(p) in bound && DigestAt(env, files, p) == Some(bound[env.identity(p)])
  }

  function DigestAt(env: Env, files: T.Files, p: string): Option<string> {
    if p in files && files[p].Directory? then None else Some(env.hash(B.Payload(T.Captured(files, p))))
  }

  lemma BoundIsWritten(env: Env, before: T.Files, files: T.Files, after: T.After, changed: seq<string>)
    requires T.SwappedUpTo(before, files, after, changed) && B.Injective(env.identity, after.Keys)
    requires forall p :: p in changed <==> p in after
    ensures Written(env, before, files, B.BindingOf(env.hash, env.identity, after).value.files)
  {
    var bound := B.BindingOf(env.hash, env.identity, after).value.files;
    forall p | p in after ensures Holds(env, files, p, bound) {
      assert T.At(files, p) == T.Wanted(after[p]);
      assert bound[env.identity(p)] == env.hash(B.Payload(after[p]));
    }
    forall p | T.At(files, p) != T.At(before, p) ensures p in after {
      assert T.At(files, p) == if p in changed && p in after then T.Wanted(after[p]) else T.At(before, p);
    }
    forall i | i in bound ensures exists p :: env.identity(p) == i && Holds(env, files, p, bound) {
      var p :| p in after && env.identity(p) == i;
    }
  }

  // ---- At most once ---------------------------------------------------------------------------------

  datatype Kind = Creating | Spending | Consuming | Applying

  /** The event creates, spends, or successfully consumes the token of `b`, or writes its candidate to the tree. */
  predicate Is(kind: Kind, s: State, e: Event, b: Bundle) {
    match kind
    case Creating => e.WriteStored? && e.effect && At(s, e.p) == Storing(b)
    case Spending => e.Consume? && e.effect && At(s, e.p).Gated? && At(s, e.p).bundle == b
    case Consuming => e.Consume? && e.ok && At(s, e.p).Gated? && At(s, e.p).bundle == b
    case Applying => (e.Apply? || e.Crash?) && At(s, e.p).Consumed? && At(s, e.p).bundle == b
  }

  function Count(kind: Kind, states: seq<State>, events: seq<Event>, n: nat, b: Bundle): nat
    requires n <= |events| && n <= |states|
  {
    if n == 0 then 0
    else Count(kind, states, events, n - 1, b) + if Is(kind, states[n - 1], events[n - 1], b) then 1 else 0
  }

  /** 1 when a token of `b` can be spent. */
  function Live(s: State, b: Bundle): nat {
    if b in s.live then 1 else 0
  }

  /** 1 when a token of `b` has been consumed by the process that holds the lock and not been applied yet. */
  function Holding(s: State, b: Bundle): nat {
    if s.lock.Some? && At(s, s.lock.value).Consumed? && At(s, s.lock.value).bundle == b then 1 else 0
  }

  function Bit(c: bool): nat {
    if c then 1 else 0
  }

  lemma TokenBooks(env: Env, s: State, e: Event, s': State, b: Bundle)
    requires Step(env, s, e, s')
    ensures Bit(Is(Spending, s, e, b)) + Live(s', b) <= Bit(Is(Creating, s, e, b)) + Live(s, b)
    ensures Bit(Is(Consuming, s, e, b)) <= Bit(Is(Spending, s, e, b))
  {
  }

  lemma HoldingBooks(env: Env, s: State, e: Event, s': State, b: Bundle)
    requires Exclusive(s) && Step(env, s, e, s')
    ensures Bit(Is(Applying, s, e, b)) + Holding(s', b) <= Bit(Is(Consuming, s, e, b)) + Holding(s, b)
  {
    if e.Apply? || e.Crash? || e.Consume? || e.Release? {
      assert InSection(At(s, e.p)) ==> s.lock == Some(e.p);
    }
  }

  /** Each step keeps the books: what is spent was live, and what is applied was consumed. */
  lemma BooksKept(env: Env, s: State, e: Event, s': State, b: Bundle)
    requires Exclusive(s) && Step(env, s, e, s')
    ensures Bit(Is(Spending, s, e, b)) + Live(s', b) <= Bit(Is(Creating, s, e, b)) + Live(s, b)
    ensures Bit(Is(Consuming, s, e, b)) <= Bit(Is(Spending, s, e, b))
    ensures Bit(Is(Applying, s, e, b)) + Holding(s', b) <= Bit(Is(Consuming, s, e, b)) + Holding(s, b)
  {
    TokenBooks(env, s, e, s', b);
    HoldingBooks(env, s, e, s', b);
  }

  lemma BooksKeptAt(env: Env, states: seq<State>, events: seq<Event>, n: nat, b: Bundle)
    requires Run(env, states, events) && n < |events|
    ensures var s, e, s' := states[n], events[n], states[n + 1];
      && Bit(Is(Spending, s, e, b)) + Live(s', b) <= Bit(Is(Creating, s, e, b)) + Live(s, b)
      && Bit(Is(Consuming, s, e, b)) <= Bit(Is(Spending, s, e, b))
      && Bit(Is(Applying, s, e, b)) + Holding(s', b) <= Bit(Is(Consuming, s, e, b)) + Holding(s, b)
  {
    InvHolds(env, states, events, n);
    assert StepAt(env, states, events, n);
    BooksKept(env, states[n], events[n], states[n + 1], b);
  }

  /** The books of a whole run. */
  lemma {:induction false} BooksBalance(env: Env, states: seq<State>, events: seq<Event>, n: nat, b: Bundle)
    requires Run(env, states, events) && n <= |events|
    ensures Count(Spending, states, events, n, b) + Live(states[n], b) <= Count(Creating, states, events, n, b)
    ensures Count(Consuming, states, events, n, b) <= Count(Spending, states, events, n, b)
    ensures Count(Applying, states, events, n, b) + Holding(states[n], b) <= Count(Consuming, states, events, n, b)
  {
    if n > 0 {
      BooksBalance(env, states, events, n - 1, b);
      BooksKeptAt(env, states, events, n - 1, b);
    }
  }

  /**
   At most once, in every interleaving: the successful consumptions of a token, plus one if it can still be
   spent, never exceed the stores that created it, and the tree is never written more often than that.
   */
  lemma AtMostOnce(env: Env, states: seq<State>, events: seq<Event>, n: nat, b: Bundle)
    requires Run(env, states, events) && n <= |events|
    ensures Count(Consuming, states, events, n, b) + Live(states[n], b) <= Count(Creating, states, events, n, b)
    ensures Count(Applying, states, events, n, b) <= Count(Creating, states, events, n, b)
  {
    BooksBalance(env, states, events, n, b);
  }
}
