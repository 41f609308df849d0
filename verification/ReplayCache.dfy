/**
 The replay cache on disk, one entry per candidate and at most one tombstone beside it, and the controller that
 applies a held candidate by going through it. File operations may fail before or after they take effect.
 */
module ReplayCache {
  import opened Wrappers
  import opened ApplyProtocol
  import G = Gate
  import T = Transaction

  datatype Spent = Spent | AlreadySpent | NothingToSpend

  /** Consuming moves the entry to its tombstone or does nothing. */
  ghost predicate Consumes(live: set<Bundle>, tombs: set<Bundle>, b: Bundle, live': set<Bundle>, tombs': set<Bundle>) {
    (live' == live && tombs' == tombs) || (b in live && live' == live - {b} && tombs' == tombs + {b})
  }

  /** Deleting removes the entry and then its tombstone, if it comes to that. */
  ghost predicate Deletes(live: set<Bundle>, tombs: set<Bundle>, b: Bundle, live': set<Bundle>, tombs': set<Bundle>) {
    (live' == live && tombs' == tombs) || (live' == live - {b} && (tombs' == tombs || tombs' == tombs - {b}))
  }

  /** Storing adds at most the one entry; reaping on the way may remove any. */
  ghost predicate Stores(live: set<Bundle>, tombs: set<Bundle>, b: Bundle, live': set<Bundle>, tombs': set<Bundle>) {
    live' <= live + {b} && tombs' <= tombs
  }

  /** Entries and tombstones by content, each with its modification time. */
  class Cache {
    var live: map<Bundle, int>
    var tombs: map<Bundle, int>
    const maxBytes: nat
    const maxAge: nat

    constructor (maxBytes: nat, maxAge: nat)
      ensures live == map[] && tombs == map[]
      ensures this.maxBytes == if maxBytes > 1 then maxBytes else 1
      ensures this.maxAge == if maxAge > 1 then maxAge else 1
    {
      live, tombs := map[], map[];
      this.maxBytes := if maxBytes > 1 then maxBytes else 1;
      this.maxAge := if maxAge > 1 then maxAge else 1;
    }

    predicate Expired(mtime: int, now: int) {
      now - mtime > maxAge
    }

    /** What reaping leaves: everything that is not stale, and what is stale but cannot be removed. */
    function Kept(entries: map<Bundle, int>, removable: Bundle -> bool, now: int): map<Bundle, int> {
      map b | b in entries && !(Expired(entries[b], now) && removable(b)) :: entries[b]
    }

    /** Removes stale entries as far as they can be removed. */
    method ReapEntries(entries: map<Bundle, int>, removable: Bundle -> bool, now: int) returns (kept: map<Bundle, int>)
      ensures kept == Kept(entries, removable, now)
    {
      kept := entries;
      var rest := entries.Keys;
      while rest != {}
        invariant rest <= entries.Keys
        invariant forall b :: b in kept <==> b in entries && (b in rest || b in Kept(entries, removable, now))
        invariant forall b :: b in kept ==> kept[b] == entries[b]
        decreases rest
      {
        var b :| b in rest;
        rest := rest - {b};
        if kept[b] < now - maxAge && removable(b) {
          kept := kept - {b};
        }
      }
    }

    /**
     Makes the candidate available. An entry that is already there is left as it is, so after a normal return the
     entry is usable unless it was stale to begin with and could not be reaped. `place` says whether there is a place
     for entries, `removable` which stale ones can be removed, and `write` what becomes of writing a new one.
     */
    method Store(b: Bundle, size: nat, now: int, place: bool, removable: Bundle -> bool, write: T.Fate)
      returns (ok: bool)
      modifies this
      ensures Stores(old(live.Keys), old(tombs.Keys), b, live.Keys, tombs.Keys)
      ensures ok <==> size <= maxBytes && place && (b in Kept(old(live), removable, now) || write.Works?)
      ensures size > maxBytes || !place ==> live == old(live) && tombs == old(tombs)
      ensures size <= maxBytes && place ==> tombs == Kept(old(tombs), removable, now)
      ensures size <= maxBytes && place ==>
        var kept := Kept(old(live), removable, now);
        live == if b in kept || write.FailsEarly? then kept else kept[b := now]
      ensures ok ==> b in live
      ensures ok && (b in old(live) ==> !Expired(old(live)[b], now)) ==> !Expired(live[b], now)
      ensures b in old(live) && !Expired(old(live)[b], now) ==> b in live && live[b] == old(live)[b]
      ensures forall c :: c != b && c in live ==> c in old(live) && live[c] == old(live)[c]
      ensures forall c :: c != b && c in old(live) && !Expired(old(live)[c], now) ==> c in live
      ensures forall c :: c in tombs ==> c in old(tombs) && tombs[c] == old(tombs)[c]
      ensures forall c :: c in old(tombs) && !Expired(old(tombs)[c], now) ==> c in tombs
    {
      if size > maxBytes || !place {
        return false;
      }
      live := ReapEntries(live, removable, now);
      tombs := ReapEntries(tombs, removable, now);
      if b in live {
        return true;
      }
      if write.FailsEarly? {
        return false;
      }
      live := live[b := now];
      ok := write.Works?;
    }

    /** An entry can be replayed if it can be read, has not expired and is not too large. */
    method Load(b: Bundle, size: nat, now: int, readable: bool) returns (ok: bool)
      ensures ok <==> Loadable(b, size, now, readable)
    {
      if !readable || b !in live {
        return false;
      }
      ok := !Expired(live[b], now) && size <= maxBytes;
    }

    predicate Loadable(b: Bundle, size: nat, now: int, readable: bool)
      reads this
    {
      readable && b in live && now - live[b] <= maxAge && size <= maxBytes
    }

    /** Spends the entry by renaming it onto its tombstone; a rename may take effect and still be reported to fail. */
    method Consume(b: Bundle, rename: T.Fate) returns (r: Spent)
      modifies this
      ensures if b in old(live) && !rename.FailsEarly? then
          live == old(live) - {b} && tombs == old(tombs)[b := old(live)[b]]
        else live == old(live) && tombs == old(tombs)
      ensures r.Spent? <==> b in old(live) && rename.Works?
      ensures r.AlreadySpent? <==> !r.Spent? && b in tombs
      ensures Consumes(old(live.Keys), old(tombs.Keys), b, live.Keys, tombs.Keys)
    {
      if !rename.FailsEarly? && b in live {
        tombs := tombs[b := live[b]];
        live := live - {b};
        if rename.Works? {
          return Spent;
        }
      }
      return if b in tombs then AlreadySpent else NothingToSpend;
    }

    /** Removes entry and tombstone, giving up at the first failure. */
    method Delete(b: Bundle, entry: T.Fate, tomb: T.Fate) returns (ok: bool)
      modifies this
      ensures ok <==> entry.Works? && tomb.Works?
      ensures live == if entry.FailsEarly? then old(live) else old(live) - {b}
      ensures tombs == if entry.Works? && !tomb.FailsEarly? then old(tombs) - {b} else old(tombs)
      ensures Deletes(old(live.Keys), old(tombs.Keys), b, live.Keys, tombs.Keys)
    {
      if entry.FailsEarly? {
        return false;
      }
      live := live - {b};
      if entry.FailsLate? || tomb.FailsEarly? {
        return false;
      }
      tombs := tombs - {b};
      ok := tomb.Works?;
    }
  }

  // ---- The cache as the protocol sees it ---------------------------------------------------------------

  /** These events, in this order, lead from one state of the protocol to another. */
  ghost predicate Leads(env: Env, s: State, events: seq<Event>, s': State)
    decreases |events|
  {
    if events == [] then s == s'
    else
      var n := |events| - 1;
      exists t :: Leads(env, s, events[..n], t) && Step(env, t, events[n], s')
  }

  lemma LeadsOneMore(env: Env, s: State, events: seq<Event>, t: State, e: Event, s': State)
    requires Leads(env, s, events, t) && Step(env, t, e, s')
    ensures Leads(env, s, events + [e], s')
  {
    assert (events + [e])[..|events|] == events;
  }

  /** Removing any entries or tombstones is a sequence of reapings. */
  lemma {:induction false} ReapIsSteps(env: Env, s: State, events: seq<Event>, t: State, gone: set<Bundle>, tomb: bool)
    returns (more: seq<Event>)
    requires Leads(env, s, events, t)
    ensures Leads(env, s, more, if tomb then t.(tombs := t.tombs - gone) else t.(live := t.live - gone))
    decreases gone
  {
    more := events;
    if gone == {} {
      assert t == if tomb then t.(tombs := t.tombs - gone) else t.(live := t.live - gone);
    } else {
      var b :| b in gone;
      var u := if tomb then t.(tombs := t.tombs - {b}) else t.(live := t.live - {b});
      LeadsOneMore(env, s, events, t, Reap(b, tomb), u);
      more := ReapIsSteps(env, s, events + [Reap(b, tomb)], u, gone - {b}, tomb);
      assert t.tombs - {b} - (gone - {b}) == t.tombs - gone && t.live - {b} - (gone - {b}) == t.live - gone;
    }
  }

  /** Storing, seen from outside: reapings, then the look and, if the entry was not there, the write. */
  lemma StoreIsSteps(env: Env, s: State, p: Pid, b: Bundle, live': set<Bundle>, tombs': set<Bundle>)
    returns (events: seq<Event>)
    requires At(s, p).Idle? && p in s.procs && Stores(s.live, s.tombs, b, live', tombs')
    ensures Leads(env, s, events, s.(live := live', tombs := tombs'))
  {
    events := ReapIsSteps(env, s, [], s, s.tombs - tombs', true);
    var t := s.(tombs := tombs');
    assert s.tombs - (s.tombs - tombs') == tombs';
    events := ReapIsSteps(env, s, events, t, s.live - live', false);
    var u := t.(live := s.live - (s.live - live'));
    if b in live' && b !in s.live {
      var v := Goto(u, p, Storing(b));
      LeadsOneMore(env, s, events, u, CheckStored(p, b), v);
      events := events + [CheckStored(p, b)];
      var w := Goto(v.(live := v.live + {b}), p, Idle);
      assert v.live + {b} == live' && v.procs[p := Idle] == s.procs;
      LeadsOneMore(env, s, events, v, WriteStored(p, true), w);
      events := events + [WriteStored(p, true)];
    } else {
      assert u.live == live';
    }
  }

  /** Consuming, seen from outside, is the protocol's step, whether it reports success or not. */
  lemma ConsumeIsStep(env: Env, s: State, p: Pid, ok: bool, live': set<Bundle>, tombs': set<Bundle>)
    returns (e: Event, s': State)
    requires At(s, p).Gated? && Consumes(s.live, s.tombs, At(s, p).bundle, live', tombs')
    requires ok ==> At(s, p).bundle in s.live && At(s, p).bundle !in live'
    ensures Step(env, s, e, s')
    ensures var pc := At(s, p);
      s' == Goto(s, p, if ok then Consumed(pc.asm, pc.bundle) else Leaving(None)).(live := live', tombs := tombs')
  {
    var pc := At(s, p);
    var effect := live' != s.live || tombs' != s.tombs;
    e := Consume(p, effect, ok);
    s' := Goto(s, p, if ok then Consumed(pc.asm, pc.bundle) else Leaving(None)).(live := live', tombs := tombs');
  }

  /** Deleting, seen from outside: the entry, then the tombstone; giving up in between is like dying there. */
  lemma DeleteIsSteps(env: Env, s: State, events: seq<Event>, t: State, p: Pid, live': set<Bundle>, tombs': set<Bundle>)
    returns (more: seq<Event>)
    requires Leads(env, s, events, t) && At(t, p).Cleaning? && t.lock == None
    requires Deletes(t.live, t.tombs, At(t, p).bundle, live', tombs')
    ensures Leads(env, s, more, Goto(t, p, Idle).(live := live', tombs := tombs'))
  {
    var b := At(t, p).bundle;
    var end := Goto(t, p, Idle).(live := live', tombs := tombs');
    if live' == t.live && tombs' == t.tombs {
      LeadsOneMore(env, s, events, t, DeleteSource(p, false), end);
      return events + [DeleteSource(p, false)];
    }
    var u := Goto(t.(live := live'), p, Sweeping(b));
    LeadsOneMore(env, s, events, t, DeleteSource(p, true), u);
    more := events + [DeleteSource(p, true)];
    assert u.procs[p := Idle] == end.procs;
    if tombs' == t.tombs - {b} {
      LeadsOneMore(env, s, more, u, DeleteTomb(p), end);
      more := more + [DeleteTomb(p)];
    } else {
      LeadsOneMore(env, s, more, u, Crash(p, u.tree), end);
      more := more + [Crash(p, u.tree)];
    }
  }

  // ---- Applying a candidate ----------------------------------------------------------------------------

  /**
   The protocol's state as a controller finds it that is about to apply a candidate and has the lock for the asking.
   */
  ghost predicate Ready(s: State, p: Pid, files: T.Files, live: set<Bundle>, tombs: set<Bundle>, ledger: G.Observed,
                        asm: nat, b: Bundle)
  {
    && s.tree == files && s.live == live && s.tombs == tombs
    && p in s.procs && s.procs[p].Idle? && s.lock == None
    && asm in s.replays && s.replays[asm] == b
    && (ledger.second.Readable? ==> ledger.second.rows == s.rows)
  }

  function Asked(env: Env, s: State, p: Pid, ledger: G.Observed, asm: nat, b: Bundle): State {
    var d := G.Decide(EditFor(env, s.tree, b.patch), ledger, true, true);
    Goto(s, p, if Authorizes(d, asm) then Gated(asm, b) else Leaving(None)).(lock := Some(p))
  }

  /** Loading the entry, taking the lock and asking the gate. */
  lemma AskingIsSteps(env: Env, s: State, p: Pid, ledger: G.Observed, asm: nat, b: Bundle) returns (events: seq<Event>)
    requires Ready(s, p, s.tree, s.live, s.tombs, ledger, asm, b) && b in s.live
    ensures Leads(env, s, events, Asked(env, s, p, ledger, asm, b))
  {
    var t := Goto(s, p, Loaded(asm, b));
    LeadsOneMore(env, s, [], s, Load(p, asm, b), t);
    var u := Goto(s, p, Locked(asm, b)).(lock := Some(p));
    Overtaken(s, p, Loaded(asm, b), Locked(asm, b));
    LeadsOneMore(env, s, [] + [Load(p, asm, b)], t, Lock(p), u);
    var v := Asked(env, s, p, ledger, asm, b);
    AskIsStep(env, s, u, p, ledger, asm, b);
    LeadsOneMore(env, s, [] + [Load(p, asm, b)] + [Lock(p)], u, AskGate(p, ledger), v);
    events := [] + [Load(p, asm, b)] + [Lock(p)] + [AskGate(p, ledger)];
  }

  lemma AskIsStep(env: Env, s: State, u: State, p: Pid, ledger: G.Observed, asm: nat, b: Bundle)
    requires u == Goto(s, p, Locked(asm, b)).(lock := Some(p))
    requires ledger.second.Readable? ==> ledger.second.rows == s.rows
    ensures Step(env, u, AskGate(p, ledger), Asked(env, s, p, ledger, asm, b))
  {
    Overtaken(s, p, Locked(asm, b), At(Asked(env, s, p, ledger, asm, b), p));
  }

  lemma LeavingIsStep(env: Env, s: State, events: seq<Event>, t: State, p: Pid)
    requires Leads(env, s, events, t) && At(t, p).Leaving?
    ensures Leads(env, s, events + [Release(p)],
                  Goto(t, p, if At(t, p).applied.Some? then Cleaning(At(t, p).applied.value) else Idle).(lock := None))
  {
    var u := Goto(t, p, if At(t, p).applied.Some? then Cleaning(At(t, p).applied.value) else Idle).(lock := None);
    LeadsOneMore(env, s, events, t, Release(p), u);
  }

  datatype Application =
    | NotLoaded
    | NotAuthorized
    | NotSpendable
    | Failed(why: T.Outcome)
    | Applied(changed: seq<string>)

  /** What becomes of the cache's own file operations while a candidate is applied. */
  datatype Luck = Luck(readable: bool, spending: T.Fate, deleting: T.Fate, sweeping: T.Fate)

  /** Where the protocol stands once the controller is done: as before, but for the files and the cache. */
  ghost predicate Ends(env: Env, s: State, events: seq<Event>, files: T.Files, live: set<Bundle>, tombs: set<Bundle>) {
    Leads(env, s, events, s.(tree := files, live := live, tombs := tombs))
  }

  lemma EndsUnauthorized(env: Env, s: State, p: Pid, ledger: G.Observed, asm: nat, b: Bundle)
    returns (events: seq<Event>)
    requires Ready(s, p, s.tree, s.live, s.tombs, ledger, asm, b) && b in s.live
    requires !Authorizes(G.Decide(EditFor(env, s.tree, b.patch), ledger, true, true), asm)
    ensures Ends(env, s, events, s.tree, s.live, s.tombs)
  {
    events := AskingIsSteps(env, s, p, ledger, asm, b);
    var t := Asked(env, s, p, ledger, asm, b);
    LeavingIsStep(env, s, events, t, p);
    events := events + [Release(p)];
    assert Goto(t, p, Idle).(lock := None) == s.(tree := s.tree, live := s.live, tombs := s.tombs);
  }

  /** Past the gate: the token is spent, or spending it is reported to have failed. */
  lemma SpendingIsSteps(env: Env, s: State, p: Pid, ledger: G.Observed, asm: nat, b: Bundle, ok: bool,
                        live': set<Bundle>, tombs': set<Bundle>)
    returns (events: seq<Event>, t: State)
    requires Ready(s, p, s.tree, s.live, s.tombs, ledger, asm, b) && b in s.live
    requires Authorizes(G.Decide(EditFor(env, s.tree, b.patch), ledger, true, true), asm)
    requires Consumes(s.live, s.tombs, b, live', tombs') && (ok ==> b !in live')
    ensures Leads(env, s, events, t)
    ensures t == Goto(s, p, if ok then Consumed(asm, b)
      else Leaving(None)).(live := live', tombs := tombs', lock := Some(p))
  {
    events := AskingIsSteps(env, s, p, ledger, asm, b);
    var u := Asked(env, s, p, ledger, asm, b);
    var e: Event;
    e, t := ConsumeIsStep(env, u, p, ok, live', tombs');
    LeadsOneMore(env, s, events, u, e, t);
    events := events + [e];
    Overtaken(s, p, At(u, p), At(t, p));
  }

  lemma EndsUnspent(env: Env, s: State, p: Pid, ledger: G.Observed, asm: nat, b: Bundle, live': set<Bundle>,
                    tombs': set<Bundle>)
    returns (events: seq<Event>)
    requires Ready(s, p, s.tree, s.live, s.tombs, ledger, asm, b) && b in s.live
    requires Authorizes(G.Decide(EditFor(env, s.tree, b.patch), ledger, true, true), asm)
    requires Consumes(s.live, s.tombs, b, live', tombs')
    ensures Ends(env, s, events, s.tree, live', tombs')
  {
    var t: State;
    events, t := SpendingIsSteps(env, s, p, ledger, asm, b, false, live', tombs');
    LeavingIsStep(env, s, events, t, p);
    events := events + [Release(p)];
    assert Goto(t, p, Idle).(lock := None) == s.(tree := s.tree, live := live', tombs := tombs');
  }

  /** The transaction, and giving back the lock. */
  lemma WritingIsSteps(env: Env, s: State, events: seq<Event>, u: State, p: Pid, after: T.Files, out: T.Outcome)
    returns (more: seq<Event>, t: State)
    requires Leads(env, s, events, u) && At(u, p).Consumed?
    requires var b := At(u, p).bundle;
      T.Applied(env.spelling, env.materialize(u.tree, b.patch), b.expected, u.tree, after, out)
    ensures Leads(env, s, more, t)
    ensures t == Goto(u, p, if out.Done? then Cleaning(At(u, p).bundle) else Idle).(tree := after, lock := None)
  {
    var v := ApplyIsStep(env, u, p, after, out);
    LeadsOneMore(env, s, events, u, Apply(p, after, out), v);
    LeavingIsStep(env, s, events + [Apply(p, after, out)], v, p);
    more := events + [Apply(p, after, out)] + [Release(p)];
    t := Goto(u, p, if out.Done? then Cleaning(At(u, p).bundle) else Idle).(tree := after, lock := None);
    Overtaken(u, p, At(v, p), At(t, p));
  }

  lemma ApplyIsStep(env: Env, u: State, p: Pid, after: T.Files, out: T.Outcome) returns (v: State)
    requires At(u, p).Consumed?
    requires var b := At(u, p).bundle;
      T.Applied(env.spelling, env.materialize(u.tree, b.patch), b.expected, u.tree, after, out)
    ensures Step(env, u, Apply(p, after, out), v)
    ensures v == Goto(u, p, Leaving(if out.Done? then Some(At(u, p).bundle) else None)).(tree := after)
  {
    v := Goto(u, p, Leaving(if out.Done? then Some(At(u, p).bundle) else None)).(tree := after);
  }

  /** Going to one place and then another is going to the other. */
  lemma Overtaken(s: State, p: Pid, first: Pc, second: Pc)
    ensures Goto(Goto(s, p, first), p, second) == Goto(s, p, second)
  {
    assert s.procs[p := first][p := second] == s.procs[p := second];
  }

  /** The token is spent and the transaction over; the lock is given back. */
  lemma ApplyingIsSteps(env: Env, s: State, p: Pid, ledger: G.Observed, asm: nat, b: Bundle, live': set<Bundle>,
                        tombs': set<Bundle>, after: T.Files, out: T.Outcome)
    returns (events: seq<Event>, t: State)
    requires Ready(s, p, s.tree, s.live, s.tombs, ledger, asm, b) && b in s.live
    requires Authorizes(G.Decide(EditFor(env, s.tree, b.patch), ledger, true, true), asm)
    requires Consumes(s.live, s.tombs, b, live', tombs') && b !in live'
    requires T.Applied(env.spelling, env.materialize(s.tree, b.patch), b.expected, s.tree, after, out)
    ensures Leads(env, s, events, t)
    ensures t == Goto(s, p, if out.Done? then Cleaning(b) else Idle).(tree := after, live := live', tombs := tombs')
  {
    var u: State;
    events, u := SpendingIsSteps(env, s, p, ledger, asm, b, true, live', tombs');
    events, t := WritingIsSteps(env, s, events, u, p, after, out);
    Overtaken(s, p, At(u, p), At(t, p));
  }

  lemma EndsFailed(env: Env, s: State, p: Pid, ledger: G.Observed, asm: nat, b: Bundle, live': set<Bundle>,
                   tombs': set<Bundle>, after: T.Files, out: T.Outcome)
    returns (events: seq<Event>)
    requires Ready(s, p, s.tree, s.live, s.tombs, ledger, asm, b) && b in s.live
    requires Authorizes(G.Decide(EditFor(env, s.tree, b.patch), ledger, true, true), asm)
    requires Consumes(s.live, s.tombs, b, live', tombs') && b !in live' && !out.Done?
    requires T.Applied(env.spelling, env.materialize(s.tree, b.patch), b.expected, s.tree, after, out)
    ensures Ends(env, s, events, after, live', tombs')
  {
    var t: State;
    events, t := ApplyingIsSteps(env, s, p, ledger, asm, b, live', tombs', after, out);
    assert t == s.(tree := after, live := live', tombs := tombs');
  }

  lemma EndsApplied(env: Env, s: State, p: Pid, ledger: G.Observed, asm: nat, b: Bundle, live1: set<Bundle>,
                    tombs1: set<Bundle>, after: T.Files, out: T.Outcome, live': set<Bundle>, tombs': set<Bundle>)
    returns (events: seq<Event>)
    requires Ready(s, p, s.tree, s.live, s.tombs, ledger, asm, b) && b in s.live
    requires Authorizes(G.Decide(EditFor(env, s.tree, b.patch), ledger, true, true), asm)
    requires Consumes(s.live, s.tombs, b, live1, tombs1) && b !in live1 && out.Done?
    requires T.Applied(env.spelling, env.materialize(s.tree, b.patch), b.expected, s.tree, after, out)
    requires Deletes(live1, tombs1, b, live', tombs')
    ensures Ends(env, s, events, after, live', tombs')
  {
    var t: State;
    events, t := ApplyingIsSteps(env, s, p, ledger, asm, b, live1, tombs1, after, out);
    events := DeleteIsSteps(env, s, events, t, p, live', tombs');
    Restored(s, p, t, after, live', tombs');
  }

  /** A process that was idle and is idle again has left no trace of its own. */
  lemma Restored(s: State, p: Pid, t: State, after: T.Files, live': set<Bundle>, tombs': set<Bundle>)
    requires p in s.procs && s.procs[p].Idle?
      && t == Goto(s, p, At(t, p)).(tree := after, live := t.live, tombs := t.tombs)
    ensures Goto(t, p, Idle).(live := live', tombs := tombs') == s.(tree := after, live := live', tombs := tombs')
  {
    assert s.procs[p := At(t, p)][p := Idle] == s.procs;
  }

  /**
   Applies a held candidate. Nothing is written unless the gate, on this very tree, names this very assessment;
   and if anything was written, the token that allowed it is gone, whatever failed afterwards. To the protocol all of it
   is one run: the controller's program is an execution of one of its processes.
   */
  method ApplyCandidate(env: Env, w: T.WorkTree, cache: Cache, ledger: G.Observed, asm: nat, b: Bundle, size: nat,
                        now: int, luck: Luck, ghost s: State, ghost p: Pid)
    returns (r: Application, ghost events: seq<Event>)
    requires w.Valid()
    modifies w, cache
    ensures w.Valid()
    ensures
      var permitted := Authorizes(G.Decide(EditFor(env, old(w.files), b.patch), ledger, true, true), asm);
      var loadable := old(cache.Loadable(b, size, now, luck.readable));
      var materialized := env.materialize(old(w.files), b.patch);
      && (w.files != old(w.files) ==> permitted && b in old(cache.live) && b !in cache.live)
      && (r.NotLoaded? <==> !loadable)
      && (r.NotAuthorized? <==> loadable && !permitted)
      && (r.NotSpendable? <==> loadable && permitted && !luck.spending.Works?)
      && (r.Applied? <==>
          loadable && permitted && luck.spending.Works? && T.Matches(env.spelling, materialized, b.expected)
          && T.Undisturbed(w.fate, old(w.operations), old(w.files), materialized.value))
    ensures r.NotLoaded? || r.NotAuthorized? ==> cache.live == old(cache.live) && cache.tombs == old(cache.tombs)
    ensures r.Applied? || r.Failed? ==>
      b in old(cache.live) && !cache.Expired(old(cache.live)[b], now) && b !in cache.live
    ensures r.Failed? ==> !r.why.Done? && b in cache.tombs
    ensures r.Failed? ==>
      T.Applied(env.spelling, env.materialize(old(w.files), b.patch), b.expected, old(w.files), w.files, r.why)
    ensures r.Applied? ==>
      T.Applied(env.spelling, env.materialize(old(w.files), b.patch), b.expected, old(w.files), w.files,
        T.Done(r.changed))
    ensures forall c :: c != b ==>
      && (c in cache.live <==> c in old(cache.live))
      && (c in cache.tombs <==> c in old(cache.tombs))
    ensures Ready(s, p, old(w.files), old(cache.live.Keys), old(cache.tombs.Keys), ledger, asm, b) ==>
      Ends(env, s, events, w.files, cache.live.Keys, cache.tombs.Keys)
  {
    events := [];
    ghost var ready := Ready(s, p, w.files, cache.live.Keys, cache.tombs.Keys, ledger, asm, b);
    var loaded := cache.Load(b, size, now, luck.readable);
    if !loaded {
      return NotLoaded, events;
    }
    var d := G.Decide(EditFor(env, w.files, b.patch), ledger, true, true);
    if !Authorizes(d, asm) {
      if ready {
        events := EndsUnauthorized(env, s, p, ledger, asm, b);
      }
      return NotAuthorized, events;
    }
    var spent := cache.Consume(b, luck.spending);
    if !spent.Spent? {
      if ready {
        events := EndsUnspent(env, s, p, ledger, asm, b, cache.live.Keys, cache.tombs.Keys);
      }
      return NotSpendable, events;
    }
    ghost var live, tombs := cache.live.Keys, cache.tombs.Keys;
    var out := T.Apply(w, env.spelling, env.materialize(w.files, b.patch), b.expected);
    if !out.Done? {
      if ready {
        events := EndsFailed(env, s, p, ledger, asm, b, live, tombs, w.files, out);
      }
      return Failed(out), events;
    }
    var cleaned := cache.Delete(b, luck.deleting, luck.sweeping);
    if ready {
      events := EndsApplied(env, s, p, ledger, asm, b, live, tombs, w.files, out, cache.live.Keys, cache.tombs.Keys);
    }
    return Applied(out.changed), events;
  }
}
