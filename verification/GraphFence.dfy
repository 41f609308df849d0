/**
 Preparing the symbol graph while the repository may be changing underneath: HEAD and configuration are read
 before and after the sync, and a snapshot is trusted only if both readings agree.
 */
module GraphFence {
  import opened Wrappers

  type Time = nat

  /** What the provider reports; `path` is where the index lies. */
  datatype Status = Status(version: string, extraction: nat, mismatch: bool, current: bool, path: Option<string>)

  datatype Probe = NoAnswer | Malformed | Answer(status: Status)

  /** The environment, changing arbitrarily with time, and the versions that are accepted. */
  datatype World = World(
    engine: Time -> bool,
    head: Time -> Option<string>,
    config: Time -> Option<string>,
    probe: Time -> Probe,
    sync: Time -> bool,
    accepted: string -> bool)

  /** The scope a graph answer is good for, standing for its digest. */
  datatype Scope = Scope(version: string, extraction: nat, config: string)

  datatype Verdict = Available | Unavailable | Stale

  datatype Snapshot = Snapshot(verdict: Verdict, head: Option<string>, config: Option<string>, scope: Option<Scope>,
                               synced: bool)

  function NotAvailable(verdict: Verdict, config: Option<string>, synced: bool): Snapshot {
    Snapshot(verdict, None, config, None, synced)
  }

  /** Some time passes. */
  method Later(t: Time) returns (t': Time)
    ensures t' > t
  {
    var pause: nat :| true;
    t' := t + 1 + pause;
  }

  /** A status that is well-formed, of an accepted version, and of this worktree. */
  predicate Accepted(w: World, p: Probe) {
    p.Answer? && w.accepted(p.status.version) && !p.status.mismatch
  }

  /** The moments of one successful attempt: the two fences around status, sync and fresh status. */
  datatype Window = Window(headBefore: Time, configBefore: Time, first: Time, sync: Time, second: Time,
                           headAfter: Time, configAfter: Time)

  ghost predicate InOrder(x: Window) {
    x.headBefore < x.configBefore < x.first < x.sync < x.second < x.headAfter < x.configAfter
  }

  // How far an attempt with these moments gets.

  ghost predicate FencesRead(w: World, x: Window) {
    w.config(x.configBefore).Some? && w.head(x.headBefore).Some?
  }

  ghost predicate Probed(w: World, x: Window) {
    FencesRead(w, x) && Accepted(w, w.probe(x.first))
  }

  ghost predicate Rechecked(w: World, x: Window) {
    Probed(w, x) && w.sync(x.sync) && Accepted(w, w.probe(x.second))
  }

  /** The index is current after the sync. */
  ghost predicate Synced(w: World, x: Window) {
    Rechecked(w, x) && w.probe(x.second).status.current
  }

  ghost predicate Unmoved(w: World, x: Window) {
    w.head(x.headBefore) == w.head(x.headAfter) && w.config(x.configBefore) == w.config(x.configAfter)
  }

  ghost predicate Succeeded(w: World, x: Window) {
    Synced(w, x) && Unmoved(w, x)
  }

  /** The index is current, but HEAD or the configuration has changed on the way; both can still be read. */
  ghost predicate HasMoved(w: World, x: Window) {
    Synced(w, x) && w.config(x.configAfter).Some? && !Unmoved(w, x)
  }

  ghost predicate Outdated(w: World, x: Window) {
    Rechecked(w, x) && !Synced(w, x)
  }

  /** The configuration as it was read last. */
  ghost function LastConfig(w: World, x: Window): Option<string> {
    if Synced(w, x) then w.config(x.configAfter) else w.config(x.configBefore)
  }

  /** The fences held: what was read before the first status was read again after the fresh one. */
  ghost predicate Fenced(w: World, x: Window, s: Snapshot, status: Status) {
    && InOrder(x)
    && s.head.Some? && w.head(x.headBefore) == s.head == w.head(x.headAfter)
    && s.config.Some? && w.config(x.configBefore) == s.config == w.config(x.configAfter)
    && Accepted(w, w.probe(x.first)) && w.sync(x.sync)
    && w.probe(x.second) == Answer(status) && Accepted(w, w.probe(x.second)) && status.current
    && s.scope == Some(Scope(status.version, status.extraction, s.config.value))
  }

  datatype Attempt = Ended(snapshot: Snapshot) | Moved(config: string) | Held(ready: Snapshot, status: Status)

  /** One attempt: read the fences, probe, sync, probe again, read the fences again. */
  method TryOnce(w: World, now: Time) returns (a: Attempt, then_: Time, ghost x: Window)
    ensures then_ > now && now < x.headBefore && InOrder(x)
    ensures a.Held? <==> Succeeded(w, x)
    ensures a.Held? ==> a.ready.verdict.Available? && a.ready.synced && x.configAfter <= then_
    ensures a.Held? ==> Fenced(w, x, a.ready, a.status)
    ensures a.Moved? <==> HasMoved(w, x)
    ensures a.Moved? ==> Some(a.config) == LastConfig(w, x) && x.configAfter <= then_
    ensures a.Ended? ==>
      a.snapshot == NotAvailable(if Outdated(w, x) then Stale else Unavailable, LastConfig(w, x), Probed(w, x))
  {
    var t0 := Later(now);
    var headBefore := w.head(t0);
    var t1 := Later(t0);
    var configBefore := w.config(t1);
    then_ := t1;
    x := Window(t0, t1, t1 + 1, t1 + 2, t1 + 3, t1 + 4, t1 + 5);
    if configBefore.None? {
      return Ended(NotAvailable(Unavailable, None, false)), then_, x;
    }
    if headBefore.None? {
      return Ended(NotAvailable(Unavailable, configBefore, false)), then_, x;
    }
    var t2 := Later(t1);
    var initial := w.probe(t2);
    then_ := t2;
    x := Window(t0, t1, t2, t2 + 1, t2 + 2, t2 + 3, t2 + 4);
    if !Accepted(w, initial) {
      return Ended(NotAvailable(Unavailable, configBefore, false)), then_, x;
    }
    var t3 := Later(t2);
    then_ := t3;
    x := Window(t0, t1, t2, t3, t3 + 1, t3 + 2, t3 + 3);
    if !w.sync(t3) {
      return Ended(NotAvailable(Unavailable, configBefore, true)), then_, x;
    }
    var t4 := Later(t3);
    var post := w.probe(t4);
    then_ := t4;
    x := Window(t0, t1, t2, t3, t4, t4 + 1, t4 + 2);
    if !Accepted(w, post) {
      return Ended(NotAvailable(Unavailable, configBefore, true)), then_, x;
    }
    if !post.status.current {
      return Ended(NotAvailable(Stale, configBefore, true)), then_, x;
    }
    var t5 := Later(t4);
    var headAfter := w.head(t5);
    var t6 := Later(t5);
    var configAfter := w.config(t6);
    then_ := t6;
    x := Window(t0, t1, t2, t3, t4, t5, t6);
    if configAfter.None? {
      return Ended(NotAvailable(Unavailable, None, true)), then_, x;
    }
    if headBefore == headAfter && configBefore == configAfter {
      var scope := Scope(post.status.version, post.status.extraction, configAfter.value);
      return Held(Snapshot(Available, headAfter, configAfter, Some(scope), true), post.status), then_, x;
    }
    a := Moved(configAfter.value);
  }

  /** When a preparation looked for the engine and the configuration, and the moments of its attempts. */
  datatype Looks = Looks(engine: Time, config: Time, tries: seq<Window>)

  ghost predicate LooksInOrder(l: Looks, start: Time) {
    && start < l.engine < l.config && |l.tries| <= 2
    && (forall x <- l.tries :: InOrder(x) && l.config < x.headBefore)
    && (|l.tries| == 2 ==> l.tries[0].configAfter < l.tries[1].headBefore)
  }

  /** What a preparation with these moments must come to, and what it reports. */
  ghost predicate Prepared(w: World, l: Looks, s: Snapshot) {
    var n := |l.tries|;
    && (n == 0 <==> !w.engine(l.engine) || w.config(l.config).None?)
    && (n == 2 <==> n > 0 && HasMoved(w, l.tries[0]))
    && (s.verdict.Available? <==> n > 0 && Succeeded(w, l.tries[n - 1]))
    && (s.verdict.Stale? <==> n > 0 && (Outdated(w, l.tries[n - 1]) || HasMoved(w, l.tries[n - 1])))
    && s.config == (if n == 0 then w.config(l.config) else LastConfig(w, l.tries[n - 1]))
    && (s.synced <==> n > 0 && Probed(w, l.tries[n - 1]))
    && (!s.verdict.Available? ==> s.head.None? && s.scope.None?)
  }

  /**
   Nothing is missing or changes: engine, HEAD, configuration, an accepted and current status, and a sync that works.
   */
  ghost predicate Healthy(w: World) {
    && (forall t {:trigger w.engine(t)} :: w.engine(t))
    && (forall t {:trigger w.head(t)} :: w.head(t).Some? && w.head(t) == w.head(0))
    && (forall t {:trigger w.config(t)} :: w.config(t).Some? && w.config(t) == w.config(0))
    && (forall t {:trigger w.probe(t)} :: Accepted(w, w.probe(t)) && w.probe(t).status.current)
    && forall t {:trigger w.sync(t)} :: w.sync(t)
  }

  /**
   At most two attempts, the second exactly when the fences of the first moved,
     and an answer after them: the snapshot is
   available exactly when the last attempt succeeded, fenced in it, and with it comes the status that was found fresh.
   */
  method PrepareDefault(w: World, start: Time)
    returns (s: Snapshot, status: Option<Status>, attempts: nat, end: Time, ghost l: Looks)
    ensures attempts == |l.tries| && end > start && LooksInOrder(l, start)
    ensures Prepared(w, l, s)
    ensures s.verdict.Available? <==> status.Some?
    ensures s.verdict.Available? ==>
      var x := l.tries[attempts - 1]; x.configAfter <= end && Fenced(w, x, s, status.value)
    ensures Healthy(w) ==> s.verdict.Available? && attempts == 1 && s.head == w.head(0) && s.config == w.config(0)
    ensures (forall t :: !w.engine(t)) ==> s.verdict.Unavailable? && attempts == 0
  {
    attempts := 0;
    var asked := Later(start);
    var found := w.engine(asked);
    end := Later(asked);
    var config := w.config(end);
    l := Looks(asked, end, []);
    if config.None? {
      return NotAvailable(Unavailable, None, false), None, attempts, end, l;
    }
    if !found {
      return NotAvailable(Unavailable, config, false), None, attempts, end, l;
    }
    for attempt := 0 to 2
      invariant attempts == attempt == |l.tries| <= 1 && LooksInOrder(l, start) && l.config <= end
      invariant w.engine(l.engine) && w.config(l.config).Some?
      invariant attempt == 1 ==> HasMoved(w, l.tries[0]) && l.tries[0].configAfter <= end
    {
      var a: Attempt;
      ghost var x;
      a, end, x := TryOnce(w, end);
      attempts := attempt + 1;
      l := l.(tries := l.tries + [x]);
      match a {
        case Ended(snapshot) =>
          return snapshot, None, attempts, end, l;
        case Held(ready, post) =>
          return ready, Some(post), attempts, end, l;
        case Moved(moved) =>
          if attempt == 1 {
            return NotAvailable(Stale, Some(moved), true), None, attempts, end, l;
          }
      }
    }
    assert false;
  }

  /** A value once left never comes back. */
  ghost predicate NeverRecurs<T(!new)>(f: Time -> T) {
    forall i, j, k {:trigger f(i), f(j), f(k)} :: i <= j <= k && f(i) == f(k) ==> f(j) == f(i)
  }

  /**
   If changed values never come back, an available snapshot names the HEAD and the configuration of its whole window.
   */
  lemma FencedIsConstant(w: World, x: Window, s: Snapshot, status: Status, t: Time)
    requires Fenced(w, x, s, status) && NeverRecurs(w.head) && NeverRecurs(w.config)
    ensures x.headBefore <= t <= x.headAfter ==> w.head(t) == s.head
    ensures x.configBefore <= t <= x.configAfter ==> w.config(t) == s.config
    ensures x.first <= t <= x.second ==> w.head(t) == s.head && w.config(t) == s.config
  {
    assert w.head(x.headBefore) == w.head(x.headAfter);
    assert w.config(x.configBefore) == w.config(x.configAfter);
  }

  /** A value that changes inside the window unnoticed has left and come back. */
  lemma MissedHasReturned(w: World, x: Window, s: Snapshot, status: Status, t: Time)
    requires Fenced(w, x, s, status)
    requires (x.headBefore <= t <= x.headAfter && w.head(t) != s.head)
      || (x.configBefore <= t <= x.configAfter && w.config(t) != s.config)
    ensures !NeverRecurs(w.head) || !NeverRecurs(w.config)
  {
    if NeverRecurs(w.head) && NeverRecurs(w.config) {
      FencedIsConstant(w, x, s, status, t);
    }
  }

  /** And such a HEAD does go unnoticed. */
  lemma ReturningHeadIsMissed()
    ensures
      var status := Status("1", 0, false, true, None);
      var head: Time -> Option<string> := t => if t == 3 then Some("other") else Some("head");
      var w := World(t => true, head, t => Some("config"), t => Answer(status), t => true, v => true);
      var s := Snapshot(Available, Some("head"), Some("config"), Some(Scope("1", 0, "config")), true);
      Fenced(w, Window(0, 1, 2, 3, 4, 5, 6), s, status) && w.head(3) != s.head
  {
    assert "other"[0] == 'o' && "head"[0] == 'h';
  }

  // ---- The adapter ------------------------------------------------------------------------------------

  /** Caches one snapshot and at most one trusted status per repository for its lifetime. */
  class GraphAdapter {
    const world: World
    const injected: bool
    var snapshots: map<string, Snapshot>
    var statuses: map<string, Option<Status>>
    var now: Time
    /** When the snapshots prepared without injection were fenced. */
    ghost var windows: map<string, Window>

    constructor (world: World, injected: bool)
      ensures this.world == world && this.injected == injected && snapshots == map[] && statuses == map[] && Valid()
    {
      this.world, this.injected := world, injected;
      snapshots, statuses, now := map[], map[], 0;
      windows := map[];
    }

    /** The two caches know the same repositories, and without injection a status comes with an available snapshot. */
    ghost predicate Valid()
      reads this
    {
      && statuses.Keys == snapshots.Keys
      && (!injected ==> forall r :: r in statuses && statuses[r].Some? ==> snapshots[r].verdict.Available?)
      && (!injected ==> forall r :: r in snapshots && snapshots[r].verdict.Available? ==> WasFenced(r))
    }

    /** An available snapshot was fenced, and that is over. */
    ghost predicate WasFenced(repo: string)
      requires repo in snapshots
      reads this
    {
      && repo in windows && windows[repo].configAfter <= now
      && exists status :: Fenced(world, windows[repo], snapshots[repo], status)
    }

    /** The repository has been prepared and its graph is not to be trusted. */
    ghost predicate Distrusted(repo: string)
      reads this
    {
      repo in snapshots && repo in statuses && statuses[repo].None?
    }

    /** When an injected status was asked for, and then the configuration and HEAD. */
    method PrepareInjected() returns (s: Snapshot, status: Option<Status>, ghost p: Time, ghost g: Time, ghost h: Time)
      modifies this`now
      ensures now > old(now) && old(now) < p < g < h
      ensures status.Some? <==> world.probe(p).Answer? && world.accepted(world.probe(p).status.version)
      ensures status.Some? ==> status.value == world.probe(p).status
      ensures s.verdict.Unavailable? <==> status.None? || world.config(g).None?
      ensures s.verdict.Available? <==>
        status.Some? && world.config(g).Some? && !status.value.mismatch && status.value.current
      ensures s.config == world.config(g) && !s.synced
      ensures if s.verdict.Available? then
          s.head == world.head(h)
          && s.scope == Some(Scope(status.value.version, status.value.extraction, s.config.value))
        else s.head.None? && s.scope.None?
      ensures Healthy(world) ==> s.verdict.Available? && s.head == world.head(0) && s.config == world.config(0)
    {
      var t0 := Later(now);
      var t1 := Later(t0);
      now := t1;
      p, g, h := t0, t1, t1 + 1;
      var probe := world.probe(t0);
      var config := world.config(t1);
      status := if probe.Answer? && world.accepted(probe.status.version) then Some(probe.status) else None;
      if config.None? {
        return NotAvailable(Unavailable, None, false), status, p, g, h;
      }
      if status.None? {
        return NotAvailable(Unavailable, config, false), status, p, g, h;
      }
      if status.value.mismatch || !status.value.current {
        return NotAvailable(Stale, config, false), status, p, g, h;
      }
      var t2 := Later(t1);
      now := t2;
      h := t2;
      s := Snapshot(Available, world.head(t2), config,
        Some(Scope(status.value.version, status.value.extraction, config.value)), false);
    }

    /** Prepares a repository, whatever is cached; without injection an available snapshot is fenced in the window. */
    method PrepareNow() returns (s: Snapshot, status: Option<Status>, ghost x: Window)
      modifies this`now
      ensures now >= old(now) && (s.verdict.Available? ==> status.Some?)
      ensures !injected ==> (status.Some? <==> s.verdict.Available?)
      ensures !injected && status.Some? ==> x.configAfter <= now && Fenced(world, x, s, status.value)
      ensures Healthy(world) ==> s.verdict.Available? && s.head == world.head(0) && s.config == world.config(0)
    {
      x := Window(0, 0, 0, 0, 0, 0, 0);
      if injected {
        ghost var p, g, h;
        s, status, p, g, h := PrepareInjected();
      } else {
        var attempts: nat;
        ghost var l: Looks;
        s, status, attempts, now, l := PrepareDefault(world, now);
        if attempts > 0 {
          x := l.tries[attempts - 1];
        }
      }
    }

    /** Prepares a repository the first time it is asked about, and never again. */
    method Prepare(repo: string) returns (s: Snapshot)
      requires Valid()
      modifies this
      ensures Valid() && repo in snapshots && snapshots[repo] == s && now >= old(now)
      ensures repo in old(snapshots) ==> snapshots == old(snapshots) && statuses == old(statuses)
      ensures snapshots.Keys == old(snapshots).Keys + {repo}
      ensures forall r :: r in old(snapshots) ==> snapshots[r] == old(snapshots[r]) && statuses[r] == old(statuses[r])
      ensures repo !in old(snapshots) && !injected ==> (statuses[repo].Some? <==> s.verdict.Available?)
      ensures repo !in old(snapshots) && Healthy(world) ==>
        s.verdict.Available? && statuses[repo].Some? && s.head == world.head(0) && s.config == world.config(0)
    {
      if repo in snapshots {
        return snapshots[repo];
      }
      var status: Option<Status>;
      ghost var x: Window;
      s, status, x := PrepareNow();
      windows := windows[repo := x];
      snapshots, statuses := snapshots[repo := s], statuses[repo := status];
    }

    method PreparedStatus(repo: string) returns (status: Option<Status>)
      requires Valid()
      ensures Distrusted(repo) ==> status.None?
      ensures repo !in snapshots ==> status.None?
      ensures repo in statuses ==> status == statuses[repo]
    {
      status := if repo in statuses then statuses[repo] else None;
    }

    /** The status reads are allowed to use; prepares first if need be. */
    method ReadStatus(repo: string) returns (status: Option<Status>)
      requires Valid()
      modifies this
      ensures Valid() && repo in statuses && status == statuses[repo]
      ensures forall r :: old(Distrusted(r)) ==> Distrusted(r)
      ensures old(Distrusted(repo)) ==> status.None?
      ensures forall r :: r in old(snapshots) ==> r in snapshots && snapshots[r] == old(snapshots[r])
      ensures forall r :: r in old(statuses) ==> r in statuses && statuses[r] == old(statuses[r])
      ensures repo !in old(snapshots) && Healthy(world) ==> status.Some?
    {
      var s := Prepare(repo);
      status := statuses[repo];
    }

    /** Keeps the graph trusted only for the very commit that is being assessed; a refusal is final. */
    method BindAssessedCommit(repo: string, commit: Option<string>) returns (trusted: bool)
      requires Valid()
      modifies this
      ensures Valid()
      ensures repo in snapshots
      ensures trusted <==> snapshots[repo].verdict.Available? && commit.Some? && commit == snapshots[repo].head
      ensures !trusted ==> Distrusted(repo)
      ensures trusted && repo in old(snapshots) ==> statuses[repo] == old(statuses[repo])
      ensures repo in old(snapshots) ==> snapshots == old(snapshots)
      ensures forall r :: r in old(snapshots) ==> r in snapshots && snapshots[r] == old(snapshots[r])
      ensures forall r :: r in old(statuses) && r != repo ==> r in statuses && statuses[r] == old(statuses[r])
      ensures forall r :: old(Distrusted(r)) ==> Distrusted(r)
      ensures repo !in old(snapshots) && Healthy(world) && commit == world.head(0) ==> trusted && statuses[repo].Some?
    {
      var s := Prepare(repo);
      trusted := s.verdict.Available? && commit.Some? && commit == s.head;
      if !trusted {
        statuses := statuses[repo := None];
      }
    }

    /** The snapshot is the cached one, available, and not distrusted since. */
    ghost predicate Usable(repo: string, s: Snapshot)
      reads this
    {
      repo in snapshots && repo in statuses && snapshots[repo] == s && s.verdict.Available? && statuses[repo].Some?
    }

    /** A later look at the provider and both fences agrees with the snapshot. */
    ghost predicate StillHolds(s: Snapshot, status: Status, p: Time, g: Time, h: Time)
      reads this
    {
      && Accepted(world, world.probe(p)) && world.probe(p).status.current && world.probe(p).status.path == status.path
      && world.head(h) == s.head && world.config(g) == s.config && s.config.Some?
      && s.scope == Some(Scope(world.probe(p).status.version, world.probe(p).status.extraction, s.config.value))
    }

    /** Some look later than `start` agrees with the snapshot, or some does not. */
    ghost predicate LooksAs(s: Snapshot, status: Status, start: Time, holds: bool)
      reads this
    {
      exists p, g, h: Time :: start < p < g < h && StillHolds(s, status, p, g, h) == holds
    }

    /** Reads the provider and both fences once more; gives up when the provider already disagrees. */
    method LookAgain(s: Snapshot, status: Status) returns (ok: bool, ghost p: Time, ghost g: Time, ghost h: Time)
      requires Valid()
      modifies this`now
      ensures Valid() && old(now) < p < g < h
      ensures ok <==> StillHolds(s, status, p, g, h)
      ensures now >= old(now)
    {
      var asked := Later(now);
      var probe := world.probe(asked);
      now := asked;
      p, g, h := asked, asked + 1, asked + 2;
      if !Accepted(world, probe) || !probe.status.current || probe.status.path != status.path {
        return false, p, g, h;
      }
      var read := Later(asked);
      var config := world.config(read);
      now := Later(read);
      g, h := read, now;
      ok := world.head(now) == s.head && config == s.config && config.Some?
        && s.scope == Some(Scope(probe.status.version, probe.status.extraction, config.value));
    }

    /** Whether a snapshot that may still be used agrees with one more look; changes nothing that is cached. */
    method RevalidateSnapshot(repo: string, s: Snapshot) returns (ok: bool)
      requires Valid()
      modifies this`now
      ensures Valid()
      ensures old(Distrusted(repo)) ==> !ok
      ensures ok ==> Usable(repo, s) && (!injected ==> repo in windows && windows[repo].configAfter <= old(now))
      ensures Usable(repo, s) ==> LooksAs(s, statuses[repo].value, old(now), ok)
    {
      if !s.verdict.Available? || repo !in snapshots || snapshots[repo] != s || statuses[repo].None? {
        return false;
      }
      ghost var p, g, h;
      ok, p, g, h := LookAgain(s, statuses[repo].value);
    }
  }
}
