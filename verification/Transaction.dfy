/**
 Applying an authorized candidate to the working tree: stage everything beside its target, swap it in file by
 file, and on any failure put back what was there. A file operation may fail before or after it takes effect.
 */
module Transaction {
  import opened Wrappers

  datatype Node = File(content: string) | Directory

  type Files = map<string, Node>

  /** What a candidate leaves at each path it touches; `None` is a deletion. */
  type After = map<string, Option<string>>

  function At(files: Files, p: string): Option<Node> {
    if p in files then Some(files[p]) else None
  }

  /** The bytes the transaction remembers for a target: those of a regular file, nothing for anything else. */
  function Captured(files: Files, p: string): Option<string> {
    if p in files && files[p].File? then Some(files[p].content) else None
  }

  function Wanted(content: Option<string>): Option<Node> {
    if content.Some? then Some(File(content.value)) else None
  }

  datatype Outcome = Done(changed: seq<string>) | Refused | RolledBack | Incomplete(failed: seq<string>) | CleanupFailed

  datatype ReadResult = Unreadable | Bytes(content: Option<string>)

  /** No file operation here ever replaces or removes a directory. */
  ghost predicate KeepsDirectories(before: Files, after: Files) {
    forall p :: p in before && before[p].Directory? ==> At(after, p) == Some(Directory)
  }

  // ---- File operations ------------------------------------------------------------------------------

  /** What is in store for an operation: it may also fail without effect, or fail although it has taken effect. */
  datatype Fate = Works | FailsEarly | FailsLate

  /** The fate of each operation, by its number. */
  type Schedule = nat -> Fate

  /**
   The files, the temporary files lying among them, the next name for one, and how many operations there have been.
   */
  datatype Disk = Disk(files: Files, temps: map<nat, string>, next: nat, ops: nat)

  datatype Step = Step(disk: Disk, ok: bool)

  datatype Making = Making(disk: Disk, made: Option<nat>)

  function Tick(d: Disk): Disk {
    d.(ops := d.ops + 1)
  }

  /** Writing a temporary file; a late failure leaves one behind that nobody knows of. */
  function AfterMake(fate: Schedule, d: Disk, content: string): Making {
    var made := Tick(d).(temps := d.temps[d.next := content], next := d.next + 1);
    match fate(d.ops)
    case Works => Making(made, Some(d.next))
    case FailsEarly => Making(Tick(d), None)
    case FailsLate => Making(made, None)
  }

  /** Renaming a temporary file onto a target; fails on a directory. */
  function AfterReplace(fate: Schedule, d: Disk, t: nat, p: string): Step {
    if t !in d.temps || At(d.files, p) == Some(Directory) || fate(d.ops).FailsEarly? then Step(Tick(d), false)
    else Step(Tick(d).(files := d.files[p := File(d.temps[t])], temps := d.temps - {t}), fate(d.ops).Works?)
  }

  /** Removing a target; fails on a directory and, unless told otherwise, on a missing file. */
  function AfterUnlink(fate: Schedule, d: Disk, p: string, missingOk: bool): Step {
    if p !in d.files then Step(Tick(d), missingOk && fate(d.ops).Works?)
    else if d.files[p].Directory? || fate(d.ops).FailsEarly? then Step(Tick(d), false)
    else Step(Tick(d).(files := d.files - {p}), fate(d.ops).Works?)
  }

  /** Removing a temporary file, which may be gone already. */
  function AfterUnlinkTemp(fate: Schedule, d: Disk, t: nat): Step {
    if fate(d.ops).FailsEarly? then Step(Tick(d), false) else Step(Tick(d).(temps := d.temps - {t}), fate(d.ops).Works?)
  }

  /** The working tree, and the temporary files lying in it, whose names never coincide with a target. */
  class WorkTree {
    var files: Files
    var temps: map<nat, string>
    var nextTemp: nat
    var operations: nat
    const fate: Schedule

    ghost predicate Valid()
      reads this
    {
      forall t :: t in temps ==> t < nextTemp
    }

    function OnDisk(): Disk
      reads this
    {
      Disk(files, temps, nextTemp, operations)
    }

    constructor (initial: Files, fate: Schedule)
      ensures Valid() && OnDisk() == Disk(initial, map[], 0, 0) && this.fate == fate
    {
      files, temps, nextTemp, operations := initial, map[], 0, 0;
      this.fate := fate;
    }

    method Read(p: string) returns (r: ReadResult)
      requires Valid()
      modifies this
      ensures Valid() && OnDisk() == Tick(old(OnDisk()))
      ensures r == if fate(old(operations)).Works? then Bytes(Captured(files, p)) else Unreadable
    {
      r := if fate(operations).Works? then Bytes(Captured(files, p)) else Unreadable;
      operations := operations + 1;
    }

    method MakeTemp(content: string) returns (t: Option<nat>)
      requires Valid()
      modifies this
      ensures Valid() && Making(OnDisk(), t) == AfterMake(fate, old(OnDisk()), content)
      ensures files == old(files) && nextTemp >= old(nextTemp)
      ensures t.Some? ==> t.value !in old(temps) && temps == old(temps)[t.value := content]
      ensures t.None? ==> forall k :: k in old(temps) ==> k in temps && temps[k] == old(temps[k])
    {
      var f := fate(operations);
      operations := operations + 1;
      if f.FailsEarly? {
        return None;
      }
      temps := temps[nextTemp := content];
      nextTemp := nextTemp + 1;
      t := if f.Works? then Some(nextTemp - 1) else None;
    }

    method Replace(t: nat, p: string) returns (ok: bool)
      requires Valid() && t in temps
      modifies this
      ensures Valid() && Step(OnDisk(), ok) == AfterReplace(fate, old(OnDisk()), t, p)
      ensures files == old(files) || files == old(files)[p := File(old(temps)[t])]
      ensures KeepsDirectories(old(files), files)
      ensures temps == old(temps) || temps == old(temps) - {t}
      ensures ok ==> files == old(files)[p := File(old(temps)[t])] && temps == old(temps) - {t}
    {
      var f := fate(operations);
      operations := operations + 1;
      if (p in files && files[p].Directory?) || f.FailsEarly? {
        return false;
      }
      files := files[p := File(temps[t])];
      temps := temps - {t};
      ok := f.Works?;
    }

    method Unlink(p: string, missingOk: bool) returns (ok: bool)
      requires Valid()
      modifies this
      ensures Valid() && Step(OnDisk(), ok) == AfterUnlink(fate, old(OnDisk()), p, missingOk)
      ensures temps == old(temps)
      ensures files == old(files) || files == old(files) - {p}
      ensures KeepsDirectories(old(files), files)
      ensures ok ==> files == old(files) - {p} && !(p in old(files) && old(files)[p].Directory?)
      ensures ok ==> missingOk || p in old(files)
    {
      var f := fate(operations);
      operations := operations + 1;
      if p !in files {
        assert files - {p} == files;
        return missingOk && f.Works?;
      }
      if files[p].Directory? || f.FailsEarly? {
        return false;
      }
      files := files - {p};
      ok := f.Works?;
    }

    method UnlinkTemp(t: nat) returns (ok: bool)
      requires Valid()
      modifies this
      ensures Valid() && Step(OnDisk(), ok) == AfterUnlinkTemp(fate, old(OnDisk()), t)
      ensures files == old(files)
      ensures ok ==> temps == old(temps) - {t}
    {
      var f := fate(operations);
      operations := operations + 1;
      if f.FailsEarly? {
        return false;
      }
      temps := temps - {t};
      ok := f.Works?;
    }
  }

  // ---- The course of a transaction --------------------------------------------------------------------

  /** Where staging stands. */
  datatype Staging = Staging(disk: Disk, ok: bool, originals: map<string, Option<string>>, staged: map<string, nat>)

  /** One more target: its original is captured and its new content, if any, written beside it. */
  function StageNext(fate: Schedule, s: Staging, after: After, p: string): Staging
    requires p in after
  {
    if !fate(s.disk.ops).Works? then Staging(Tick(s.disk), false, s.originals, s.staged)
    else
      var originals := s.originals[p := Captured(s.disk.files, p)];
      if after[p].None? then Staging(Tick(s.disk), true, originals, s.staged)
      else
        var m := AfterMake(fate, Tick(s.disk), after[p].value);
        Staging(m.disk, m.made.Some?, originals, if m.made.Some? then s.staged[p := m.made.value] else s.staged)
  }

  /** The targets from the `i`-th on. */
  function StageFrom(fate: Schedule, s: Staging, after: After, order: seq<string>, i: nat): Staging
    requires i <= |order| && forall p <- order :: p in after
    decreases |order| - i
  {
    if i == |order| || !s.ok then s else StageFrom(fate, StageNext(fate, s, after, order[i]), after, order, i + 1)
  }

  /** Where swapping stands. */
  datatype Swapping = Swapping(disk: Disk, ok: bool, changed: seq<string>, staged: map<string, nat>)

  function SwapNext(fate: Schedule, s: Swapping, after: After, p: string): Swapping
    requires p in after
  {
    var changed := s.changed + [p];
    if after[p].None? then
      var r := AfterUnlink(fate, s.disk, p, false);
      Swapping(r.disk, r.ok, changed, s.staged)
    else if p !in s.staged then Swapping(s.disk, false, changed, s.staged)
    else
      var r := AfterReplace(fate, s.disk, s.staged[p], p);
      Swapping(r.disk, r.ok, changed, if r.ok then s.staged - {p} else s.staged)
  }

  function SwapFrom(fate: Schedule, s: Swapping, after: After, order: seq<string>, i: nat): Swapping
    requires i <= |order| && forall p <- order :: p in after
    decreases |order| - i
  {
    if i == |order| || !s.ok then s else SwapFrom(fate, SwapNext(fate, s, after, order[i]), after, order, i + 1)
  }

  function RestoreNext(fate: Schedule, d: Disk, p: string, original: Option<string>): Step {
    if original.None? then AfterUnlink(fate, d, p, true)
    else
      var m := AfterMake(fate, d, original.value);
      if m.made.None? then Step(m.disk, false) else AfterReplace(fate, m.disk, m.made.value, p)
  }

  /** Where restoring stands. */
  datatype Restoring = Restoring(disk: Disk, failed: seq<string>)

  /** The first `k` of the recorded targets are restored, last first. */
  function RestoreFirst(fate: Schedule, r: Restoring, changed: seq<string>, k: nat,
                        originals: map<string, Option<string>>): Restoring
    requires k <= |changed|
    decreases k
  {
    if k == 0 then r
    else
      var p := changed[k - 1];
      var s := RestoreNext(fate, r.disk, p, if p in originals then originals[p] else None);
      RestoreFirst(fate, Restoring(s.disk, if s.ok then r.failed else r.failed + [p]), changed, k - 1, originals)
  }

  function RestoreAll(fate: Schedule, d: Disk, changed: seq<string>, originals: map<string, Option<string>>): Restoring
  {
    RestoreFirst(fate, Restoring(d, []), changed, |changed|, originals)
  }

  /** What is still staged is removed, up to the first failure. */
  function SweepFrom(fate: Schedule, d: Disk, staged: map<string, nat>, order: seq<string>, i: nat): Step
    requires i <= |order|
    decreases |order| - i
  {
    if i == |order| then Step(d, true)
    else if order[i] !in staged then SweepFrom(fate, d, staged, order, i + 1)
    else
      var s := AfterUnlinkTemp(fate, d, staged[order[i]]);
      if s.ok then SweepFrom(fate, s.disk, staged, order, i + 1) else s
  }

  /** Staging and, if that works, swapping. */
  datatype Attempt = Attempt(staging: Staging, swapping: Swapping)

  function Attempted(fate: Schedule, d: Disk, after: After, order: seq<string>): Attempt
    requires forall p <- order :: p in after
  {
    var st := StageFrom(fate, Staging(d, true, map[], map[]), after, order, 0);
    var ready := Swapping(st.disk, st.ok, [], st.staged);
    Attempt(st, if st.ok then SwapFrom(fate, ready, after, order, 0) else ready)
  }

  /** The end of a transaction: what it reports, and which targets it knows it could not restore. */
  datatype End = End(disk: Disk, out: Outcome, unrestored: seq<string>)

  /** The whole course of a transaction, given the fate of each operation and the order of the targets. */
  function Course(fate: Schedule, d: Disk, after: After, order: seq<string>): End
    requires forall p <- order :: p in after
  {
    var a := Attempted(fate, d, after, order);
    if a.swapping.ok then
      var sweep := SweepFrom(fate, a.swapping.disk, a.swapping.staged, order, 0);
      End(sweep.disk, if sweep.ok then Done(order) else CleanupFailed, [])
    else
      var r := RestoreAll(fate, a.swapping.disk, a.swapping.changed, a.staging.originals);
      var sweep := SweepFrom(fate, r.disk, a.swapping.staged, order, 0);
      var out := if !sweep.ok then CleanupFailed else if r.failed != [] then Incomplete(r.failed) else RolledBack;
      End(sweep.disk, out, r.failed)
  }

  // ---- What success takes -----------------------------------------------------------------------------

  predicate Fails(fate: Schedule, k: nat) {
    !fate(k).Works?
  }

  /** An operation from `first` up to `end` is fated to fail. */
  ghost predicate SomeFails(fate: Schedule, first: nat, end: nat) {
    exists k: nat :: first <= k < end && Fails(fate, k)
  }

  /** From here on no operation is fated to fail. */
  ghost predicate AllWork(fate: Schedule, first: nat) {
    forall k: nat :: k >= first ==> !Fails(fate, k)
  }

  /** From here on at most one is. */
  ghost predicate OneFails(fate: Schedule, first: nat) {
    forall j: nat, k: nat :: j >= first && k >= first && Fails(fate, j) && Fails(fate, k) ==> j == k
  }

  /** No target is a directory. */
  ghost predicate NoDirectories(files: Files, after: After) {
    forall p :: p in after ==> At(files, p) != Some(Directory)
  }

  /** What is to be deleted is there. */
  ghost predicate DeletionsExist(files: Files, after: After) {
    forall p :: p in after && after[p].None? ==> p in files
  }

  function Contents(after: After): set<string> {
    set p | p in after && after[p].Some?
  }

  /** Every target is read and put in place, and every content is written beside its target. */
  function Needed(after: After): nat {
    2 * |after| + |Contents(after)|
  }

  /** Nothing stands in the way: no operation needed is fated to fail, and every target can be replaced or removed. */
  ghost predicate Undisturbed(fate: Schedule, first: nat, files: Files, after: After) {
    !SomeFails(fate, first, first + Needed(after)) && NoDirectories(files, after) && DeletionsExist(files, after)
  }

  /**
   What can be undone is: no target is a directory, and no operation is fated to fail, or one at most and what is to be
   deleted is there.
   */
  ghost predicate Recoverable(fate: Schedule, first: nat, files: Files, after: After) {
    NoDirectories(files, after)
    && (AllWork(fate, first) || (OneFails(fate, first) && DeletionsExist(files, after)))
  }

  /** The targets, each once. */
  ghost predicate IsOrder(order: seq<string>, after: After) {
    && (forall p :: p in order <==> p in after)
    && forall i, j :: 0 <= i < j < |order| ==> order[i] != order[j]
  }

  lemma FailuresAdd(fate: Schedule, first: nat, mid: nat, end: nat)
    requires first <= mid <= end
    ensures SomeFails(fate, first, end) <==> SomeFails(fate, first, mid) || SomeFails(fate, mid, end)
  {
  }

  /** How many operations staging the targets from the `i`-th on takes. */
  function StagingTakes(after: After, order: seq<string>, i: nat): nat
    requires i <= |order| && forall p <- order :: p in after
    decreases |order| - i
  {
    if i == |order| then 0 else (if after[order[i]].Some? then 2 else 1) + StagingTakes(after, order, i + 1)
  }

  function SetFrom(order: seq<string>, i: nat): set<string>
    requires i <= |order|
  {
    set p | p in order[i..]
  }

  function ContentsFrom(after: After, order: seq<string>, i: nat): set<string>
    requires i <= |order|
  {
    set p | p in order[i..] && p in after && after[p].Some?
  }

  lemma OneTargetLess(after: After, order: seq<string>, i: nat)
    requires i < |order| && order[i] in after && order[i] !in order[i + 1..]
    ensures |SetFrom(order, i)| == 1 + |SetFrom(order, i + 1)|
    ensures |ContentsFrom(after, order, i)|
      == (if after[order[i]].Some? then 1 else 0) + |ContentsFrom(after, order, i + 1)|
  {
    assert order[i..] == [order[i]] + order[i + 1..];
    assert SetFrom(order, i) == {order[i]} + SetFrom(order, i + 1);
    if after[order[i]].Some? {
      assert ContentsFrom(after, order, i) == {order[i]} + ContentsFrom(after, order, i + 1);
    } else {
      assert ContentsFrom(after, order, i) == ContentsFrom(after, order, i + 1);
    }
  }

  /** The order of the targets does not matter for how many operations there are. */
  lemma {:induction false} StagingCounts(after: After, order: seq<string>, i: nat)
    requires i <= |order| && forall p <- order :: p in after
    requires forall i, j :: 0 <= i < j < |order| ==> order[i] != order[j]
    ensures StagingTakes(after, order, i) == |order| - i + |ContentsFrom(after, order, i)|
    ensures |SetFrom(order, i)| == |order| - i
    decreases |order| - i
  {
    if i < |order| {
      StagingCounts(after, order, i + 1);
      OneTargetLess(after, order, i);
    }
  }

  lemma NeededIsTaken(after: After, order: seq<string>)
    requires IsOrder(order, after)
    ensures StagingTakes(after, order, 0) + |order| == Needed(after)
  {
    StagingCounts(after, order, 0);
    assert order[0..] == order && SetFrom(order, 0) == after.Keys && ContentsFrom(after, order, 0) == Contents(after);
  }

  /** Staging succeeds exactly when none of its operations is fated to fail. */
  lemma {:induction false} StagesIff(fate: Schedule, s: Staging, after: After, order: seq<string>, i: nat)
    requires s.ok && i <= |order| && forall p <- order :: p in after
    ensures var r, end := StageFrom(fate, s, after, order, i), s.disk.ops + StagingTakes(after, order, i);
      && (r.ok <==> !SomeFails(fate, s.disk.ops, end))
      && r.disk.files == s.disk.files && s.disk.ops <= r.disk.ops
      && if r.ok then r.disk.ops == end else SomeFails(fate, s.disk.ops, r.disk.ops)
    decreases |order| - i
  {
    if i < |order| {
      var next := StageNext(fate, s, after, order[i]);
      var takes := if after[order[i]].Some? then 2 else 1;
      var end := s.disk.ops + StagingTakes(after, order, i);
      StagesOneIff(fate, s, after, order[i]);
      FailuresAdd(fate, s.disk.ops, s.disk.ops + takes, end);
      if next.ok {
        StagesIff(fate, next, after, order, i + 1);
        FailuresAdd(fate, s.disk.ops, next.disk.ops, StageFrom(fate, next, after, order, i + 1).disk.ops);
      } else {
        assert StageFrom(fate, next, after, order, i + 1) == next;
      }
    }
  }

  lemma StagesOneIff(fate: Schedule, s: Staging, after: After, p: string)
    requires s.ok && p in after
    ensures var r, end := StageNext(fate, s, after, p), s.disk.ops + if after[p].Some? then 2 else 1;
      && (r.ok <==> !SomeFails(fate, s.disk.ops, end))
      && r.disk.files == s.disk.files && s.disk.ops <= r.disk.ops
      && if r.ok then r.disk.ops == end else SomeFails(fate, s.disk.ops, r.disk.ops)
  {
    var first := s.disk.ops;
    assert Fails(fate, first) || Fails(fate, first + 1) ==> SomeFails(fate, first, first + 2);
    assert Fails(fate, first) ==> SomeFails(fate, first, first + 1);
  }

  /** The target is no directory and, if it is to be deleted, there. */
  ghost predicate CanSwap(files: Files, after: After, p: string) {
    At(files, p) != Some(Directory) && (p in after && after[p].None? ==> p in files)
  }

  ghost predicate Swappable(files: Files, after: After, order: seq<string>, i: nat)
    requires i <= |order|
  {
    forall p <- order[i..] :: CanSwap(files, after, p)
  }

  /** Every content still to be swapped in is staged, in a temporary file of its own. */
  ghost predicate Ready(d: Disk, staged: map<string, nat>, after: After, order: seq<string>, i: nat)
    requires i <= |order|
  {
    && (forall p <- order[i..] :: p in after && after[p].Some? ==> p in staged)
    && (forall p :: p in staged ==> staged[p] in d.temps)
    && forall p, q :: p in staged && q in staged && staged[p] == staged[q] ==> p == q
  }

  lemma SwapsOneIff(fate: Schedule, s: Swapping, after: After, p: string)
    requires p in after && (after[p].Some? ==> p in s.staged && s.staged[p] in s.disk.temps)
    ensures var r := SwapNext(fate, s, after, p);
      && (r.ok <==> !Fails(fate, s.disk.ops) && CanSwap(s.disk.files, after, p))
      && r.disk.ops == s.disk.ops + 1
      && forall q :: q != p ==> At(r.disk.files, q) == At(s.disk.files, q)
  {
  }

  lemma StaysReady(fate: Schedule, s: Swapping, after: After, order: seq<string>, i: nat)
    requires i < |order| && order[i] in after && Ready(s.disk, s.staged, after, order, i)
    requires forall i, j :: 0 <= i < j < |order| ==> order[i] != order[j]
    ensures var r := SwapNext(fate, s, after, order[i]); r.ok ==> Ready(r.disk, r.staged, after, order, i + 1)
  {
    assert order[i..] == [order[i]] + order[i + 1..];
  }

  lemma SwappableStep(files: Files, more: Files, after: After, order: seq<string>, i: nat)
    requires i < |order|
    requires forall i, j :: 0 <= i < j < |order| ==> order[i] != order[j]
    requires forall q :: q != order[i] ==> At(more, q) == At(files, q)
    ensures Swappable(files, after, order, i)
      <==> CanSwap(files, after, order[i]) && Swappable(more, after, order, i + 1)
  {
    assert order[i..] == [order[i]] + order[i + 1..];
    forall p | p in order[i + 1..] ensures CanSwap(files, after, p) <==> CanSwap(more, after, p) {
      assert At(more, p) == At(files, p);
    }
  }

  /** Swapping succeeds exactly when none of its operations is fated to fail and every target can be swapped. */
  lemma {:induction false} SwapsIff(fate: Schedule, s: Swapping, after: After, order: seq<string>, i: nat)
    requires s.ok && i <= |order| && forall p <- order :: p in after
    requires forall i, j :: 0 <= i < j < |order| ==> order[i] != order[j]
    requires Ready(s.disk, s.staged, after, order, i)
    ensures var r, end := SwapFrom(fate, s, after, order, i), s.disk.ops + (|order| - i);
      && (r.ok <==> !SomeFails(fate, s.disk.ops, end) && Swappable(s.disk.files, after, order, i))
      && s.disk.ops <= r.disk.ops
      && (!r.ok && Swappable(s.disk.files, after, order, i) ==> SomeFails(fate, s.disk.ops, r.disk.ops))
    decreases |order| - i
  {
    if i < |order| {
      var next, end := SwapNext(fate, s, after, order[i]), s.disk.ops + (|order| - i);
      assert order[i] in order[i..];
      SwapsOneIff(fate, s, after, order[i]);
      SwappableStep(s.disk.files, next.disk.files, after, order, i);
      FailuresAdd(fate, s.disk.ops, s.disk.ops + 1, end);
      assert SomeFails(fate, s.disk.ops, s.disk.ops + 1) <==> Fails(fate, s.disk.ops);
      if next.ok {
        StaysReady(fate, s, after, order, i);
        SwapsIff(fate, next, after, order, i + 1);
        FailuresAdd(fate, s.disk.ops, next.disk.ops, SwapFrom(fate, next, after, order, i + 1).disk.ops);
      } else {
        assert SwapFrom(fate, next, after, order, i + 1) == next;
      }
    }
  }

  /** Where no target is a directory and nothing fails, everything is restored. */
  lemma {:induction false} RestoresAll(fate: Schedule, r: Restoring, changed: seq<string>, k: nat,
                                       originals: map<string, Option<string>>)
    requires k <= |changed| && AllWork(fate, r.disk.ops)
    requires forall p <- changed :: At(r.disk.files, p) != Some(Directory)
    ensures RestoreFirst(fate, r, changed, k, originals).failed == r.failed
    ensures RestoreFirst(fate, r, changed, k, originals).disk.ops >= r.disk.ops
    decreases k
  {
    if k > 0 {
      var p := changed[k - 1];
      var original := if p in originals then originals[p] else None;
      var s := RestoreNext(fate, r.disk, p, original);
      RestoresOne(fate, r.disk, p, original);
      assert s.ok;
      forall q | q in changed ensures At(s.disk.files, q) != Some(Directory) {
        assert q != p ==> At(s.disk.files, q) == At(r.disk.files, q);
      }
      RestoresAll(fate, Restoring(s.disk, r.failed), changed, k - 1, originals);
    }
  }

  lemma RestoresOne(fate: Schedule, d: Disk, p: string, original: Option<string>)
    requires AllWork(fate, d.ops) && At(d.files, p) != Some(Directory)
    ensures var s := RestoreNext(fate, d, p, original);
      && s.ok && s.disk.ops >= d.ops && AllWork(fate, s.disk.ops) && At(s.disk.files, p) != Some(Directory)
      && forall q :: q != p ==> At(s.disk.files, q) == At(d.files, q)
  {
    assert !Fails(fate, d.ops) && !Fails(fate, d.ops + 1);
  }

  // ---- The transaction ------------------------------------------------------------------------------

  /** `files` is `initial` except possibly at the paths in `touched`. */
  ghost predicate OnlyTouches(initial: Files, files: Files, touched: set<string>) {
    forall p :: p !in touched ==> At(files, p) == At(initial, p)
  }

  /** Every staged file holds the wanted content, in a temporary file of its own that was not there before. */
  ghost predicate StagedFor(staged: map<string, nat>, temps: map<nat, string>, after: After, base: map<nat, string>) {
    && (forall p :: p in staged ==>
      p in after && after[p].Some? && staged[p] in temps
      && temps[staged[p]] == after[p].value)
    && (forall p :: p in staged ==> staged[p] !in base)
    && (forall p, q :: p in staged && q in staged && staged[p] == staged[q] ==> p == q)
  }

  /** The temporary files are those there before and the staged ones. */
  ghost predicate TempsAre(staged: map<string, nat>, temps: map<nat, string>, base: map<nat, string>) {
    && (forall t :: t in base ==> t in temps && temps[t] == base[t])
    && (forall t :: t in temps ==> t in base || t in staged.Values)
  }

  method Ordered(keys: set<string>) returns (order: seq<string>)
    ensures forall p :: p in order <==> p in keys
    ensures forall i, j :: 0 <= i < j < |order| ==> order[i] != order[j]
  {
    order := [];
    var rest := keys;
    while rest != {}
      invariant rest <= keys
      invariant forall p :: p in order <==> p in keys && p !in rest
      invariant forall i, j :: 0 <= i < j < |order| ==> order[i] != order[j]
      decreases rest
    {
      var p :| p in rest;
      assert forall q :: q in order + [p] <==> q in order || q == p;
      order, rest := order + [p], rest - {p};
    }
  }

  /** What staging has done once it has dealt with the targets in `seen`. */
  ghost predicate StagedUpTo(seen: seq<string>, originals: map<string, Option<string>>, staged: map<string, nat>,
                             files: Files, temps: map<nat, string>, after: After, base: map<nat, string>)
  {
    && (forall p :: p in originals <==> p in seen)
    && (forall p :: p in originals ==> originals[p] == Captured(files, p))
    && (forall p :: p in staged <==> p in seen && p in after && after[p].Some?)
    && StagedFor(staged, temps, after, base)
    && TempsAre(staged, temps, base)
  }

  lemma TempsAreOneMore(staged: map<string, nat>, temps: map<nat, string>, base: map<nat, string>, p: string, t: nat,
                        content: string)
    requires TempsAre(staged, temps, base) && p !in staged && t !in temps
    ensures TempsAre(staged[p := t], temps[t := content], base)
  {
    var more := staged[p := t];
    forall k | k in staged.Values ensures k in more.Values {
      var q :| q in staged && staged[q] == k;
      assert more[q] == k;
    }
    assert more[p] == t;
  }

  lemma StagedDeletion(seen: seq<string>, originals: map<string, Option<string>>, staged: map<string, nat>,
                       files: Files, temps: map<nat, string>, after: After, base: map<nat, string>, p: string)
    requires StagedUpTo(seen, originals, staged, files, temps, after, base) && p in after && after[p].None?
      && p !in seen
    ensures StagedUpTo(seen + [p], originals[p := Captured(files, p)], staged, files, temps, after, base)
  {
    assert forall q :: q in seen + [p] <==> q in seen || q == p;
  }

  lemma StagedContent(seen: seq<string>, originals: map<string, Option<string>>, staged: map<string, nat>,
                      files: Files, temps: map<nat, string>, after: After, base: map<nat, string>, p: string, t: nat)
    requires StagedUpTo(seen, originals, staged, files, temps, after, base) && p in after && after[p].Some?
      && p !in seen
    requires t !in temps
    ensures StagedUpTo(seen + [p], originals[p := Captured(files, p)], staged[p := t], files,
      temps[t := after[p].value], after, base)
  {
    assert forall q :: q in seen + [p] <==> q in seen || q == p;
    TempsAreOneMore(staged, temps, base, p, t, after[p].value);
    StagedForOneMore(staged, temps, after, base, p, t);
  }

  lemma StagedForOneMore(staged: map<string, nat>, temps: map<nat, string>, after: After, base: map<nat, string>,
                         p: string, t: nat)
    requires StagedFor(staged, temps, after, base) && TempsAre(staged, temps, base)
    requires p in after && after[p].Some? && p !in staged && t !in temps
    ensures StagedFor(staged[p := t], temps[t := after[p].value], after, base)
  {
  }

  /** Captures one original and writes one new content beside its target. */
  method StageOne(w: WorkTree, after: After, p: string, ghost seen: seq<string>,
                  originals: map<string, Option<string>>, staged: map<string, nat>, ghost base: map<nat, string>)
    returns (ok: bool, originals': map<string, Option<string>>, staged': map<string, nat>)
    requires w.Valid() && p in after && p !in seen
    requires StagedUpTo(seen, originals, staged, w.files, w.temps, after, base)
    modifies w
    ensures w.Valid() && w.files == old(w.files)
    ensures Staging(w.OnDisk(), ok, originals', staged')
         == StageNext(w.fate, Staging(old(w.OnDisk()), true, originals, staged), after, p)
    ensures ok ==> StagedUpTo(seen + [p], originals', staged', w.files, w.temps, after, base)
  {
    originals', staged' := originals, staged;
    var r := w.Read(p);
    if r.Unreadable? {
      return false, originals', staged';
    }
    originals' := originals[p := r.content];
    if after[p].None? {
      StagedDeletion(seen, originals, staged, w.files, w.temps, after, base, p);
      return true, originals', staged';
    }
    ghost var temps := w.temps;
    var t := w.MakeTemp(after[p].value);
    if t.None? {
      return false, originals', staged';
    }
    StagedContent(seen, originals, staged, w.files, temps, after, base, p, t.value);
    staged' := staged[p := t.value];
    ok := true;
  }

  /** Stages every target in turn; touches none. */
  method Stage(w: WorkTree, after: After, order: seq<string>)
    returns (ok: bool, originals: map<string, Option<string>>, staged: map<string, nat>)
    requires w.Valid()
    requires forall p <- order :: p in after
    requires forall i, j :: 0 <= i < j < |order| ==> order[i] != order[j]
    modifies w
    ensures w.Valid() && w.files == old(w.files)
    ensures Staging(w.OnDisk(), ok, originals, staged)
      == StageFrom(w.fate, Staging(old(w.OnDisk()), true, map[], map[]), after, order, 0)
    ensures ok ==> StagedUpTo(order, originals, staged, w.files, w.temps, after, old(w.temps))
  {
    originals, staged, ok := map[], map[], true;
    ghost var all := StageFrom(w.fate, Staging(w.OnDisk(), true, map[], map[]), after, order, 0);
    var i := 0;
    assert order[0..] == order;
    while i < |order|
      invariant 0 <= i <= |order| && ok && w.Valid() && w.files == old(w.files)
      invariant all == StageFrom(w.fate, Staging(w.OnDisk(), true, originals, staged), after, order, i)
      invariant StagedUpTo(order[..i], originals, staged, w.files, w.temps, after, old(w.temps))
    {
      assert order[..i + 1] == order[..i] + [order[i]];
      ok, originals, staged := StageOne(w, after, order[i], order[..i], originals, staged, old(w.temps));
      if !ok {
        return;
      }
      i := i + 1;
    }
    assert order[..i] == order;
  }

  /** The targets in `seen` hold what is wanted and nothing else has moved. */
  ghost predicate SwappedUpTo(initial: Files, files: Files, after: After, seen: seq<string>) {
    forall p :: At(files, p) == if p in seen && p in after then Wanted(after[p]) else At(initial, p)
  }

  /** What is still staged: the targets not yet swapped in that are not deletions. */
  ghost predicate StillStaged(staged: map<string, nat>, temps: map<nat, string>, after: After, rest: seq<string>,
                              base: map<nat, string>)
  {
    && (forall p :: p in staged <==> p in rest && p in after && after[p].Some?)
    && StagedFor(staged, temps, after, base)
    && TempsAre(staged, temps, base)
  }

  lemma TempsAreOneLess(staged: map<string, nat>, temps: map<nat, string>, after: After, base: map<nat, string>,
                        p: string)
    requires StagedFor(staged, temps, after, base) && TempsAre(staged, temps, base) && p in staged
    ensures StagedFor(staged - {p}, temps - {staged[p]}, after, base)
      && TempsAre(staged - {p}, temps - {staged[p]}, base)
  {
    var less := staged - {p};
    forall k | k in staged.Values && k != staged[p] ensures k in less.Values {
      var q :| q in staged && staged[q] == k;
      assert less[q] == k;
    }
  }

  /** Swaps one target in. The caller has already put it on the list of targets to restore. */
  method SwapOne(w: WorkTree, after: After, p: string, ghost seen: seq<string>, staged: map<string, nat>,
                 ghost base: map<nat, string>)
    returns (ok: bool, staged': map<string, nat>)
    requires w.Valid() && p in after && (after[p].Some? ==> p in staged)
    requires StagedFor(staged, w.temps, after, base) && TempsAre(staged, w.temps, base)
    modifies w
    ensures w.Valid() && OnlyTouches(old(w.files), w.files, {p}) && KeepsDirectories(old(w.files), w.files)
    ensures staged'.Keys <= staged.Keys
    ensures Swapping(w.OnDisk(), ok, seen + [p], staged')
         == SwapNext(w.fate, Swapping(old(w.OnDisk()), true, seen, staged), after, p)
    ensures ok ==> At(w.files, p) == Wanted(after[p])
    ensures ok ==> staged' == if after[p].Some? then staged - {p} else staged
    ensures ok ==> StagedFor(staged', w.temps, after, base) && TempsAre(staged', w.temps, base)
  {
    staged' := staged;
    if after[p].None? {
      ok := w.Unlink(p, false);
    } else {
      ok := w.Replace(staged[p], p);
      if ok {
        TempsAreOneLess(staged, old(w.temps), after, base, p);
        staged' := staged - {p};
      }
    }
  }

  lemma SwappedStep(initial: Files, before: Files, files: Files, after: After, seen: seq<string>, p: string)
    requires SwappedUpTo(initial, before, after, seen) && p in after
    requires OnlyTouches(before, files, {p})
    requires TouchedOnly(initial, before, seen) && KeepsDirectories(before, files)
    ensures TouchedOnly(initial, files, seen + [p])
    ensures At(files, p) == Wanted(after[p]) ==> SwappedUpTo(initial, files, after, seen + [p])
  {
    forall q | q != p ensures At(files, q) == At(before, q) {
      assert q !in {p};
    }
  }

  lemma StillStagedStep(staged: map<string, nat>, less: map<string, nat>, temps: map<nat, string>, after: After,
                        order: seq<string>, i: nat, base: map<nat, string>)
    requires i < |order| && order[i] in after
    requires forall i, j :: 0 <= i < j < |order| ==> order[i] != order[j]
    requires forall p :: p in staged <==> p in order[i..] && p in after && after[p].Some?
    requires less == if after[order[i]].Some? then staged - {order[i]} else staged
    requires StagedFor(less, temps, after, base) && TempsAre(less, temps, base)
    ensures StillStaged(less, temps, after, order[i + 1..], base)
  {
    assert order[i..] == [order[i]] + order[i + 1..];
    assert order[i] !in order[i + 1..];
  }

  /** Swapping with the first `i` targets done. */
  ghost predicate InSwap(initial: Files, files: Files, temps: map<nat, string>, after: After, order: seq<string>,
                         i: nat, staged: map<string, nat>, base: map<nat, string>)
  {
    && i <= |order|
    && SwappedUpTo(initial, files, after, order[..i])
    && StillStaged(staged, temps, after, order[i..], base)
    && TouchedOnly(initial, files, order[..i])
  }

  ghost predicate TouchedOnly(initial: Files, files: Files, seen: seq<string>) {
    (forall p :: p !in seen ==> At(files, p) == At(initial, p)) && KeepsDirectories(initial, files)
  }

  /** Swaps in the next target. */
  method SwapAt(w: WorkTree, after: After, order: seq<string>, i: nat, staged: map<string, nat>,
                ghost initial: Files, ghost base: map<nat, string>)
    returns (ok: bool, staged': map<string, nat>)
    requires w.Valid() && InSwap(initial, w.files, w.temps, after, order, i, staged, base) && i < |order|
    requires forall p <- order :: p in after
    requires forall i, j :: 0 <= i < j < |order| ==> order[i] != order[j]
    modifies w
    ensures w.Valid() && TouchedOnly(initial, w.files, order[..i + 1])
    ensures SwapFrom(w.fate, Swapping(old(w.OnDisk()), true, order[..i], staged), after, order, i)
         == var s := Swapping(w.OnDisk(), ok, order[..i + 1], staged');
            if ok then SwapFrom(w.fate, s, after, order, i + 1) else s
    ensures ok ==> InSwap(initial, w.files, w.temps, after, order, i + 1, staged', base)
  {
    ghost var before := w.files;
    assert order[..i + 1] == order[..i] + [order[i]];
    ok, staged' := SwapOne(w, after, order[i], order[..i], staged, base);
    SwappedStep(initial, before, w.files, after, order[..i], order[i]);
    if ok {
      StillStagedStep(staged, staged', w.temps, after, order, i, base);
    }
  }

  /** Swaps the targets in one after the other, recording each before it is touched. */
  method Swap(w: WorkTree, after: After, order: seq<string>, staged: map<string, nat>, ghost base: map<nat, string>)
    returns (ok: bool, changed: seq<string>, staged': map<string, nat>)
    requires w.Valid()
    requires forall p <- order :: p in after
    requires forall i, j :: 0 <= i < j < |order| ==> order[i] != order[j]
    requires StillStaged(staged, w.temps, after, order, base)
    modifies w
    ensures w.Valid() && changed <= order && TouchedOnly(old(w.files), w.files, changed)
    ensures Swapping(w.OnDisk(), ok, changed, staged')
         == SwapFrom(w.fate, Swapping(old(w.OnDisk()), true, [], staged), after, order, 0)
    ensures ok ==>
      SwappedUpTo(old(w.files), w.files, after, order) && staged' == map[]
      && TempsAre(staged', w.temps, base)
  {
    changed, staged', ok := [], staged, true;
    ghost var all := SwapFrom(w.fate, Swapping(w.OnDisk(), true, [], staged), after, order, 0);
    var i := 0;
    SwapStarts(w.files, w.temps, after, order, staged, base);
    while i < |order|
      invariant 0 <= i <= |order| && ok && changed == order[..i] && w.Valid()
      invariant all == SwapFrom(w.fate, Swapping(w.OnDisk(), true, changed, staged'), after, order, i)
      invariant InSwap(old(w.files), w.files, w.temps, after, order, i, staged', base)
    {
      changed := changed + [order[i]];
      assert changed == order[..i + 1];
      ok, staged' := SwapAt(w, after, order, i, staged', old(w.files), base);
      if !ok {
        return;
      }
      i := i + 1;
    }
    SwapEnds(old(w.files), w.files, w.temps, after, order, staged', base);
  }

  lemma SwapStarts(files: Files, temps: map<nat, string>, after: After, order: seq<string>, staged: map<string, nat>,
                   base: map<nat, string>)
    requires StillStaged(staged, temps, after, order, base)
    ensures InSwap(files, files, temps, after, order, 0, staged, base)
  {
    assert order[0..] == order && order[..0] == [];
  }

  lemma SwapEnds(initial: Files, files: Files, temps: map<nat, string>, after: After, order: seq<string>,
                 staged: map<string, nat>, base: map<nat, string>)
    requires InSwap(initial, files, temps, after, order, |order|, staged, base)
    ensures SwappedUpTo(initial, files, after, order) && TouchedOnly(initial, files, order)
    ensures staged == map[] && TempsAre(staged, temps, base)
  {
    assert order[..|order|] == order && order[|order|..] == [];
    assert staged.Keys == {};
  }

  // ---- Putting things back --------------------------------------------------------------------------

  /** Restores one target from what was captured of it. */
  method RestoreOne(w: WorkTree, p: string, original: Option<string>, ghost initial: Files) returns (ok: bool)
    requires w.Valid() && original == Captured(initial, p) && KeepsDirectories(initial, w.files)
    modifies w
    ensures w.Valid() && OnlyTouches(old(w.files), w.files, {p}) && KeepsDirectories(initial, w.files)
    ensures Step(w.OnDisk(), ok) == RestoreNext(w.fate, old(w.OnDisk()), p, original)
    ensures ok ==> At(w.files, p) == At(initial, p)
  {
    if original.None? {
      ok := w.Unlink(p, true);
    } else {
      var t := w.MakeTemp(original.value);
      if t.None? {
        return false;
      }
      ok := w.Replace(t.value, p);
    }
  }

  /** `files` differs from `initial` at most at the targets not yet visited and at those whose restoration failed. */
  ghost predicate RestoredExcept(initial: Files, files: Files, rest: seq<string>, failed: seq<string>) {
    forall p :: At(files, p) != At(initial, p) ==> p in rest || p in failed
  }

  lemma RestoredStep(initial: Files, before: Files, files: Files, changed: seq<string>, k: nat, failed: seq<string>,
                     ok: bool)
    requires k < |changed| && RestoredExcept(initial, before, changed[..k + 1], failed)
    requires OnlyTouches(before, files, {changed[k]}) && (ok ==> At(files, changed[k]) == At(initial, changed[k]))
    ensures RestoredExcept(initial, files, changed[..k], if ok then failed else failed + [changed[k]])
  {
    var p := changed[k];
    assert changed[..k + 1] == changed[..k] + [p];
    forall q | q != p ensures At(files, q) == At(before, q) {
      assert q !in {p};
    }
    assert p in failed + [p];
  }

  /** Restores the recorded targets, last first, and reports every one it could not restore. */
  method Rollback(w: WorkTree, changed: seq<string>, originals: map<string, Option<string>>, ghost initial: Files)
    returns (failed: seq<string>)
    requires w.Valid() && TouchedOnly(initial, w.files, changed)
    requires forall p <- changed :: p in originals && originals[p] == Captured(initial, p)
    modifies w
    ensures w.Valid()
    ensures Restoring(w.OnDisk(), failed) == RestoreAll(w.fate, old(w.OnDisk()), changed, originals)
    ensures forall p <- failed :: p in changed
    ensures forall p :: At(w.files, p) != At(initial, p) ==> p in failed
  {
    failed := [];
    ghost var all := RestoreAll(w.fate, w.OnDisk(), changed, originals);
    var k := |changed|;
    assert changed[..k] == changed;
    while k > 0
      invariant 0 <= k <= |changed| && w.Valid() && KeepsDirectories(initial, w.files)
      invariant all == RestoreFirst(w.fate, Restoring(w.OnDisk(), failed), changed, k, originals)
      invariant forall p <- failed :: p in changed
      invariant RestoredExcept(initial, w.files, changed[..k], failed)
    {
      k := k - 1;
      ghost var before := w.files;
      var ok := RestoreOne(w, changed[k], originals[changed[k]], initial);
      RestoredStep(initial, before, w.files, changed, k, failed, ok);
      if !ok {
        failed := failed + [changed[k]];
      }
    }
  }

  /** Removes what is still staged; stops at the first failure. */
  method Cleanup(w: WorkTree, staged: map<string, nat>, order: seq<string>) returns (ok: bool)
    requires w.Valid()
    modifies w
    ensures w.Valid() && w.files == old(w.files)
    ensures Step(w.OnDisk(), ok) == SweepFrom(w.fate, old(w.OnDisk()), staged, order, 0)
    ensures staged == map[] ==> ok && w.temps == old(w.temps)
  {
    ok := true;
    ghost var all := SweepFrom(w.fate, w.OnDisk(), staged, order, 0);
    var i := 0;
    assert order[0..] == order;
    while i < |order|
      invariant 0 <= i <= |order| && ok && w.Valid() && w.files == old(w.files)
      invariant all == SweepFrom(w.fate, w.OnDisk(), staged, order, i)
      invariant staged == map[] ==> w.temps == old(w.temps)
    {
      var p := order[i];
      i := i + 1;
      if p in staged {
        ok := w.UnlinkTemp(staged[p]);
        if !ok {
          return;
        }
      }
    }
  }

  /** Every file that differs is named, as changed or as not restored. */
  ghost predicate TellsAll(initial: Files, files: Files, out: Outcome) {
    forall p :: At(files, p) != At(initial, p) ==>
      (out.Done? && p in out.changed) || (out.Incomplete? && p in out.failed)
  }

  lemma TellsAllIff(initial: Files, files: Files, out: Outcome)
    requires out.Done? ==> TellsAll(initial, files, out)
    requires out.Incomplete? ==> TellsAll(initial, files, out)
    requires out.RolledBack? ==> files == initial
    requires !out.Refused?
    ensures TellsAll(initial, files, out) <==> (out.CleanupFailed? ==> files == initial)
  {
    if out.CleanupFailed? && TellsAll(initial, files, out) {
      SameFiles(initial, files);
    }
  }

  /**
   All or nothing, however file operations fail. A normal return means every target holds what is wanted; a rolled-back
   one means nothing has changed; an incomplete one names every target that has. No other file is ever touched, and a
   failed cleanup never follows a successful swap. Whatever is reported, the transaction knows of every target it leaves
   changed, and it tells of every one exactly when it does not leave one changed behind a failed cleanup. It succeeds
   exactly when nothing stands in its way, and one failing operation alone never leaves the tree in between.
   */
  method ReplaceTransaction(w: WorkTree, after: After)
    returns (out: Outcome, ghost order: seq<string>, ghost unrestored: seq<string>)
    requires w.Valid()
    modifies w
    ensures w.Valid()
    ensures IsOrder(order, after)
    ensures End(w.OnDisk(), out, unrestored) == Course(w.fate, old(w.OnDisk()), after, order)
    ensures !out.Refused?
    ensures OnlyTouches(old(w.files), w.files, after.Keys)
    ensures out.Done? ==> SwappedUpTo(old(w.files), w.files, after, out.changed)
    ensures out.Done? ==> (forall p :: p in out.changed <==> p in after)
    ensures out.Done? ==> w.temps == old(w.temps)
    ensures out.RolledBack? ==> w.files == old(w.files)
    ensures out.Incomplete? ==> out.failed != [] && (forall p <- out.failed :: p in after) && out.failed == unrestored
    ensures out.Incomplete? ==> forall p :: At(w.files, p) != At(old(w.files), p) ==> p in out.failed
    ensures out.CleanupFailed? ==> forall p :: At(w.files, p) != At(old(w.files), p) ==> p in unrestored
    ensures !out.Done? && unrestored == [] ==> w.files == old(w.files)
    ensures TellsAll(old(w.files), w.files, out) <==> (out.CleanupFailed? ==> w.files == old(w.files))
    ensures out.Done? <==> Undisturbed(w.fate, old(w.operations), old(w.files), after)
    ensures Recoverable(w.fate, old(w.operations), old(w.files), after) ==> out.Done? || out.RolledBack?
  {
    ghost var initial, base := w.files, w.temps;
    var targets := Ordered(after.Keys);
    order, unrestored := targets, [];
    Succeeds(w.fate, w.OnDisk(), after, targets);
    var ok, originals, staged := Stage(w, after, targets);
    var changed: seq<string> := [];
    if ok {
      ok, changed, staged := Swap(w, after, targets, staged, base);
      if ok {
        TempsAreBase(w.temps, base);
        var clean := Cleanup(w, staged, targets);
        TellsAllIff(initial, w.files, Done(targets));
        return Done(targets), order, unrestored;
      }
    }
    var failed := Rollback(w, changed, originals, initial);
    unrestored := failed;
    if failed == [] {
      SameFiles(initial, w.files);
    }
    var clean := Cleanup(w, staged, targets);
    if !clean {
      TellsAllIff(initial, w.files, CleanupFailed);
      return CleanupFailed, order, unrestored;
    }
    if failed != [] {
      return Incomplete(failed), order, unrestored;
    }
    return RolledBack, order, unrestored;
  }

  lemma TempsAreBase(temps: map<nat, string>, base: map<nat, string>)
    requires TempsAre(map[], temps, base)
    ensures temps == base
  {
    var none: map<string, nat> := map[];
    assert none.Values == {};
  }

  lemma SameFiles(initial: Files, files: Files)
    requires forall p :: At(files, p) == At(initial, p)
    ensures files == initial
  {
    forall p ensures p in files <==> p in initial {
      assert At(files, p) == At(initial, p);
    }
    forall p | p in files ensures files[p] == initial[p] {
      assert At(files, p) == At(initial, p);
    }
  }

  // ---- A lost report --------------------------------------------------------------------------------

  /** How many of the targets from the `i`-th on still have something staged. */
  function Left(staged: map<string, nat>, order: seq<string>, i: nat): nat
    requires i <= |order|
    decreases |order| - i
  {
    if i == |order| then 0 else (if order[i] in staged then 1 else 0) + Left(staged, order, i + 1)
  }

  /** Removing what is staged fails exactly when one of these removals is fated to. */
  lemma {:induction false} SweepFailsIff(fate: Schedule, d: Disk, staged: map<string, nat>, order: seq<string>, i: nat)
    requires i <= |order|
    ensures !SweepFrom(fate, d, staged, order, i).ok <==> SomeFails(fate, d.ops, d.ops + Left(staged, order, i))
    decreases |order| - i
  {
    if i < |order| {
      if order[i] in staged {
        var s := AfterUnlinkTemp(fate, d, staged[order[i]]);
        SweepFailsIff(fate, s.disk, staged, order, i + 1);
        assert !s.ok <==> Fails(fate, d.ops);
      } else {
        SweepFailsIff(fate, d, staged, order, i + 1);
      }
    }
  }

  lemma {:induction false} StagedAreContents(fate: Schedule, s: Staging, after: After, order: seq<string>, i: nat)
    requires i <= |order| && forall p <- order :: p in after
    requires forall p <- s.staged.Keys :: p in order && after[p].Some?
    ensures forall p <- StageFrom(fate, s, after, order, i).staged.Keys :: p in order && after[p].Some?
    decreases |order| - i
  {
    if i < |order| && s.ok {
      StagedAreContents(fate, StageNext(fate, s, after, order[i]), after, order, i + 1);
    }
  }

  lemma {:induction false} SwapUsesUp(fate: Schedule, s: Swapping, after: After, order: seq<string>, i: nat)
    requires i <= |order| && forall p <- order :: p in after
    requires forall p <- s.staged.Keys :: p in order[i..] && after[p].Some?
    ensures var r := SwapFrom(fate, s, after, order, i); r.ok ==> r.staged.Keys == {}
    decreases |order| - i
  {
    if i < |order| && s.ok {
      var next := SwapNext(fate, s, after, order[i]);
      if next.ok {
        assert order[i..] == [order[i]] + order[i + 1..];
        SwapUsesUp(fate, next, after, order, i + 1);
      }
    }
  }

  lemma {:induction false} NothingLeft(staged: map<string, nat>, order: seq<string>, i: nat)
    requires staged.Keys == {} && i <= |order|
    ensures Left(staged, order, i) == 0
    decreases |order| - i
  {
    if i < |order| {
      NothingLeft(staged, order, i + 1);
    }
  }

  lemma {:induction false} SweepKeepsFiles(fate: Schedule, d: Disk, staged: map<string, nat>, order: seq<string>,
                                           i: nat)
    requires i <= |order|
    ensures SweepFrom(fate, d, staged, order, i).disk.files == d.files
    decreases |order| - i
  {
    if i < |order| {
      if order[i] in staged {
        SweepKeepsFiles(fate, AfterUnlinkTemp(fate, d, staged[order[i]]).disk, staged, order, i + 1);
      } else {
        SweepKeepsFiles(fate, d, staged, order, i + 1);
      }
    }
  }

  /**
   What the rollback knows it could not restore is lost exactly when, after a failure, removing a staged file fails
   too, and what is on disk then is what the rollback left.
   */
  lemma ReportIsLostIff(fate: Schedule, d: Disk, after: After, order: seq<string>)
    requires forall p <- order :: p in after
    ensures
      var a := Attempted(fate, d, after, order);
      var r := RestoreAll(fate, a.swapping.disk, a.swapping.changed, a.staging.originals);
      Course(fate, d, after, order).out.CleanupFailed? <==>
        !a.swapping.ok && SomeFails(fate, r.disk.ops, r.disk.ops + Left(a.swapping.staged, order, 0))
    ensures
      var a := Attempted(fate, d, after, order);
      var r := RestoreAll(fate, a.swapping.disk, a.swapping.changed, a.staging.originals);
      !a.swapping.ok ==>
        Course(fate, d, after, order).disk.files == r.disk.files
        && Course(fate, d, after, order).unrestored == r.failed
  {
    var a := Attempted(fate, d, after, order);
    var r := RestoreAll(fate, a.swapping.disk, a.swapping.changed, a.staging.originals);
    if a.swapping.ok {
      StagedAreContents(fate, Staging(d, true, map[], map[]), after, order, 0);
      assert order[0..] == order;
      SwapUsesUp(fate, Swapping(a.staging.disk, true, [], a.staging.staged), after, order, 0);
      NothingLeft(a.swapping.staged, order, 0);
      SweepFailsIff(fate, a.swapping.disk, a.swapping.staged, order, 0);
    } else {
      SweepFailsIff(fate, r.disk, a.swapping.staged, order, 0);
      SweepKeepsFiles(fate, r.disk, a.swapping.staged, order, 0);
    }
  }

  /** Three operations fail: swapping `b` in, writing back `a`, and removing what is staged for `b`. */
  function Unlucky(k: nat): Fate {
    if k == 5 || k == 8 || k == 9 then FailsEarly else Works
  }

  function TwoFiles(a: string, b: string): Files {
    map["a" := File(a), "b" := File(b)]
  }

  function TwoWanted(a: string, b: string): After {
    map["a" := Some(a), "b" := Some(b)]
  }

  lemma UnluckyStaging(old1: string, old2: string, new1: string, new2: string)
    ensures var files, after := TwoFiles(old1, old2), TwoWanted(new1, new2);
      StageFrom(Unlucky, Staging(Disk(files, map[], 0, 0), true, map[], map[]), after, ["a", "b"], 0)
      == Staging(Disk(files, map[0 := new1, 1 := new2], 2, 4), true, map["a" := Some(old1), "b" := Some(old2)],
        map["a" := 0, "b" := 1])
  {
    var files, after := TwoFiles(old1, old2), TwoWanted(new1, new2);
    var s := StageNext(Unlucky, Staging(Disk(files, map[], 0, 0), true, map[], map[]), after, "a");
    assert s == Staging(Disk(files, map[0 := new1], 1, 2), true, map["a" := Some(old1)], map["a" := 0]);
  }

  lemma UnluckySwapping(old1: string, old2: string, new1: string, new2: string)
    ensures var after, start := TwoWanted(new1, new2), Disk(TwoFiles(old1, old2), map[0 := new1, 1 := new2], 2, 4);
      SwapFrom(Unlucky, Swapping(start, true, [], map["a" := 0, "b" := 1]), after, ["a", "b"], 0)
      == Swapping(Disk(TwoFiles(new1, old2), map[1 := new2], 2, 6), false, ["a", "b"], map["b" := 1])
  {
    var after, start := TwoWanted(new1, new2), Disk(TwoFiles(old1, old2), map[0 := new1, 1 := new2], 2, 4);
    var s := Swapping(Disk(TwoFiles(new1, old2), map[1 := new2], 2, 5), true, ["a"], map["b" := 1]);
    assert SwapNext(Unlucky, Swapping(start, true, [], map["a" := 0, "b" := 1]), after, "a") == s by {
      assert TwoFiles(old1, old2)["a" := File(new1)] == TwoFiles(new1, old2);
      assert start.temps - {0} == map[1 := new2] && map["a" := 0, "b" := 1] - {"a"} == map["b" := 1];
    }
    assert ["a"] + ["b"] == ["a", "b"];
  }

  lemma UnluckyRestoring(old1: string, old2: string, new1: string, new2: string)
    ensures var originals := map["a" := Some(old1), "b" := Some(old2)];
      RestoreAll(Unlucky, Disk(TwoFiles(new1, old2), map[1 := new2], 2, 6), ["a", "b"], originals)
      == Restoring(Disk(TwoFiles(new1, old2), map[1 := new2], 3, 9), ["a"])
  {
    var d := Disk(TwoFiles(new1, old2), map[1 := new2], 2, 6);
    assert TwoFiles(new1, old2)["b" := File(old2)] == TwoFiles(new1, old2);
    assert map[1 := new2, 2 := old2] - {2} == map[1 := new2];
    assert RestoreNext(Unlucky, d, "b", Some(old2)) == Step(d.(next := 3, ops := 8), true);
    assert RestoreNext(Unlucky, d.(next := 3, ops := 8), "a", Some(old1)) == Step(d.(next := 3, ops := 9), false);
  }

  /** Two files are to be replaced; `a` is left changed, and the outcome does not say so. */
  lemma ReportCanBeLost(old1: string, old2: string, new1: string, new2: string)
    requires old1 != new1
    ensures
      var end := Course(Unlucky, Disk(TwoFiles(old1, old2), map[], 0, 0), TwoWanted(new1, new2), ["a", "b"]);
      && end.out == CleanupFailed && end.unrestored == ["a"]
      && end.disk.files == TwoFiles(new1, old2) && At(end.disk.files, "a") != At(TwoFiles(old1, old2), "a")
      && !TellsAll(TwoFiles(old1, old2), end.disk.files, end.out)
  {
    UnluckyStaging(old1, old2, new1, new2);
    UnluckySwapping(old1, old2, new1, new2);
    UnluckyRestoring(old1, old2, new1, new2);
  }

  // ---- When it succeeds -------------------------------------------------------------------------------

  /** What is staged so far lies in temporary files of its own, and no name will be given out twice. */
  ghost predicate Prepared(s: Staging) {
    && (forall t :: t in s.disk.temps ==> t < s.disk.next)
    && (forall p :: p in s.staged ==> s.staged[p] in s.disk.temps)
    && forall p, q :: p in s.staged && q in s.staged && s.staged[p] == s.staged[q] ==> p == q
  }

  lemma StaysPrepared(fate: Schedule, s: Staging, after: After, p: string)
    requires Prepared(s) && p in after && p !in s.staged
    ensures var r := StageNext(fate, s, after, p);
      Prepared(r) && s.staged.Keys <= r.staged.Keys <= s.staged.Keys + {p}
      && (r.ok && after[p].Some? ==> p in r.staged)
  {
  }

  lemma {:induction false} StagesReady(fate: Schedule, s: Staging, after: After, order: seq<string>, i: nat)
    requires Prepared(s) && i <= |order| && forall p <- order :: p in after
    requires forall i, j :: 0 <= i < j < |order| ==> order[i] != order[j]
    requires forall p :: p in s.staged ==> p in order[..i]
    requires s.ok ==> forall p <- order[..i] :: after[p].Some? ==> p in s.staged
    ensures var r := StageFrom(fate, s, after, order, i);
      r.ok ==> Ready(r.disk, r.staged, after, order, 0)
    decreases |order| - i
  {
    if i < |order| && s.ok {
      assert order[..i + 1] == order[..i] + [order[i]];
      StaysPrepared(fate, s, after, order[i]);
      StagesReady(fate, StageNext(fate, s, after, order[i]), after, order, i + 1);
    } else {
      assert order[..|order|] == order && order[0..] == order;
    }
  }

  lemma SwappableIff(files: Files, after: After, order: seq<string>)
    requires IsOrder(order, after)
    ensures Swappable(files, after, order, 0) <==> NoDirectories(files, after) && DeletionsExist(files, after)
  {
    assert order[0..] == order;
    forall p | p in after && Swappable(files, after, order, 0) ensures CanSwap(files, after, p) {
      assert p in order;
    }
  }

  /** Every target can be replaced or removed. */
  ghost predicate Possible(files: Files, after: After) {
    NoDirectories(files, after) && DeletionsExist(files, after)
  }

  lemma SwapAttemptIff(fate: Schedule, s: Swapping, after: After, order: seq<string>)
    requires s.ok && IsOrder(order, after) && Ready(s.disk, s.staged, after, order, 0)
    ensures var r, possible := SwapFrom(fate, s, after, order, 0), Possible(s.disk.files, after);
      && (r.ok <==> !SomeFails(fate, s.disk.ops, s.disk.ops + |order|) && possible)
      && s.disk.ops <= r.disk.ops
      && (!r.ok && possible ==> SomeFails(fate, s.disk.ops, r.disk.ops))
  {
    SwapsIff(fate, s, after, order, 0);
    SwappableIff(s.disk.files, after, order);
  }

  /**
   How an attempt ends: exactly when nothing stands in its way it succeeds, and when only operations do, one failed.
   */
  ghost predicate Ends(fate: Schedule, d: Disk, after: After, s: Swapping) {
    && (s.ok <==> !SomeFails(fate, d.ops, d.ops + Needed(after)) && Possible(d.files, after))
    && s.disk.ops >= d.ops
    && (!s.ok && Possible(d.files, after) ==> SomeFails(fate, d.ops, s.disk.ops))
  }

  lemma SwapEndsAttempt(fate: Schedule, d: Disk, st: Staging, after: After, order: seq<string>)
    requires IsOrder(order, after) && st.ok && Ready(st.disk, st.staged, after, order, 0) && st.disk.files == d.files
    requires d.ops <= st.disk.ops && !SomeFails(fate, d.ops, st.disk.ops)
    requires st.disk.ops + |order| == d.ops + Needed(after)
    ensures Ends(fate, d, after, SwapFrom(fate, Swapping(st.disk, true, [], st.staged), after, order, 0))
  {
    var s := Swapping(st.disk, true, [], st.staged);
    SwapAttemptIff(fate, s, after, order);
    FailuresAdd(fate, d.ops, st.disk.ops, d.ops + Needed(after));
    FailuresAdd(fate, d.ops, st.disk.ops, SwapFrom(fate, s, after, order, 0).disk.ops);
  }

  lemma StagedIsReady(fate: Schedule, d: Disk, after: After, order: seq<string>)
    requires IsOrder(order, after) && forall t :: t in d.temps ==> t < d.next
    ensures var st := StageFrom(fate, Staging(d, true, map[], map[]), after, order, 0);
      st.ok ==> Ready(st.disk, st.staged, after, order, 0)
  {
    StagesReady(fate, Staging(d, true, map[], map[]), after, order, 0);
  }

  lemma AttemptsIff(fate: Schedule, d: Disk, after: After, order: seq<string>)
    requires IsOrder(order, after) && forall t :: t in d.temps ==> t < d.next
    ensures Ends(fate, d, after, Attempted(fate, d, after, order).swapping)
  {
    var start := Staging(d, true, map[], map[]);
    var st := StageFrom(fate, start, after, order, 0);
    StagesIff(fate, start, after, order, 0);
    NeededIsTaken(after, order);
    StagedIsReady(fate, d, after, order);
    if st.ok {
      SwapEndsAttempt(fate, d, st, after, order);
    } else {
      FailuresAdd(fate, d.ops, d.ops + StagingTakes(after, order, 0), d.ops + Needed(after));
    }
  }

  /** A transaction is done exactly when nothing stands in its way. */
  lemma DoneIff(fate: Schedule, d: Disk, after: After, order: seq<string>)
    requires IsOrder(order, after) && forall t :: t in d.temps ==> t < d.next
    ensures Course(fate, d, after, order).out.Done? <==> Undisturbed(fate, d.ops, d.files, after)
  {
    AttemptsIff(fate, d, after, order);
    ReportIsLostIff(fate, d, after, order);
  }

  lemma {:induction false} SwapMakesNoDirectory(fate: Schedule, s: Swapping, after: After, order: seq<string>, i: nat,
                                                p: string)
    requires i <= |order| && forall p <- order :: p in after
    requires At(s.disk.files, p) != Some(Directory) && forall q <- s.changed :: q in order
    ensures var r := SwapFrom(fate, s, after, order, i);
      At(r.disk.files, p) != Some(Directory) && forall q <- r.changed :: q in order
    decreases |order| - i
  {
    if i < |order| && s.ok {
      SwapMakesNoDirectory(fate, SwapNext(fate, s, after, order[i]), after, order, i + 1, p);
    }
  }

  /** What was changed is among the targets and none of it has become a directory. */
  lemma ChangedAreNoDirectories(fate: Schedule, d: Disk, after: After, order: seq<string>)
    requires IsOrder(order, after) && NoDirectories(d.files, after)
    ensures var a := Attempted(fate, d, after, order);
      forall p <- a.swapping.changed :: At(a.swapping.disk.files, p) != Some(Directory)
  {
    var start := Staging(d, true, map[], map[]);
    StagesIff(fate, start, after, order, 0);
    var st := StageFrom(fate, start, after, order, 0);
    if st.ok {
      var ready := Swapping(st.disk, true, [], st.staged);
      forall p | p in after ensures At(SwapFrom(fate, ready, after, order, 0).disk.files, p) != Some(Directory)
        && forall q <- SwapFrom(fate, ready, after, order, 0).changed :: q in order
      {
        SwapMakesNoDirectory(fate, ready, after, order, 0, p);
      }
      if order != [] {
        assert order[0] in after;
      }
    }
  }

  lemma ThenAllWork(fate: Schedule, first: nat, now: nat, more: nat)
    requires first <= now <= more && (AllWork(fate, first) || (OneFails(fate, first) && SomeFails(fate, first, now)))
    ensures AllWork(fate, more) && !SomeFails(fate, more, more + 1)
  {
  }

  lemma Succeeds(fate: Schedule, d: Disk, after: After, order: seq<string>)
    requires IsOrder(order, after) && forall t :: t in d.temps ==> t < d.next
    ensures var out := Course(fate, d, after, order).out;
      && (out.Done? <==> Undisturbed(fate, d.ops, d.files, after))
      && (Recoverable(fate, d.ops, d.files, after) ==> out.Done? || out.RolledBack?)
  {
    DoneIff(fate, d, after, order);
    if Recoverable(fate, d.ops, d.files, after) {
      Recovers(fate, d, after, order);
    }
  }

  /** One failure never leaves the tree in between: the transaction is done or everything is as it was. */
  lemma Recovers(fate: Schedule, d: Disk, after: After, order: seq<string>)
    requires IsOrder(order, after) && forall t :: t in d.temps ==> t < d.next
    requires Recoverable(fate, d.ops, d.files, after)
    ensures Course(fate, d, after, order).out.Done? || Course(fate, d, after, order).out.RolledBack?
  {
    AttemptsIff(fate, d, after, order);
    DoneIff(fate, d, after, order);
    var a := Attempted(fate, d, after, order);
    if !a.swapping.ok {
      var start := Restoring(a.swapping.disk, []);
      var r := RestoreAll(fate, a.swapping.disk, a.swapping.changed, a.staging.originals);
      ThenAllWork(fate, d.ops, a.swapping.disk.ops, a.swapping.disk.ops);
      ChangedAreNoDirectories(fate, d, after, order);
      RestoresAll(fate, start, a.swapping.changed, |a.swapping.changed|, a.staging.originals);
      assert !SomeFails(fate, r.disk.ops, r.disk.ops + Left(a.swapping.staged, order, 0));
      ReportIsLostIff(fate, d, after, order);
    }
  }

  // ---- The envelope ---------------------------------------------------------------------------------

  /** How repository paths are judged and brought to one spelling. */
  datatype Spelling = Spelling(safe: string -> bool, canonical: string -> string)

  function Spelled(spelling: Spelling, paths: seq<string>): set<string> {
    set p | p in paths && spelling.safe(p) :: spelling.canonical(p)
  }

  function SpelledKeys(spelling: Spelling, after: After): set<string> {
    set p | p in after :: spelling.canonical(p)
  }

  /** The materialized files are, spelled canonically, exactly the expected ones. */
  ghost predicate Matches(spelling: Spelling, materialized: Option<After>, expected: seq<string>) {
    && materialized.Some? && materialized.value != map[]
    && |Spelled(spelling, expected)| == |expected|
    && |SpelledKeys(spelling, materialized.value)| == |materialized.value|
    && SpelledKeys(spelling, materialized.value) == Spelled(spelling, expected)
  }

  /** What applying a materialized patch may do to the files, by the outcome it reports. */
  ghost predicate Applied(spelling: Spelling, materialized: Option<After>, expected: seq<string>, before: Files,
                          files: Files, out: Outcome)
  {
    && (out.Refused? <==> !Matches(spelling, materialized, expected))
    && (out.Refused? || out.RolledBack? ==> files == before)
    && (materialized.Some? ==> OnlyTouches(before, files, materialized.value.Keys))
    && (out.Done? ==> SwappedUpTo(before, files, materialized.value, out.changed))
    && (out.Done? ==> forall p :: p in out.changed <==> p in materialized.value)
    && (out.Incomplete? ==> forall p :: At(files, p) != At(before, p) ==> p in out.failed)
  }

  /** Applies a materialized patch if, spelled canonically, its files are exactly the expected ones. */
  method Apply(w: WorkTree, spelling: Spelling, materialized: Option<After>, expected: seq<string>)
    returns (out: Outcome)
    requires w.Valid()
    modifies w
    ensures w.Valid()
    ensures Applied(spelling, materialized, expected, old(w.files), w.files, out)
    ensures out.Done? ==> w.temps == old(w.temps)
    ensures out.Done? <==>
      Matches(spelling, materialized, expected)
      && Undisturbed(w.fate, old(w.operations), old(w.files), materialized.value)
    ensures materialized.Some? && Recoverable(w.fate, old(w.operations), old(w.files), materialized.value) ==>
      out.Done? || out.RolledBack? || out.Refused?
  {
    if materialized.None? || materialized.value == map[] {
      return Refused;
    }
    var wanted := Spelled(spelling, expected);
    var keys := SpelledKeys(spelling, materialized.value);
    if |wanted| != |expected| || |keys| != |materialized.value| || keys != wanted {
      return Refused;
    }
    ghost var order, unrestored;
    out, order, unrestored := ReplaceTransaction(w, materialized.value);
  }

  /**
   An accepted envelope lists every materialized path once: nothing is written that was not expected, and nothing
   expected is left out.
   */
  lemma EnvelopeIsExact(spelling: Spelling, after: After, expected: seq<string>)
    requires Matches(spelling, Some(after), expected)
    ensures |after| == |expected|
    ensures forall p <- expected :: spelling.safe(p) && spelling.canonical(p) in SpelledKeys(spelling, after)
    ensures forall p :: p in after ==> IsExpected(spelling, p, expected)
  {
    AllSafe(spelling, expected);
    forall p | p in expected ensures spelling.canonical(p) in SpelledKeys(spelling, after) {
      assert spelling.canonical(p) in Spelled(spelling, expected);
    }
    forall p | p in after ensures IsExpected(spelling, p, expected) {
      assert spelling.canonical(p) in SpelledKeys(spelling, after);
    }
  }

  ghost predicate IsExpected(spelling: Spelling, p: string, expected: seq<string>) {
    exists q <- expected :: spelling.safe(q) && spelling.canonical(q) == spelling.canonical(p)
  }

  /** All paths are safe and no two have one spelling. */
  ghost predicate AllDiffer(spelling: Spelling, paths: seq<string>) {
    && (forall p <- paths :: spelling.safe(p))
    && forall i, j :: 0 <= i < j < |paths| ==> spelling.canonical(paths[i]) != spelling.canonical(paths[j])
  }

  lemma FirstDiffers(spelling: Spelling, paths: seq<string>)
    requires paths != [] && AllDiffer(spelling, paths)
    ensures spelling.canonical(paths[0]) !in Spelled(spelling, paths[1..]) && AllDiffer(spelling, paths[1..])
  {
    forall q | q in paths[1..] ensures q in paths && spelling.canonical(q) != spelling.canonical(paths[0]) {
      var j :| 0 <= j < |paths[1..]| && paths[1..][j] == q;
      assert paths[j + 1] == q;
    }
  }

  lemma OneMoreDiffers(spelling: Spelling, paths: seq<string>)
    requires paths != [] && spelling.safe(paths[0]) && AllDiffer(spelling, paths[1..])
    requires spelling.canonical(paths[0]) !in Spelled(spelling, paths[1..])
    ensures AllDiffer(spelling, paths)
  {
    var rest := paths[1..];
    forall p | p in paths ensures spelling.safe(p) {
      assert p == paths[0] || p in rest;
    }
    forall i, j | 0 <= i < j < |paths| ensures spelling.canonical(paths[i]) != spelling.canonical(paths[j]) {
      assert rest[j - 1] == paths[j] && rest[j - 1] in rest;
      assert i > 0 ==> rest[i - 1] == paths[i];
    }
  }

  /** As many spellings as paths leaves no room for an unsafe path, or for two of one spelling. */
  lemma {:induction false} AllSafe(spelling: Spelling, paths: seq<string>)
    ensures |Spelled(spelling, paths)| <= |paths|
    ensures |Spelled(spelling, paths)| == |paths| ==> forall p <- paths :: spelling.safe(p)
    ensures |Spelled(spelling, paths)| == |paths| <==> AllDiffer(spelling, paths)
  {
    if paths != [] {
      var p, rest := paths[0], paths[1..];
      AllSafe(spelling, rest);
      SpelledMore(spelling, paths);
      if AllDiffer(spelling, paths) {
        FirstDiffers(spelling, paths);
      } else if spelling.safe(p) && spelling.canonical(p) !in Spelled(spelling, rest) && AllDiffer(spelling, rest) {
        OneMoreDiffers(spelling, paths);
      }
    }
  }

  lemma SpelledMore(spelling: Spelling, paths: seq<string>)
    requires paths != []
    ensures |Spelled(spelling, paths)| == |Spelled(spelling, paths[1..])|
      + if spelling.safe(paths[0]) && spelling.canonical(paths[0]) !in Spelled(spelling, paths[1..]) then 1 else 0
  {
    var rest := Spelled(spelling, paths[1..]);
    assert paths == [paths[0]] + paths[1..];
    if spelling.safe(paths[0]) && spelling.canonical(paths[0]) !in rest {
      assert Spelled(spelling, paths) == rest + {spelling.canonical(paths[0])};
    } else {
      assert Spelled(spelling, paths) == rest;
    }
  }

  ghost function SpelledOf(spelling: Spelling, paths: set<string>): set<string> {
    set p | p in paths :: spelling.canonical(p)
  }

  lemma {:induction false} KeysDifferIff(spelling: Spelling, paths: set<string>)
    ensures |SpelledOf(spelling, paths)| <= |paths|
    ensures |SpelledOf(spelling, paths)| == |paths| <==>
      forall p, q :: p in paths && q in paths && p != q ==> spelling.canonical(p) != spelling.canonical(q)
    decreases paths
  {
    if paths != {} {
      var p :| p in paths;
      var rest := paths - {p};
      KeysDifferIff(spelling, rest);
      assert SpelledOf(spelling, paths) == SpelledOf(spelling, rest) + {spelling.canonical(p)};
      if spelling.canonical(p) in SpelledOf(spelling, rest) {
        assert SpelledOf(spelling, paths) == SpelledOf(spelling, rest);
        var q :| q in rest && spelling.canonical(q) == spelling.canonical(p);
        assert q in paths && q != p;
      }
    }
  }

  /**
   An envelope is accepted exactly when something is materialized, all expected paths are safe, neither side names a
   path twice in any spelling, and each path of either side is one of the other.
   */
  lemma EnvelopeIff(spelling: Spelling, after: After, expected: seq<string>)
    ensures Matches(spelling, Some(after), expected) <==>
      && after != map[]
      && AllDiffer(spelling, expected)
      && (forall p, q :: p in after && q in after && p != q ==> spelling.canonical(p) != spelling.canonical(q))
      && (forall p :: p in after ==> IsExpected(spelling, p, expected))
      && forall p <- expected :: spelling.canonical(p) in SpelledKeys(spelling, after)
  {
    AllSafe(spelling, expected);
    KeysDifferIff(spelling, after.Keys);
    assert SpelledOf(spelling, after.Keys) == SpelledKeys(spelling, after);
    SameSpellings(spelling, after, expected);
  }

  lemma SameSpellings(spelling: Spelling, after: After, expected: seq<string>)
    ensures (forall p <- expected :: spelling.safe(p)) ==>
      (SpelledKeys(spelling, after) == Spelled(spelling, expected) <==>
        (forall p :: p in after ==> IsExpected(spelling, p, expected))
        && forall p <- expected :: spelling.canonical(p) in SpelledKeys(spelling, after))
  {
    var keys, wanted := SpelledKeys(spelling, after), Spelled(spelling, expected);
    if forall p <- expected :: spelling.safe(p) {
      if keys == wanted {
        forall p | p in after ensures IsExpected(spelling, p, expected) {
          assert spelling.canonical(p) in keys;
        }
        forall p | p in expected ensures spelling.canonical(p) in keys {
          assert spelling.canonical(p) in wanted;
        }
      }
    }
  }
}
