/**
 Refining the candidates of one assessment in rank order within a small budget, and choosing the one to recommend.
 */
module Refinement {
  import opened Wrappers

  datatype Status = NotEligible | Pending | Analysed(evidence: string) | NotEvaluatedAfterProceed | BudgetExhausted

  /** A scored candidate action, as far as refinement and recommendation look at it. */
  datatype Scored = Scored(
    id: string, decision: string, rau: real, loss: real, benefit: real, patchHash: string, status: Status,
      rank: Option<nat>)

  /**
   The outside of the loop: which actions have a scope to analyse, and what analysing and rescoring one makes of it.
   */
  datatype Analysis = Analysis(scoped: string -> bool, rescore: Scored -> Scored)

  /** Rescoring keeps the action it rescores and says what evidence it used. */
  ghost predicate Faithful(a: Analysis) {
    forall s :: a.rescore(s).id == s.id && a.rescore(s).status.Analysed?
  }

  /** How many candidates may be analysed; what is configured may not be a number. */
  function Budget(configured: Option<int>): (b: nat)
    ensures b <= 2 && (configured.None? ==> b == 1)
    ensures configured.Some? ==> (0 <= configured.value <= 2 <==> b == configured.value)
    ensures configured.Some? ==> (configured.value < 0 ==> b == 0) && (configured.value > 2 ==> b == 2)
  {
    if configured.None? then 1
    else if configured.value < 0 then 0
    else if configured.value > 2 then 2 else configured.value
  }

  // ---- The loop -------------------------------------------------------------------------------------

  /** The rescored candidate, at the rank it had. */
  function Rescored(a: Analysis, s: Scored): Scored {
    a.rescore(s).(rank := s.rank)
  }

  datatype Progress = Progress(byId: map<string, Scored>, analysed: seq<string>, stopped: bool)

  /** What is analysed: down the ranking, skipping what has no scope, within budget, up to the first that proceeds. */
  function Analyse(a: Analysis, ranked: seq<string>, byId: map<string, Scored>, budget: nat): (r: Progress)
    requires forall id <- ranked :: id in byId
    ensures r.byId.Keys == byId.Keys
  {
    if ranked == [] || budget == 0 then Progress(byId, [], false)
    else if !a.scoped(ranked[0]) then Analyse(a, ranked[1..], byId, budget)
    else
      var refined := Rescored(a, byId[ranked[0]]);
      if refined.decision == "proceed" then Progress(byId[ranked[0] := refined], [ranked[0]], true)
      else
        var rest := Analyse(a, ranked[1..], byId[ranked[0] := refined], budget - 1);
        rest.(analysed := [ranked[0]] + rest.analysed)
  }

  function Prepend(analysed: seq<string>, p: Progress): Progress {
    p.(analysed := analysed + p.analysed)
  }

  /** What is analysed so far, followed by what is still to be analysed, is the whole. */
  ghost predicate Ahead(a: Analysis, ranked: seq<string>, i: nat, byId: map<string, Scored>, analysed: seq<string>,
                        left: nat, whole: Progress)
  {
    && i <= |ranked| && (forall id <- ranked :: id in byId)
    && whole == Prepend(analysed, Analyse(a, ranked[i..], byId, left))
  }

  method AnalyseRanked(a: Analysis, ranked: seq<string>, initial: map<string, Scored>, budget: nat)
    returns (r: Progress)
    requires forall id <- ranked :: id in initial
    ensures r == Analyse(a, ranked, initial, budget)
  {
    var byId, analysed, selected := initial, [], 0;
    var i := 0;
    ghost var whole := Analyse(a, ranked, initial, budget);
    assert ranked[0..] == ranked && [] + whole.analysed == whole.analysed;
    while i < |ranked|
      invariant selected <= budget && Ahead(a, ranked, i, byId, analysed, budget - selected, whole)
      decreases |ranked| - i
    {
      if selected >= budget {
        break;
      }
      var id := ranked[i];
      if !a.scoped(id) {
        i := i + 1;
        continue;
      }
      selected := selected + 1;
      var refined := Rescored(a, byId[id]);
      byId, analysed := byId[id := refined], analysed + [id];
      if refined.decision == "proceed" {
        return Progress(byId, analysed, true);
      }
      i := i + 1;
    }
    assert analysed + [] == analysed;
    r := Progress(byId, analysed, false);
  }

  /** What a candidate that was left pending is labelled in the end. */
  function Settled(s: Scored, stopped: bool): Scored {
    if s.status.Pending? then s.(status := if stopped then NotEvaluatedAfterProceed else BudgetExhausted) else s
  }

  /** The analysed candidates are, in order, the first of the ranking that have a scope. */
  predicate IsFirstScoped(a: Analysis, ranked: seq<string>, analysed: seq<string>) {
    analysed == [] ||
    (ranked != [] &&
      if a.scoped(ranked[0]) then analysed[0] == ranked[0] && IsFirstScoped(a, ranked[1..], analysed[1..])
      else IsFirstScoped(a, ranked[1..], analysed))
  }

  ghost predicate Distinct(ids: seq<string>) {
    forall i, j :: 0 <= i < j < |ids| ==> ids[i] != ids[j]
  }

  lemma {:induction false} AnalysedAreFirst(a: Analysis, ranked: seq<string>, byId: map<string, Scored>, budget: nat)
    requires forall id <- ranked :: id in byId
    ensures var r := Analyse(a, ranked, byId, budget);
      && IsFirstScoped(a, ranked, r.analysed) && |r.analysed| <= budget
      && (forall id <- r.analysed :: id in ranked && a.scoped(id))
      && (!r.stopped && |r.analysed| < budget ==> forall id <- ranked :: a.scoped(id) ==> id in r.analysed)
    decreases |ranked|
  {
    if ranked != [] && budget > 0 {
      assert ranked == [ranked[0]] + ranked[1..];
      if !a.scoped(ranked[0]) {
        AnalysedAreFirst(a, ranked[1..], byId, budget);
      } else {
        var refined := Rescored(a, byId[ranked[0]]);
        if refined.decision != "proceed" {
          AnalysedAreFirst(a, ranked[1..], byId[ranked[0] := refined], budget - 1);
        }
      }
    }
  }

  /** Analysing changes the analysed candidates only, and each of them once. */
  lemma {:induction false} AnalysedAreRescored(a: Analysis, ranked: seq<string>, byId: map<string, Scored>, budget: nat)
    requires Distinct(ranked) && forall id <- ranked :: id in byId
    ensures var r := Analyse(a, ranked, byId, budget);
      forall id :: id in byId ==>
        r.byId[id] == if id in r.analysed then a.rescore(byId[id]).(rank := byId[id].rank) else byId[id]
    decreases |ranked|
  {
    if ranked != [] && budget > 0 {
      if !a.scoped(ranked[0]) {
        AnalysedAreRescored(a, ranked[1..], byId, budget);
      } else {
        var refined := Rescored(a, byId[ranked[0]]);
        if refined.decision != "proceed" {
          var more := byId[ranked[0] := refined];
          AnalysedAreRescored(a, ranked[1..], more, budget - 1);
          AnalysedAreFirst(a, ranked[1..], more, budget - 1);
          assert ranked[0] !in ranked[1..];
        }
      }
    }
  }

  predicate Proceeds(a: Analysis, byId: map<string, Scored>, id: string) {
    id in byId && Rescored(a, byId[id]).decision == "proceed"
  }

  /** The loop stops early exactly when a candidate it analysed proceeds. */
  lemma {:induction false} StopsAtProceed(a: Analysis, ranked: seq<string>, byId: map<string, Scored>, budget: nat)
    requires Distinct(ranked) && forall id <- ranked :: id in byId
    ensures var r := Analyse(a, ranked, byId, budget);
      r.stopped <==> exists id <- r.analysed :: Proceeds(a, byId, id)
    decreases |ranked|
  {
    if ranked != [] && budget > 0 {
      if !a.scoped(ranked[0]) {
        StopsAtProceed(a, ranked[1..], byId, budget);
      } else {
        var refined := Rescored(a, byId[ranked[0]]);
        if refined.decision == "proceed" {
          assert Proceeds(a, byId, ranked[0]);
        } else {
          var more := byId[ranked[0] := refined];
          var rest := Analyse(a, ranked[1..], more, budget - 1);
          StopsAtProceed(a, ranked[1..], more, budget - 1);
          AnalysedAreFirst(a, ranked[1..], more, budget - 1);
          assert ranked[0] !in ranked[1..];
          assert forall id <- rest.analysed :: Proceeds(a, more, id) <==> Proceeds(a, byId, id);
        }
      }
    }
  }

  /** Nobody but the last of the analysed proceeds, and the last does just when the loop stopped there. */
  lemma {:induction false} LastProceeds(a: Analysis, ranked: seq<string>, byId: map<string, Scored>, budget: nat)
    requires Distinct(ranked) && forall id <- ranked :: id in byId
    ensures OnlyLastProceeds(a, byId, Analyse(a, ranked, byId, budget))
    decreases |ranked|
  {
    if ranked != [] && budget > 0 {
      if !a.scoped(ranked[0]) {
        LastProceeds(a, ranked[1..], byId, budget);
      } else {
        var refined := Rescored(a, byId[ranked[0]]);
        if refined.decision != "proceed" {
          var more := byId[ranked[0] := refined];
          var rest := Analyse(a, ranked[1..], more, budget - 1);
          LastProceeds(a, ranked[1..], more, budget - 1);
          AnalysedAreFirst(a, ranked[1..], more, budget - 1);
          assert ranked[0] !in ranked[1..];
          LastMovesOn(a, byId, ranked[0], refined, rest);
        }
      }
    }
  }

  ghost predicate OnlyLastProceeds(a: Analysis, byId: map<string, Scored>, p: Progress) {
    && (forall j :: 0 <= j < |p.analysed| - 1 ==> !Proceeds(a, byId, p.analysed[j]))
    && (p.stopped <==> p.analysed != [] && Proceeds(a, byId, p.analysed[|p.analysed| - 1]))
  }

  lemma LastMovesOn(a: Analysis, byId: map<string, Scored>, first: string, refined: Scored, rest: Progress)
    requires first in byId && refined == Rescored(a, byId[first]) && refined.decision != "proceed"
    requires first !in rest.analysed && OnlyLastProceeds(a, byId[first := refined], rest)
    ensures OnlyLastProceeds(a, byId, rest.(analysed := [first] + rest.analysed))
  {
    var more, all := byId[first := refined], [first] + rest.analysed;
    forall id | id in rest.analysed ensures Proceeds(a, more, id) <==> Proceeds(a, byId, id) {
    }
    forall j | 0 <= j < |all| - 1 ensures !Proceeds(a, byId, all[j]) {
      if j > 0 {
        assert all[j] == rest.analysed[j - 1] && rest.analysed[j - 1] in rest.analysed;
      }
    }
    if rest.analysed != [] {
      assert rest.analysed[|rest.analysed| - 1] in rest.analysed;
    }
  }

  /**
   What the loop may choose to analyse: the first of the ranking with a scope, at most as many as the budget allows, and
   all of them unless the budget or a proceed ends the loop.
   */
  ghost predicate Chosen(a: Analysis, ranked: seq<string>, configured: Option<int>, p: Progress) {
    && IsFirstScoped(a, ranked, p.analysed) && |p.analysed| <= Budget(configured)
    && (forall id <- p.analysed :: id in ranked && a.scoped(id))
    && (!p.stopped && |p.analysed| < Budget(configured) ==> forall id <- ranked :: a.scoped(id) ==> id in p.analysed)
  }

  method MarkRanked(initial: map<string, Scored>, ranked: seq<string>) returns (byId: map<string, Scored>)
    requires Distinct(ranked) && forall id <- ranked :: id in initial
    ensures byId.Keys == initial.Keys
    ensures forall id :: id in initial ==> id !in ranked ==> byId[id] == initial[id]
    ensures forall k :: 0 <= k < |ranked| ==>
      byId[ranked[k]] == initial[ranked[k]].(status := Pending, rank := Some(k + 1))
  {
    byId := initial;
    for k := 0 to |ranked|
      invariant byId.Keys == initial.Keys
      invariant forall id :: id in initial ==> id !in ranked[..k] ==> byId[id] == initial[id]
      invariant forall j :: 0 <= j < k ==>
        byId[ranked[j]] == initial[ranked[j]].(status := Pending, rank := Some(j + 1))
    {
      assert ranked[k] in ranked && ranked[k] !in ranked[..k];
      assert ranked[..k + 1] == ranked[..k] + [ranked[k]];
      byId := byId[ranked[k] := byId[ranked[k]].(status := Pending, rank := Some(k + 1))];
    }
    assert ranked[..|ranked|] == ranked;
  }

  method Settle(initial: map<string, Scored>, ranked: seq<string>, stopped: bool) returns (byId: map<string, Scored>)
    requires Distinct(ranked) && forall id <- ranked :: id in initial
    ensures byId.Keys == initial.Keys
    ensures forall id :: id in initial ==> byId[id] == if id in ranked then Settled(initial[id], stopped)
      else initial[id]
  {
    byId := initial;
    for k := 0 to |ranked|
      invariant byId.Keys == initial.Keys
      invariant forall id :: id in initial ==> byId[id] == if id in ranked[..k] then Settled(initial[id], stopped)
        else initial[id]
    {
      assert ranked[k] in ranked && ranked[k] !in ranked[..k];
      assert ranked[..k + 1] == ranked[..k] + [ranked[k]];
      byId := byId[ranked[k] := Settled(byId[ranked[k]], stopped)];
    }
    assert ranked[..|ranked|] == ranked;
  }

  method Index(actions: seq<Scored>) returns (byId: map<string, Scored>)
    requires forall i, j :: 0 <= i < j < |actions| ==> actions[i].id != actions[j].id
    ensures forall id :: id in byId <==> exists s <- actions :: s.id == id
    ensures forall s <- actions :: s.id in byId && byId[s.id] == s
  {
    byId := map[];
    for i := 0 to |actions|
      invariant forall id :: id in byId <==> exists s <- actions[..i] :: s.id == id
      invariant forall s <- actions[..i] :: s.id in byId && byId[s.id] == s
    {
      assert actions[..i + 1] == actions[..i] + [actions[i]];
      byId := byId[actions[i].id := actions[i]];
    }
    assert actions[..|actions|] == actions;
  }

  /** What becomes of one candidate. */
  function Outcome(a: Analysis, s: Scored, ranked: seq<string>, p: Progress, rank: Option<nat>): Scored {
    var pending := s.(status := Pending, rank := rank);
    if s.id !in ranked then s
    else if s.id in p.analysed then Rescored(a, pending)
    else Settled(pending, p.stopped)
  }

  /** Marks the ranked candidates eligible, analyses them within the budget, and settles what is left. */
  method RefineById(a: Analysis, initial: map<string, Scored>, ranked: seq<string>, configured: Option<int>)
    returns (byId: map<string, Scored>, ghost marked: map<string, Scored>, ghost p: Progress)
    requires Faithful(a) && Distinct(ranked) && forall id <- ranked :: id in initial
    requires forall id :: id in initial ==> initial[id].id == id
    ensures (forall id <- ranked :: id in marked) && p == Analyse(a, ranked, marked, Budget(configured))
    ensures forall k :: 0 <= k < |ranked| ==>
      marked[ranked[k]] == initial[ranked[k]].(status := Pending, rank := Some(k + 1))
    ensures byId.Keys == initial.Keys
    ensures forall id :: id in initial ==> id !in ranked ==> byId[id] == initial[id]
    ensures forall k :: 0 <= k < |ranked| ==> byId[ranked[k]] == Outcome(a, initial[ranked[k]], ranked, p, Some(k + 1))
    ensures Chosen(a, ranked, configured, p)
  {
    byId := MarkRanked(initial, ranked);
    marked := byId;
    var progress := AnalyseRanked(a, ranked, byId, Budget(configured));
    p := progress;
    AnalysedAreRescored(a, ranked, marked, Budget(configured));
    AnalysedAreFirst(a, ranked, marked, Budget(configured));
    byId := Settle(progress.byId, ranked, progress.stopped);
  }

  method InOrder(actions: seq<Scored>, byId: map<string, Scored>) returns (scored: seq<Scored>)
    requires forall s <- actions :: s.id in byId
    ensures |scored| == |actions| && forall i :: 0 <= i < |actions| ==> scored[i] == byId[actions[i].id]
  {
    scored := [];
    for i := 0 to |actions|
      invariant |scored| == i && forall j :: 0 <= j < i ==> scored[j] == byId[actions[j].id]
    {
      scored := scored + [byId[actions[i].id]];
    }
  }

  /** The `i`-th of the request was analysed and proceeds. */
  ghost predicate ProceedsAt(actions: seq<Scored>, scored: seq<Scored>, p: Progress, i: nat)
    requires |scored| == |actions|
  {
    i < |actions| && actions[i].id in p.analysed && scored[i].decision == "proceed"
  }

  /**
   What a request comes to: those out of the ranking as they were, those in it analysed, or settled with the reason.
   */
  ghost predicate Refined(a: Analysis, actions: seq<Scored>, scored: seq<Scored>, ranked: seq<string>, p: Progress) {
    && |scored| == |actions|
    && (forall i :: 0 <= i < |actions| ==> (actions[i].id !in ranked ==> scored[i] == actions[i]))
    && forall i, k :: 0 <= i < |actions| && 0 <= k < |ranked| && actions[i].id == ranked[k] ==>
      scored[i] == if ranked[k] in p.analysed
        then a.rescore(actions[i].(status := Pending, rank := Some(k + 1))).(rank := Some(k + 1))
        else actions[i].(
          status := if p.stopped then NotEvaluatedAfterProceed else BudgetExhausted, rank := Some(k + 1))
  }

  lemma StoppedMeans(a: Analysis, actions: seq<Scored>, scored: seq<Scored>, ranked: seq<string>,
                     marked: map<string, Scored>, budget: nat)
    requires Distinct(ranked) && forall id <- ranked :: id in marked
    requires Refined(a, actions, scored, ranked, Analyse(a, ranked, marked, budget))
    requires forall id <- ranked :: exists s <- actions :: s.id == id
    requires forall i, k :: 0 <= i < |actions| && 0 <= k < |ranked| && actions[i].id == ranked[k] ==>
      marked[ranked[k]] == actions[i].(status := Pending, rank := Some(k + 1))
    ensures var p := Analyse(a, ranked, marked, budget);
      p.stopped <==> exists i: nat :: ProceedsAt(actions, scored, p, i)
  {
    var p := Analyse(a, ranked, marked, budget);
    StopsAtProceed(a, ranked, marked, budget);
    AnalysedAreFirst(a, ranked, marked, budget);
    forall i: nat | i < |actions| && actions[i].id in p.analysed
      ensures ProceedsAt(actions, scored, p, i) <==> Proceeds(a, marked, actions[i].id)
    {
      assert actions[i].id in ranked;
      var k :| 0 <= k < |ranked| && ranked[k] == actions[i].id;
    }
    if p.stopped {
      var id :| id in p.analysed && Proceeds(a, marked, id);
      assert id in ranked;
      var s :| s in actions && s.id == id;
      var i :| 0 <= i < |actions| && actions[i] == s;
      assert ProceedsAt(actions, scored, p, i);
    }
  }

  lemma MarkedAsRanked(actions: seq<Scored>, initial: map<string, Scored>, marked: map<string, Scored>,
                       ranked: seq<string>)
    requires forall s <- actions :: s.id in initial && initial[s.id] == s
    requires forall id <- ranked :: id in initial && id in marked
    requires forall k :: 0 <= k < |ranked| ==>
      marked[ranked[k]] == initial[ranked[k]].(status := Pending, rank := Some(k + 1))
    ensures forall i, k :: 0 <= i < |actions| && 0 <= k < |ranked| && actions[i].id == ranked[k] ==>
      marked[ranked[k]] == actions[i].(status := Pending, rank := Some(k + 1))
  {
    forall i, k | 0 <= i < |actions| && 0 <= k < |ranked| && actions[i].id == ranked[k]
      ensures marked[ranked[k]] == actions[i].(status := Pending, rank := Some(k + 1))
    {
      assert actions[i] in actions && ranked[k] in ranked;
    }
  }

  lemma AsRequested(a: Analysis, actions: seq<Scored>, scored: seq<Scored>, byId: map<string, Scored>,
                    initial: map<string, Scored>, ranked: seq<string>, p: Progress)
    requires |scored| == |actions| && forall s <- actions :: s.id in initial && initial[s.id] == s && s.id in byId
    requires forall i :: 0 <= i < |actions| ==> actions[i].id in byId && scored[i] == byId[actions[i].id]
    requires forall id :: id in initial ==> id !in ranked ==> id in byId && byId[id] == initial[id]
    requires forall id <- ranked :: id in initial && id in byId
    requires forall k :: 0 <= k < |ranked| ==> byId[ranked[k]] == Outcome(a, initial[ranked[k]], ranked, p, Some(k + 1))
    ensures Refined(a, actions, scored, ranked, p)
  {
    forall i, k | 0 <= i < |actions| && 0 <= k < |ranked| && actions[i].id == ranked[k]
      ensures scored[i] == Outcome(a, actions[i], ranked, p, Some(k + 1)) && ranked[k] in ranked
    {
      assert actions[i] in actions;
    }
    forall i | 0 <= i < |actions| && actions[i].id !in ranked ensures scored[i] == actions[i] {
      assert actions[i] in actions;
    }
  }

  /** Refines the candidates of a request and returns them in request order. */
  method Refine(a: Analysis, actions: seq<Scored>, ranked: seq<string>, configured: Option<int>)
    returns (scored: seq<Scored>, ghost marked: map<string, Scored>, ghost p: Progress)
    requires Faithful(a) && Distinct(ranked)
    requires forall i, j :: 0 <= i < j < |actions| ==> actions[i].id != actions[j].id
    requires forall id <- ranked :: exists s <- actions :: s.id == id
    ensures (forall id <- ranked :: id in marked) && p == Analyse(a, ranked, marked, Budget(configured))
    ensures |scored| == |actions|
    ensures forall i :: 0 <= i < |actions| ==> (actions[i].id !in ranked ==> scored[i] == actions[i])
    ensures Refined(a, actions, scored, ranked, p) && Chosen(a, ranked, configured, p)
    ensures p.stopped <==> exists i: nat :: ProceedsAt(actions, scored, p, i)
  {
    var initial := Index(actions);
    var byId: map<string, Scored>;
    byId, marked, p := RefineById(a, initial, ranked, configured);
    scored := InOrder(actions, byId);
    AsRequested(a, actions, scored, byId, initial, ranked, p);
    MarkedAsRanked(actions, initial, marked, ranked);
    StoppedMeans(a, actions, scored, ranked, marked, Budget(configured));
  }

  /** A candidate that was analysed says so, one that was not is settled, and none is left pending. */
  lemma OutcomeIsSettled(a: Analysis, s: Scored, ranked: seq<string>, p: Progress, rank: Option<nat>)
    requires Faithful(a) && s.id in ranked
    ensures var o := Outcome(a, s, ranked, p, rank);
      && (o.status.Analysed? <==> s.id in p.analysed)
      && (o.status.NotEvaluatedAfterProceed? ==> p.stopped)
      && (o.status.BudgetExhausted? ==> !p.stopped)
      && !o.status.Pending? && o.rank == rank
  {
  }
}
