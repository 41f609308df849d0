/** Directed graphs as finite edge sets, and reachability along walks. */
module Reachability {

  datatype File = File(path: string)
  type Edges = set<(File, File)>

  /** There is a walk of exactly `n` edges from `u` to `v`. */
  ghost predicate Walk(es: Edges, n: nat, u: File, v: File) {
    if n == 0 then u == v
    else exists m :: (u, m) in es && Walk(es, n - 1, m, v)
  }

  ghost predicate Reach(es: Edges, u: File, v: File) {
    exists n: nat :: Walk(es, n, u, v)
  }

  ghost predicate Mutual(es: Edges, u: File, v: File) {
    Reach(es, u, v) && Reach(es, v, u)
  }

  /** `x` lies in a strongly connected component of more than one file. */
  ghost predicate InCycle(es: Edges, x: File) {
    exists y :: y != x && Mutual(es, x, y)
  }

  /** `x` lies on a closed walk of at least one edge, self-edges included. */
  ghost predicate OnClosedWalk(es: Edges, x: File) {
    exists s :: (x, s) in es && Reach(es, s, x)
  }

  ghost predicate Closed(es: Edges, s: set<File>) {
    forall u, v :: u in s && (u, v) in es ==> v in s
  }

  lemma ReachRefl(es: Edges, u: File)
    ensures Reach(es, u, u)
  {
    assert Walk(es, 0, u, u);
  }

  lemma ReachEdge(es: Edges, u: File, v: File)
    requires (u, v) in es
    ensures Reach(es, u, v)
  {
    assert Walk(es, 0, v, v);
    assert Walk(es, 1, u, v);
  }

  lemma {:induction false} WalkConcat(es: Edges, m: nat, n: nat, u: File, v: File, w: File)
    requires Walk(es, m, u, v) && Walk(es, n, v, w)
    ensures Walk(es, m + n, u, w)
  {
    if m > 0 {
      var x :| (u, x) in es && Walk(es, m - 1, x, v);
      WalkConcat(es, m - 1, n, x, v, w);
    }
  }

  lemma ReachTrans(es: Edges, u: File, v: File, w: File)
    requires Reach(es, u, v) && Reach(es, v, w)
    ensures Reach(es, u, w)
  {
    var m: nat :| Walk(es, m, u, v);
    var n: nat :| Walk(es, n, v, w);
    WalkConcat(es, m, n, u, v, w);
  }

  lemma {:induction false} WalkClosed(es: Edges, s: set<File>, n: nat, u: File, v: File)
    requires Closed(es, s) && u in s && Walk(es, n, u, v)
    ensures v in s
  {
    if n > 0 {
      var x :| (u, x) in es && Walk(es, n - 1, x, v);
      WalkClosed(es, s, n - 1, x, v);
    }
  }

  /** A set that no edge leaves contains everything reachable from its members. */
  lemma ReachClosed(es: Edges, s: set<File>, u: File, v: File)
    requires Closed(es, s) && u in s && Reach(es, u, v)
    ensures v in s
  {
    var n: nat :| Walk(es, n, u, v);
    WalkClosed(es, s, n, u, v);
  }

  lemma ReachFirstStep(es: Edges, u: File, v: File)
    requires Reach(es, u, v) && u != v
    ensures exists s :: (u, s) in es && Reach(es, s, v)
  {
    var n: nat :| Walk(es, n, u, v);
    var s :| (u, s) in es && Walk(es, n - 1, s, v);
    assert Reach(es, s, v);
  }

  /** Without self-edges the two notions of "on a cycle" coincide. */
  lemma ClosedWalkIffInCycle(es: Edges, x: File)
    requires forall u :: (u, u) !in es
    ensures OnClosedWalk(es, x) <==> InCycle(es, x)
  {
    if OnClosedWalk(es, x) {
      var s :| (x, s) in es && Reach(es, s, x);
      ReachEdge(es, x, s);
      assert s != x && Mutual(es, x, s);
    }
    if InCycle(es, x) {
      var y :| y != x && Mutual(es, x, y);
      ReachFirstStep(es, x, y);
      var s :| (x, s) in es && Reach(es, s, y);
      ReachTrans(es, s, y, x);
    }
  }

  // ---- The reachability relation as a value ---------------------------------------------------

  type Relation = iset<(File, File)>

  /** `rt` is the reachability relation of `es`. Proofs that only need its closure laws carry it as a value. */
  ghost predicate IsReach(es: Edges, rt: Relation) {
    forall u, v {:trigger Reach(es, u, v)} :: (u, v) in rt <==> Reach(es, u, v)
  }

  lemma MakeReach(es: Edges) returns (rt: Relation)
    ensures IsReach(es, rt)
  {
    rt := iset p: (File, File) | Reach(es, p.0, p.1);
  }

  lemma RelRefl(es: Edges, rt: Relation, u: File)
    requires IsReach(es, rt)
    ensures (u, u) in rt
  {
    ReachRefl(es, u);
  }

  lemma RelEdge(es: Edges, rt: Relation, u: File, v: File)
    requires IsReach(es, rt) && (u, v) in es
    ensures (u, v) in rt
  {
    ReachEdge(es, u, v);
  }

  lemma RelTrans(es: Edges, rt: Relation, u: File, v: File, w: File)
    requires IsReach(es, rt) && (u, v) in rt && (v, w) in rt
    ensures (u, w) in rt
  {
    assert Reach(es, u, v) && Reach(es, v, w);
    ReachTrans(es, u, v, w);
  }

  lemma RelClosed(es: Edges, rt: Relation, s: set<File>, u: File, v: File)
    requires IsReach(es, rt) && Closed(es, s) && u in s && (u, v) in rt
    ensures v in s
  {
    assert Reach(es, u, v);
    ReachClosed(es, s, u, v);
  }

  ghost predicate OnCycle(rt: Relation, x: File) {
    exists y :: y != x && (x, y) in rt && (y, x) in rt
  }

  lemma OnCycleIffInCycle(es: Edges, rt: Relation, x: File)
    requires IsReach(es, rt)
    ensures OnCycle(rt, x) <==> InCycle(es, x)
  {
    if InCycle(es, x) {
      var y :| y != x && Mutual(es, x, y);
      assert (x, y) in rt && (y, x) in rt;
    }
    if OnCycle(rt, x) {
      var y :| y != x && (x, y) in rt && (y, x) in rt;
      assert Reach(es, x, y) && Reach(es, y, x);
      assert Mutual(es, x, y);
    }
  }
}
