/**
 The invariant of the iterative Tarjan search and the four ways the search moves.

 A `Search` is what the loop knows between two moves. `gray` holds the files whose
 work-stack frame has been entered and not left; `seen` holds the edges already looked
 at; `open` is the set of files on Tarjan's component stack. A visited file that is no
 longer open belongs to a finished component.
 */
module TarjanInvariant {
  import opened Reachability

  datatype Search = Search(
    index: map<File, nat>,
    low: map<File, nat>,
    open: set<File>,
    gray: set<File>,
    seen: Edges,
    counter: nat,
    cyclic: set<File>)
  {
    ghost predicate Finished(v: File) { v in index && v !in open }
  }

  /** Two visited files never share a number. */
  ghost predicate Distinct(s: Search, u: File, v: File) {
    u in s.index && v in s.index && s.index[u] == s.index[v] ==> u == v
  }

  ghost predicate Shaped(es: Edges, s: Search) {
    && s.low.Keys == s.index.Keys
    && (forall v :: v in s.index ==> s.low[v] <= s.index[v] < s.counter)
    && (forall u, v {:trigger Distinct(s, u, v)} :: Distinct(s, u, v))
    && s.gray <= s.open <= s.index.Keys
    && s.seen <= es
  }

  lemma DistinctKept(es: Edges, s: Search, t: Search)
    requires Shaped(es, s)
    requires t.index == s.index || exists w :: w !in s.index && t.index == s.index[w := s.counter]
    ensures forall u, v {:trigger Distinct(t, u, v)} :: Distinct(t, u, v)
  {
    forall u, v
      ensures Distinct(t, u, v)
    {
      assert Distinct(s, u, v);
    }
  }

  /**
   Left files have all edges looked at, looked-at edges end in visited files, finished files lead to finished files.
   */
  ghost predicate Explored(es: Edges, s: Search) {
    && (forall v, w :: (v, w) in s.seen ==> v in s.index && w in s.index)
    && (forall v, w :: v in s.index && v !in s.gray && (v, w) in es ==> (v, w) in s.seen)
    && (forall v, w :: s.Finished(v) && (v, w) in es ==> s.Finished(w))
  }

  ghost predicate DownToGray(es: Edges, rt: Relation, s: Search, y: File)
    requires Shaped(es, s) && y in s.open
  {
    exists g :: g in s.gray && s.index[g] <= s.index[y] && (y, g) in rt
  }

  /** Older open files reach newer ones. */
  ghost predicate Ordered(es: Edges, rt: Relation, s: Search)
    requires Shaped(es, s)
  {
    forall x, y {:trigger (x, y) in rt} :: x in s.open && y in s.open && s.index[x] <= s.index[y] ==> (x, y) in rt
  }

  /** Every open file reaches a gray file not newer than itself. */
  ghost predicate Grounded(es: Edges, rt: Relation, s: Search)
    requires Shaped(es, s)
  {
    forall y {:trigger DownToGray(es, rt, s, y)} :: y in s.open ==> DownToGray(es, rt, s, y)
  }

  ghost predicate LowWitness(es: Edges, rt: Relation, s: Search, v: File)
    requires Shaped(es, s) && v in s.open
  {
    exists y :: y in s.open && s.index[y] == s.low[v] && (v, y) in rt
  }

  /** `g` is the newest gray file among those not newer than `y`. */
  ghost predicate Owner(es: Edges, s: Search, g: File, y: File)
    requires Shaped(es, s) && g in s.gray && y in s.open
  {
    s.index[g] <= s.index[y] && forall h :: h in s.gray && s.index[g] < s.index[h] ==> s.index[y] < s.index[h]
  }

  /** Every low link is the number of an open file that can be reached. */
  ghost predicate Attained(es: Edges, rt: Relation, s: Search)
    requires Shaped(es, s)
  {
    forall v {:trigger LowWitness(es, rt, s, v)} :: v in s.open ==> LowWitness(es, rt, s, v)
  }

  /** The low link of a gray file bounds every open neighbour seen from the files it owns. */
  ghost predicate Bounded(es: Edges, s: Search)
    requires Shaped(es, s)
  {
    forall g, y, w {:trigger Owner(es, s, g, y), (y, w) in s.seen} ::
      g in s.gray && y in s.open && w in s.open && (y, w) in s.seen && Owner(es, s, g, y)
      ==> s.low[g] <= s.index[w]
  }

  ghost predicate Reported(rt: Relation, s: Search) {
    forall x :: x in s.cyclic <==> s.Finished(x) && OnCycle(rt, x)
  }

  ghost predicate Inv(es: Edges, rt: Relation, s: Search) {
    && IsReach(es, rt)
    && Shaped(es, s)
    && Explored(es, s)
    && Ordered(es, rt, s)
    && Grounded(es, rt, s)
    && Attained(es, rt, s)
    && Bounded(es, s)
    && Reported(rt, s)
  }

  /** `v` is the innermost gray file. */
  ghost predicate Innermost(es: Edges, s: Search, v: File)
    requires Shaped(es, s)
  {
    v in s.gray && forall g :: g in s.gray ==> s.index[g] <= s.index[v]
  }

  ghost predicate Mutual(rt: Relation, x: File, y: File) { (x, y) in rt && (y, x) in rt }

  function Min(a: nat, b: nat): nat { if a <= b then a else b }

  /** A low link that did not move keeps its witness while the witness stays open. */
  lemma WitnessKept(es: Edges, rt: Relation, s: Search, t: Search, v: File)
    requires Shaped(es, s) && Shaped(es, t) && v in s.open && v in t.open
    requires LowWitness(es, rt, s, v) && t.low[v] == s.low[v]
    requires s.open <= t.open && forall y :: y in s.open ==> t.index[y] == s.index[y]
    ensures LowWitness(es, rt, t, v)
  {
    var y :| y in s.open && s.index[y] == s.low[v] && (v, y) in rt;
    assert y in t.open && t.index[y] == t.low[v];
  }

  // ---- Move 1: enter a new file -------------------------------------------------------------

  /** Enter `w`, either as a fresh root or over the edge `via` from the innermost gray file. */
  function Enter(s: Search, w: File, via: Edges): Search {
    s.(index := s.index[w := s.counter],
       low := s.low[w := s.counter],
       open := s.open + {w},
       gray := s.gray + {w},
       seen := s.seen + via,
       counter := s.counter + 1)
  }

  ghost predicate CanEnter(es: Edges, s: Search, w: File, via: Edges)
    requires Shaped(es, s)
  {
    && w !in s.index
    && if s.gray == {} then via == {}
       else exists p :: Innermost(es, s, p) && (p, w) in es && via == {(p, w)}
  }

  lemma EnterKeepsInv(es: Edges, rt: Relation, s: Search, w: File, via: Edges)
    requires Inv(es, rt, s) && CanEnter(es, s, w, via)
    ensures Inv(es, rt, Enter(s, w, via)) && Innermost(es, Enter(s, w, via), w)
  {
    var t := Enter(s, w, via);
    DistinctKept(es, s, t);
    assert Shaped(es, t);
    assert forall v :: t.Finished(v) <==> s.Finished(v);
    assert Explored(es, t);
    EnterKeepsGrounded(es, rt, s, w, via);
    EnterKeepsOrdered(es, rt, s, w, via);
    EnterKeepsAttained(es, rt, s, w, via);
    EnterKeepsBounded(es, s, w, via);
  }

  lemma EnterKeepsGrounded(es: Edges, rt: Relation, s: Search, w: File, via: Edges)
    requires IsReach(es, rt) && Shaped(es, s) && Grounded(es, rt, s) && w !in s.index
    requires Shaped(es, Enter(s, w, via))
    ensures Grounded(es, rt, Enter(s, w, via))
  {
    var t := Enter(s, w, via);
    forall y | y in t.open
      ensures DownToGray(es, rt, t, y)
    {
      if y == w {
        RelRefl(es, rt, w);
        assert w in t.gray;
      } else {
        assert DownToGray(es, rt, s, y);
        var g :| g in s.gray && s.index[g] <= s.index[y] && (y, g) in rt;
        assert g in t.gray;
      }
    }
  }

  lemma EnterKeepsOrdered(es: Edges, rt: Relation, s: Search, w: File, via: Edges)
    requires IsReach(es, rt) && Shaped(es, s) && Ordered(es, rt, s) && Grounded(es, rt, s) && CanEnter(es, s, w, via)
    requires Shaped(es, Enter(s, w, via))
    ensures Ordered(es, rt, Enter(s, w, via))
  {
    var t := Enter(s, w, via);
    forall x, y | x in t.open && y in t.open && t.index[x] <= t.index[y]
      ensures (x, y) in rt
    {
      if x == w {
        RelRefl(es, rt, w);
      } else if y == w {
        OpenReachesEntered(es, rt, s, w, via, x);
      }
    }
  }

  lemma OpenReachesEntered(es: Edges, rt: Relation, s: Search, w: File, via: Edges, x: File)
    requires IsReach(es, rt) && Shaped(es, s) && Ordered(es, rt, s) && Grounded(es, rt, s) && CanEnter(es, s, w, via)
      && x in s.open
    ensures (x, w) in rt
  {
    assert DownToGray(es, rt, s, x);
    var g :| g in s.gray && s.index[g] <= s.index[x] && (x, g) in rt;
    var p :| Innermost(es, s, p) && (p, w) in es && via == {(p, w)};
    assert (g, p) in rt;
    RelTrans(es, rt, x, g, p);
    RelEdge(es, rt, p, w);
    RelTrans(es, rt, x, p, w);
  }

  lemma EnterKeepsAttained(es: Edges, rt: Relation, s: Search, w: File, via: Edges)
    requires IsReach(es, rt) && Shaped(es, s) && Attained(es, rt, s) && w !in s.index
    requires Shaped(es, Enter(s, w, via))
    ensures Attained(es, rt, Enter(s, w, via))
  {
    var t := Enter(s, w, via);
    forall v | v in t.open
      ensures LowWitness(es, rt, t, v)
    {
      if v == w {
        RelRefl(es, rt, w);
        assert w in t.open && t.index[w] == t.low[w];
      } else {
        assert LowWitness(es, rt, s, v);
        WitnessKept(es, rt, s, t, v);
      }
    }
  }

  lemma EnterKeepsBounded(es: Edges, s: Search, w: File, via: Edges)
    requires Shaped(es, s) && Explored(es, s) && Bounded(es, s) && CanEnter(es, s, w, via)
    requires Shaped(es, Enter(s, w, via))
    ensures Bounded(es, Enter(s, w, via))
  {
    var t := Enter(s, w, via);
    forall g, y, x | g in t.gray && y in t.open && x in t.open && (y, x) in t.seen && Owner(es, t, g, y)
      ensures t.low[g] <= t.index[x]
    {
      EnterKeepsBound(es, s, w, via, g, y, x);
    }
  }

  lemma EnterKeepsBound(es: Edges, s: Search, w: File, via: Edges, g: File, y: File, x: File)
    requires Shaped(es, s) && Explored(es, s) && Bounded(es, s) && CanEnter(es, s, w, via)
    requires
      var t := Enter(s, w, via);
      && Shaped(es, t) && g in t.gray && y in t.open && x in t.open
      && (y, x) in t.seen && Owner(es, t, g, y)
    ensures Enter(s, w, via).low[g] <= Enter(s, w, via).index[x]
  {
    assert y != w;
    assert g != w;
    assert s.index[g] <= s.index[y];
    assert Owner(es, s, g, y) by {
      forall h | h in s.gray && s.index[g] < s.index[h]
        ensures s.index[y] < s.index[h]
      {
        assert h in Enter(s, w, via).gray;
      }
    }
    if x == w {
      assert s.low[g] <= s.index[g] < s.counter;
    } else {
      assert (y, x) in s.seen;
    }
  }

  // ---- Move 2: look at an already visited neighbour --------------------------------------------

  function Look(s: Search, v: File, u: File): Search
    requires v in s.low && u in s.index
  {
    s.(low := if u in s.open then s.low[v := Min(s.low[v], s.index[u])] else s.low,
       seen := s.seen + {(v, u)})
  }

  lemma LookKeepsInv(es: Edges, rt: Relation, s: Search, v: File, u: File)
    requires Inv(es, rt, s) && Innermost(es, s, v) && (v, u) in es && u in s.index
    ensures Inv(es, rt, Look(s, v, u)) && Innermost(es, Look(s, v, u), v)
  {
    var t := Look(s, v, u);
    DistinctKept(es, s, t);
    assert Shaped(es, t);
    assert forall x :: t.Finished(x) <==> s.Finished(x);
    assert Explored(es, t);
    forall y | y in t.open
      ensures DownToGray(es, rt, t, y)
    {
      assert DownToGray(es, rt, s, y);
      var g :| g in s.gray && s.index[g] <= s.index[y] && (y, g) in rt;
      assert g in t.gray;
    }
    LookKeepsAttained(es, rt, s, v, u);
    LookKeepsBounded(es, s, v, u);
  }

  lemma LookKeepsAttained(es: Edges, rt: Relation, s: Search, v: File, u: File)
    requires IsReach(es, rt) && Shaped(es, s) && Attained(es, rt, s) && v in s.gray && (v, u) in es && u in s.index
    requires Shaped(es, Look(s, v, u))
    ensures Attained(es, rt, Look(s, v, u))
  {
    var t := Look(s, v, u);
    forall x | x in t.open
      ensures LowWitness(es, rt, t, x)
    {
      if x == v && t.low[v] != s.low[v] {
        RelEdge(es, rt, v, u);
        assert u in t.open && t.index[u] == t.low[v];
      } else {
        assert LowWitness(es, rt, s, x);
        WitnessKept(es, rt, s, t, x);
      }
    }
  }

  lemma LookKeepsBounded(es: Edges, s: Search, v: File, u: File)
    requires Shaped(es, s) && Bounded(es, s) && Innermost(es, s, v) && u in s.index
    requires Shaped(es, Look(s, v, u))
    ensures Bounded(es, Look(s, v, u))
  {
    var t := Look(s, v, u);
    forall g, y, w | g in t.gray && y in t.open && w in t.open && (y, w) in t.seen && Owner(es, t, g, y)
      ensures t.low[g] <= t.index[w]
    {
      assert Owner(es, s, g, y);
      LookKeepsBound(es, s, v, u, g, y, w);
    }
  }

  lemma LookKeepsBound(es: Edges, s: Search, v: File, u: File, g: File, y: File, w: File)
    requires Shaped(es, s) && Bounded(es, s) && Innermost(es, s, v) && u in s.index
    requires g in s.gray && y in s.open && w in s.open && (y, w) in Look(s, v, u).seen && Owner(es, s, g, y)
    ensures Look(s, v, u).low[g] <= s.index[w]
  {
    if (y, w) == (v, u) {
      assert Distinct(s, g, v);
    } else {
      assert (y, w) in s.seen;
    }
  }

  // ---- Moves 3 and 4: leave a file whose edges are all looked at --------------------------------

  ghost predicate CanLeave(es: Edges, s: Search, v: File)
    requires Shaped(es, s)
  {
    Innermost(es, s, v) && forall w :: (v, w) in es ==> (v, w) in s.seen
  }

  /** `p` is the gray file next to the innermost one, if another one is left. */
  ghost predicate Parent(es: Edges, s: Search, v: File, p: set<File>)
    requires Shaped(es, s)
  {
    if s.gray == {v} then p == {}
    else exists q :: p == {q} && q in s.gray && q != v && forall g :: g in s.gray && g != v ==> s.index[g] <= s.index[q]
  }

  /** Leaving `v` closes the files in `gone` and hands the low link to the parent. */
  function Leave(s: Search, v: File, p: set<File>, gone: set<File>, found: set<File>): Search
    requires v in s.low
  {
    s.(open := s.open - gone,
       gray := s.gray - {v},
       low := map x | x in s.low :: if x in p then Min(s.low[x], s.low[v]) else s.low[x],
       cyclic := s.cyclic + found)
  }

  /** The open files not older than `v`. */
  ghost function Component(es: Edges, s: Search, v: File): set<File>
    requires Shaped(es, s) && v in s.gray
  {
    set x | x in s.open && s.index[v] <= s.index[x]
  }

  lemma LeaveInsideKeepsInv(es: Edges, rt: Relation, s: Search, v: File, p: set<File>)
    requires Inv(es, rt, s) && CanLeave(es, s, v) && Parent(es, s, v, p)
    requires s.low[v] != s.index[v]
    ensures Inv(es, rt, Leave(s, v, p, {}, {}))
  {
    var t := Leave(s, v, p, {}, {});
    DistinctKept(es, s, t);
    assert Shaped(es, t);
    assert forall x :: t.Finished(x) <==> s.Finished(x);
    assert Explored(es, t);
    LeaveInsideKeepsGrounded(es, rt, s, v, p);
    LeaveKeepsAttained(es, rt, s, v, p, {}, {});
    LeaveKeepsBounded(es, s, v, p, {}, {});
  }

  /** A gray file whose low link is older than itself reaches an older gray file. */
  lemma LeaveInsideKeepsGrounded(es: Edges, rt: Relation, s: Search, v: File, p: set<File>)
    requires IsReach(es, rt) && Shaped(es, s) && Grounded(es, rt, s) && Attained(es, rt, s) && v in s.gray
    requires s.low[v] != s.index[v] && Shaped(es, Leave(s, v, p, {}, {}))
    ensures Grounded(es, rt, Leave(s, v, p, {}, {}))
  {
    var t := Leave(s, v, p, {}, {});
    assert LowWitness(es, rt, s, v);
    var y :| y in s.open && s.index[y] == s.low[v] && (v, y) in rt;
    assert DownToGray(es, rt, s, y);
    var g :| g in s.gray && s.index[g] <= s.index[y] && (y, g) in rt;
    RelTrans(es, rt, v, y, g);
    forall x | x in t.open
      ensures DownToGray(es, rt, t, x)
    {
      assert DownToGray(es, rt, s, x);
      var h :| h in s.gray && s.index[h] <= s.index[x] && (x, h) in rt;
      if h == v {
        RelTrans(es, rt, x, v, g);
        assert g in t.gray;
      } else {
        assert h in t.gray;
      }
    }
  }

  lemma LeaveKeepsBounded(es: Edges, s: Search, v: File, p: set<File>, gone: set<File>, found: set<File>)
    requires Shaped(es, s) && Bounded(es, s) && CanLeave(es, s, v) && Parent(es, s, v, p)
    requires Shaped(es, Leave(s, v, p, gone, found))
    ensures Bounded(es, Leave(s, v, p, gone, found))
  {
    var t := Leave(s, v, p, gone, found);
    forall g, y, w | g in t.gray && y in t.open && w in t.open && (y, w) in t.seen && Owner(es, t, g, y)
      ensures t.low[g] <= t.index[w]
    {
      LeaveKeepsBound(es, s, v, p, gone, found, g, y, w);
    }
  }

  lemma LeaveKeepsBound(
    es: Edges, s: Search, v: File, p: set<File>, gone: set<File>, found: set<File>, g: File, y: File, w: File)
    requires Shaped(es, s) && Bounded(es, s) && CanLeave(es, s, v) && Parent(es, s, v, p)
    requires
      var t := Leave(s, v, p, gone, found);
      && Shaped(es, t) && g in t.gray && y in t.open && w in t.open
      && (y, w) in t.seen && Owner(es, t, g, y)
    ensures Leave(s, v, p, gone, found).low[g] <= s.index[w]
  {
    assert g in s.gray && y in s.open && w in s.open;
    if s.index[v] <= s.index[y] {
      assert Owner(es, s, v, y);
      assert g in p by {
        var q :| p == {q} && q in s.gray && q != v && forall h :: h in s.gray && h != v ==> s.index[h] <= s.index[q];
        assert q in Leave(s, v, p, gone, found).gray;
        assert Distinct(s, q, v) && Distinct(s, g, q);
        assert s.index[q] < s.index[v];
      }
    } else {
      assert Owner(es, s, g, y);
    }
  }

  /** Low links stay attained both when nothing is closed and when the component of `v` is. */
  lemma LeaveKeepsAttained(
    es: Edges, rt: Relation, s: Search, v: File, p: set<File>, gone: set<File>, found: set<File>)
    requires IsReach(es, rt) && Shaped(es, s) && Ordered(es, rt, s) && Grounded(es, rt, s) && Attained(es, rt, s)
      && CanLeave(es, s, v) && Parent(es, s, v, p)
    requires gone == if s.low[v] == s.index[v] then Component(es, s, v) else {}
    requires Shaped(es, Leave(s, v, p, gone, found))
    ensures Attained(es, rt, Leave(s, v, p, gone, found))
  {
    forall x | x in Leave(s, v, p, gone, found).open
      ensures LowWitness(es, rt, Leave(s, v, p, gone, found), x)
    {
      LeaveKeepsWitness(es, rt, s, v, p, gone, found, x);
    }
  }

  lemma LeaveKeepsWitness(
    es: Edges, rt: Relation, s: Search, v: File, p: set<File>, gone: set<File>, found: set<File>, x: File)
    requires IsReach(es, rt) && Shaped(es, s) && Ordered(es, rt, s) && Grounded(es, rt, s) && Attained(es, rt, s)
      && CanLeave(es, s, v) && Parent(es, s, v, p)
    requires gone == if s.low[v] == s.index[v] then Component(es, s, v) else {}
    requires Shaped(es, Leave(s, v, p, gone, found))
    requires x in Leave(s, v, p, gone, found).open
    ensures LowWitness(es, rt, Leave(s, v, p, gone, found), x)
  {
    var t := Leave(s, v, p, gone, found);
    if t.low[x] != s.low[x] {
      assert LowWitness(es, rt, s, v);
      var y :| y in s.open && s.index[y] == s.low[v] && (v, y) in rt;
      assert (x, v) in rt;
      RelTrans(es, rt, x, v, y);
      assert y in t.open;
    } else {
      assert LowWitness(es, rt, s, x);
      var y :| y in s.open && s.index[y] == s.low[x] && (x, y) in rt;
      assert y in t.open;
    }
  }

  /** Edges out of a root's component lead into it or to finished files. */
  lemma ComponentClosed(es: Edges, s: Search, v: File, x: File, w: File)
    requires Shaped(es, s) && Explored(es, s) && Bounded(es, s) && CanLeave(es, s, v)
    requires s.low[v] == s.index[v]
    requires x in Component(es, s, v) && (x, w) in es
    ensures w in Component(es, s, v) || s.Finished(w)
  {
    assert Distinct(s, x, v);
    assert (x, w) in s.seen;
    assert Owner(es, s, v, x);
  }

  /** Every file of the component reaches its root. */
  lemma ComponentReachesRoot(es: Edges, rt: Relation, s: Search, v: File, x: File)
    requires Inv(es, rt, s) && CanLeave(es, s, v)
    requires s.low[v] == s.index[v]
    requires x in Component(es, s, v)
    ensures (x, v) in rt
  {
    var within := Component(es, s, v) + set z | z in s.index && s.Finished(z);
    forall a, b | a in within && (a, b) in es
      ensures b in within
    {
      if a in Component(es, s, v) { ComponentClosed(es, s, v, a, b); }
    }
    assert DownToGray(es, rt, s, x);
    var g :| g in s.gray && s.index[g] <= s.index[x] && (x, g) in rt;
    RelClosed(es, rt, within, x, g);
    assert Distinct(s, g, v);
  }

  /** The component of a root is exactly one strongly connected component of the graph. */
  lemma ComponentIsScc(es: Edges, rt: Relation, s: Search, v: File, x: File, y: File)
    requires Inv(es, rt, s) && CanLeave(es, s, v)
    requires s.low[v] == s.index[v]
    requires x in Component(es, s, v)
    ensures Mutual(rt, x, y) <==> y in Component(es, s, v)
  {
    ComponentReachesRoot(es, rt, s, v, x);
    if y in Component(es, s, v) {
      ComponentReachesRoot(es, rt, s, v, y);
      RelTrans(es, rt, x, v, y);
      RelTrans(es, rt, y, v, x);
    }
    if Mutual(rt, x, y) {
      var finished := set z | z in s.index && s.Finished(z);
      var within := Component(es, s, v) + finished;
      forall a, b | a in within && (a, b) in es
        ensures b in within
      {
        if a in Component(es, s, v) { ComponentClosed(es, s, v, a, b); }
      }
      RelClosed(es, rt, within, x, y);
      if y in finished { RelClosed(es, rt, finished, y, x); }
    }
  }

  lemma LeaveRootKeepsInv(es: Edges, rt: Relation, s: Search, v: File, p: set<File>, found: set<File>)
    requires Inv(es, rt, s) && CanLeave(es, s, v) && Parent(es, s, v, p)
    requires s.low[v] == s.index[v]
    requires found == if |Component(es, s, v)| > 1 then Component(es, s, v) else {}
    ensures Inv(es, rt, Leave(s, v, p, Component(es, s, v), found))
  {
    var gone := Component(es, s, v);
    var t := Leave(s, v, p, gone, found);
    DistinctKept(es, s, t);
    forall g | g in s.gray && g != v
      ensures g in t.open
    {
      assert Distinct(s, g, v);
    }
    assert Shaped(es, t);
    assert forall x :: t.Finished(x) <==> s.Finished(x) || x in gone;
    forall x, w | t.Finished(x) && (x, w) in es
      ensures t.Finished(w)
    {
      if x in gone { ComponentClosed(es, s, v, x, w); }
    }
    assert Explored(es, t);
    LeaveRootKeepsGrounded(es, rt, s, v, p, found);
    LeaveKeepsAttained(es, rt, s, v, p, gone, found);
    LeaveKeepsBounded(es, s, v, p, gone, found);
    forall x | x in gone
      ensures OnCycle(rt, x) <==> |gone| > 1
    {
      ComponentCycle(es, rt, s, v, x);
    }
  }

  lemma LeaveRootKeepsGrounded(es: Edges, rt: Relation, s: Search, v: File, p: set<File>, found: set<File>)
    requires Shaped(es, s) && Grounded(es, rt, s) && v in s.gray
    requires Shaped(es, Leave(s, v, p, Component(es, s, v), found))
    ensures Grounded(es, rt, Leave(s, v, p, Component(es, s, v), found))
  {
    var t := Leave(s, v, p, Component(es, s, v), found);
    forall x | x in t.open
      ensures DownToGray(es, rt, t, x)
    {
      assert DownToGray(es, rt, s, x);
      var h :| h in s.gray && s.index[h] <= s.index[x] && (x, h) in rt;
      assert h in t.gray;
    }
  }

  lemma ComponentCycle(es: Edges, rt: Relation, s: Search, v: File, x: File)
    requires Inv(es, rt, s) && CanLeave(es, s, v)
    requires s.low[v] == s.index[v]
    requires x in Component(es, s, v)
    ensures OnCycle(rt, x) <==> |Component(es, s, v)| > 1
  {
    var c := Component(es, s, v);
    if |c| > 1 {
      assert |c - {x}| == |c| - 1;
      assert c - {x} != {};
      var y :| y in c - {x};
      ComponentIsScc(es, rt, s, v, x, y);
      assert y != x && Mutual(rt, x, y);
    }
    if OnCycle(rt, x) {
      var y :| y != x && (x, y) in rt && (y, x) in rt;
      ComponentIsScc(es, rt, s, v, x, y);
      assert {x, y} <= c;
      assert |c - {x, y}| == |c| - |{x, y}|;
    }
  }
}
