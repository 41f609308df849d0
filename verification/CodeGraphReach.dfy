/**
 The two ways the code-graph adapter computes reach: a recursive query over the edge table,
 and a breadth-first search over adjacency lists held in memory.
 */
module CodeGraphReach {
  import opened Reachability
  import opened Distance

  const CONTAINER_DEPTH: nat := 8

  type Adjacency = map<File, seq<File>>

  function Next(adj: Adjacency, f: File): seq<File> {
    if f in adj then adj[f] else []
  }

  ghost function AdjacencyPairs(adj: Adjacency): Edges {
    set f, i | f in adj && 0 <= i < |adj[f]| :: (f, adj[f][i])
  }

  // ---- The recursive query --------------------------------------------------------------------------

  /** A row of the recursive table: a node and the depth of one way to it. */
  datatype Row = Row(id: File, depth: nat)

  /** The first part of the query: edges out of a target, unless they end in a blocked node. */
  ghost predicate HasBase(es: Edges, targets: set<File>, blocked: set<File>, rows: set<Row>) {
    forall t, x :: t in targets && (t, x) in es && x !in blocked ==> Row(x, 1) in rows
  }

  /** The recursive part: edges out of a row that is not yet at the depth limit. */
  ghost predicate HasStep(es: Edges, blocked: set<File>, limit: nat, rows: set<Row>) {
    forall p, d: nat, x :: Row(p, d) in rows && d < limit && (p, x) in es && x !in blocked ==> Row(x, d + 1) in rows
  }

  /** `rows` is what the query returns: the least table with the base rows that is closed under the recursive part. */
  ghost predicate IsQueryResult(es: Edges, targets: set<File>, blocked: set<File>, limit: nat, rows: set<Row>) {
    && HasBase(es, targets, blocked, rows)
    && HasStep(es, blocked, limit, rows)
    && (forall other {:trigger HasBase(es, targets, blocked, other)} ::
          HasBase(es, targets, blocked, other) && HasStep(es, blocked, limit, other) ==> rows <= other)
  }

  /** A way of `d` edges out of a target that never enters a blocked node. */
  ghost predicate Way(es: Edges, targets: set<File>, blocked: set<File>, d: nat, x: File) {
    && d > 0
    && x !in blocked
    && if d == 1 then exists t :: t in targets && (t, x) in es
       else exists p :: Way(es, targets, blocked, d - 1, p) && (p, x) in es
  }

  lemma {:induction false} WayInRows(es: Edges, targets: set<File>, blocked: set<File>, limit: nat, rows: set<Row>,
                                     d: nat, x: File)
    requires HasBase(es, targets, blocked, rows) && HasStep(es, blocked, limit, rows)
    requires Way(es, targets, blocked, d, x) && (d == 1 || d <= limit)
    ensures Row(x, d) in rows
  {
    if d > 1 {
      var p :| Way(es, targets, blocked, d - 1, p) && (p, x) in es;
      WayInRows(es, targets, blocked, limit, rows, d - 1, p);
    }
  }

  /** The edges that do not end in a blocked node. */
  ghost function Without(es: Edges, blocked: set<File>): Edges {
    set e | e in es && e.1 !in blocked
  }

  lemma {:induction false} WayInBall(es: Edges, targets: set<File>, blocked: set<File>, d: nat, x: File)
    requires Way(es, targets, blocked, d, x)
    ensures x in Ball(Without(es, blocked), targets, d)
  {
    var open := Without(es, blocked);
    if d == 1 {
      var t :| t in targets && (t, x) in es;
      assert (t, x) in open;
      StepInBall(open, targets, 0, t, x);
    } else {
      var p :| Way(es, targets, blocked, d - 1, p) && (p, x) in es;
      assert (p, x) in open;
      WayInBall(es, targets, blocked, d - 1, p);
      StepInBall(open, targets, d - 1, p, x);
    }
  }

  /** A node at positive distance `d`, blocked nodes avoided, has a way of `d` edges. */
  lemma {:induction false} DistanceIsWay(es: Edges, targets: set<File>, blocked: set<File>, d: nat, x: File)
    requires d > 0 && At(Without(es, blocked), targets, x, d)
    ensures Way(es, targets, blocked, d, x)
    decreases d
  {
    var y := Predecessor(Without(es, blocked), targets, x, d);
    if d > 1 {
      DistanceIsWay(es, targets, blocked, d - 1, y);
    }
  }

  ghost function Depths(n: nat): (s: set<nat>)
    ensures forall d: nat :: d in s <==> 1 <= d <= n
  {
    if n == 0 then {} else Depths(n - 1) + {n}
  }

  /** The rows of all ways within the limit. */
  ghost function WayRows(es: Edges, targets: set<File>, blocked: set<File>, limit: nat): set<Row> {
    var top := if limit == 0 then 1 else limit;
    set x, d | x in Ball(Without(es, blocked), targets, top) && d in Depths(top) && Way(es, targets, blocked, d, x) ::
      Row(x, d)
  }

  lemma WayRowsAre(es: Edges, targets: set<File>, blocked: set<File>, limit: nat, x: File, d: nat)
    ensures Row(x, d) in WayRows(es, targets, blocked, limit)
      <==> Way(es, targets, blocked, d, x) && (d == 1 || d <= limit)
  {
    var top := if limit == 0 then 1 else limit;
    if Way(es, targets, blocked, d, x) && d <= top {
      WayInBall(es, targets, blocked, d, x);
      BallGrows(Without(es, blocked), targets, d, top);
    }
  }

  /** The query has exactly one result: the rows of all ways within the limit. */
  lemma QueryResult(es: Edges, targets: set<File>, blocked: set<File>, limit: nat, rows: set<Row>)
    ensures IsQueryResult(es, targets, blocked, limit, rows) <==> rows == WayRows(es, targets, blocked, limit)
  {
    var ways := WayRows(es, targets, blocked, limit);
    WaysClosed(es, targets, blocked, limit);
    forall other | HasBase(es, targets, blocked, other) && HasStep(es, blocked, limit, other)
      ensures ways <= other
    {
      WaysLeast(es, targets, blocked, limit, other);
    }
  }

  lemma WaysLeast(es: Edges, targets: set<File>, blocked: set<File>, limit: nat, other: set<Row>)
    requires HasBase(es, targets, blocked, other) && HasStep(es, blocked, limit, other)
    ensures WayRows(es, targets, blocked, limit) <= other
  {
    forall r | r in WayRows(es, targets, blocked, limit)
      ensures r in other
    {
      assert r == Row(r.id, r.depth);
      WayRowsAre(es, targets, blocked, limit, r.id, r.depth);
      WayInRows(es, targets, blocked, limit, other, r.depth, r.id);
    }
  }

  lemma WaysClosed(es: Edges, targets: set<File>, blocked: set<File>, limit: nat)
    ensures HasBase(es, targets, blocked, WayRows(es, targets, blocked, limit))
    ensures HasStep(es, blocked, limit, WayRows(es, targets, blocked, limit))
  {
    var ways := WayRows(es, targets, blocked, limit);
    forall t, x | t in targets && (t, x) in es && x !in blocked
      ensures Row(x, 1) in ways
    {
      assert Way(es, targets, blocked, 1, x);
      WayRowsAre(es, targets, blocked, limit, x, 1);
    }
    forall p, d: nat, x | Row(p, d) in ways && d < limit && (p, x) in es && x !in blocked
      ensures Row(x, d + 1) in ways
    {
      WayRowsAre(es, targets, blocked, limit, p, d);
      assert Way(es, targets, blocked, d + 1, x);
      WayRowsAre(es, targets, blocked, limit, x, d + 1);
    }
  }

  /** `d` is the depth the query reports for `x` after grouping by node. */
  ghost predicate MinDepth(rows: set<Row>, x: File, d: nat) {
    Row(x, d) in rows && forall r :: r in rows && r.id == x ==> d <= r.depth
  }

  lemma ResultSound(es: Edges, targets: set<File>, blocked: set<File>, limit: nat, rows: set<Row>, r: Row)
    requires IsQueryResult(es, targets, blocked, limit, rows) && limit >= 1 && r in rows
    ensures 1 <= r.depth <= limit && r.id !in blocked && r.id in Ball(Without(es, blocked), targets, r.depth)
  {
    QueryResult(es, targets, blocked, limit, rows);
    assert r == Row(r.id, r.depth);
    WayRowsAre(es, targets, blocked, limit, r.id, r.depth);
    WayInBall(es, targets, blocked, r.depth, r.id);
  }

  lemma ResultComplete(es: Edges, targets: set<File>, blocked: set<File>, limit: nat, rows: set<Row>, x: File, d: nat)
    requires HasBase(es, targets, blocked, rows) && HasStep(es, blocked, limit, rows)
    requires 1 <= d <= limit && At(Without(es, blocked), targets, x, d)
    ensures Row(x, d) in rows
  {
    DistanceIsWay(es, targets, blocked, d, x);
    WayInRows(es, targets, blocked, limit, rows, d, x);
  }

  /**
   With a positive limit, grouping by minimum depth reports exactly the distances from the targets, whatever else is
   blocked, along edges that enter no blocked node. Only for a target that is not blocked the two differ: its distance
   is 0 and the query reports the way back to it, if any.
   */
  lemma QueryReportsDistance(es: Edges, targets: set<File>, blocked: set<File>, limit: nat, rows: set<Row>, x: File,
                             d: nat)
    requires limit >= 1 && IsQueryResult(es, targets, blocked, limit, rows)
    requires x in targets ==> x in blocked
    ensures MinDepth(rows, x, d) <==> 1 <= d <= limit && At(Without(es, blocked), targets, x, d)
  {
    var open := Without(es, blocked);
    if MinDepth(rows, x, d) {
      ResultSound(es, targets, blocked, limit, rows, Row(x, d));
      var c := BallHasDistance(open, targets, d, x);
      ResultComplete(es, targets, blocked, limit, rows, x, c);
    }
    if 1 <= d <= limit && At(open, targets, x, d) {
      ResultComplete(es, targets, blocked, limit, rows, x, d);
      forall r | r in rows && r.id == x
        ensures d <= r.depth
      {
        ResultSound(es, targets, blocked, limit, rows, r);
        var c := BallHasDistance(open, targets, r.depth, x);
        AtUnique(open, targets, x, c, d);
      }
    }
  }

  ghost function Ids(rows: set<Row>): set<File> {
    set r | r in rows :: r.id
  }

  /** The nodes the query reaches, and the targets, are the ball around the targets along the open edges. */
  lemma QueryReachesBall(es: Edges, targets: set<File>, blocked: set<File>, limit: nat, rows: set<Row>)
    requires limit >= 1 && IsQueryResult(es, targets, blocked, limit, rows)
    ensures targets + Ids(rows) == Ball(Without(es, blocked), targets, limit)
    ensures Ids(rows) !! blocked
  {
    var open := Without(es, blocked);
    BallGrows(open, targets, 0, limit);
    forall x | x in Ids(rows)
      ensures x in Ball(open, targets, limit) && x !in blocked
    {
      var r :| r in rows && r.id == x;
      ResultSound(es, targets, blocked, limit, rows, r);
      BallGrows(open, targets, r.depth, limit);
    }
    forall x | x in Ball(open, targets, limit) && x !in targets
      ensures x in Ids(rows)
    {
      var d := BallHasDistance(open, targets, limit, x);
      ResultComplete(es, targets, blocked, limit, rows, x, d);
      assert Row(x, d).id == x;
    }
  }

  // ---- The search in memory -------------------------------------------------------------------------

  /** The edge loop for one node taken off the frontier. */
  method Expand(adj: Adjacency, node: File, depth: nat, visited: set<File>, buckets: map<nat, nat>, ghost h: Hunt,
                ghost g: Stage)
    returns (visited': set<File>, buckets': map<nat, nat>, added: Queue, ghost g': Stage)
    requires Tracks(h) && h.es == AdjacencyPairs(adj) && g in h.stages && g.buckets == buckets && g.dist.Keys == visited
    requires |g.q| > 0 && g.q[0] == Item(node, depth) && depth < h.limit
    ensures g' in h.stages && g'.q == g.q + added && g'.buckets == buckets' && g'.dist.Keys == visited'
    ensures forall w :: w in Next(adj, node) ==> w in visited'
    ensures visited <= visited' && (added != [] ==> added[0].node in visited' - visited)
    ensures forall x :: x in visited' - visited <==> Queued(added, x)
    ensures forall i, j :: 0 <= i < j < |added| ==> added[i].node != added[j].node
  {
    visited', buckets', added, g' := visited, buckets, [], g;
    var next := Next(adj, node);
    for i := 0 to |next|
      invariant g' in h.stages && g'.q == g.q + added && g'.buckets == buckets' && g'.dist.Keys == visited'
      invariant visited <= visited' && (added != [] ==> added[0].node in visited' - visited)
      invariant forall k :: 0 <= k < i ==> next[k] in visited'
      invariant forall x :: x in visited' - visited <==> Queued(added, x)
      invariant forall i, j :: 0 <= i < j < |added| ==> added[i].node != added[j].node
    {
      var source := next[i];
      if source in visited' {
        continue;
      }
      HuntAdd(h, g', g.q, added, source, depth);
      QueuedAppend(added, Item(source, depth + 1));
      visited' := visited' + {source};
      buckets' := buckets'[depth + 1 := Bucket(buckets', depth + 1) + 1];
      added := added + [Item(source, depth + 1)];
      g' := Stage(g'.dist[source := depth + 1], g.q + added, buckets');
    }
  }

  lemma QueuedAppend(q: Queue, e: Item)
    ensures forall x {:trigger Queued(q + [e], x)} :: Queued(q + [e], x) <==> Queued(q, x) || x == e.node
    ensures forall i :: 0 <= i < |q| ==> Queued(q, q[i].node)
  {
    forall x
      ensures Queued(q + [e], x) <==> Queued(q, x) || x == e.node
    {
      StillQueued(q, e, x);
      assert (q + [e])[|q|] == e;
    }
  }

  /** One round: takes the first node off the frontier and, unless it lies at the depth limit, expands it. */
  method Round(adj: Adjacency, limit: nat, frontier: Queue, visited: set<File>, buckets: map<nat, nat>, ghost h: Hunt,
               ghost g: Stage)
    returns (frontier': Queue, visited': set<File>, buckets': map<nat, nat>, added: Queue, ghost g': Stage)
    requires Tracks(h) && h.es == AdjacencyPairs(adj) && h.limit == limit && |frontier| > 0
    requires g in h.stages && g == Stage(g.dist, frontier, buckets) && g.dist.Keys == visited
    ensures g' in h.stages && g' == Stage(g'.dist, frontier', buckets') && g'.dist.Keys == visited'
    ensures visited <= visited' && forall x :: x in visited' - visited <==> Queued(added, x)
    ensures forall i, j :: 0 <= i < j < |added| ==> added[i].node != added[j].node
    ensures
      var all := Ball(h.es, h.starts, h.limit);
      all - visited' < all - visited || (all - visited' == all - visited && |frontier'| < |frontier|)
  {
    var node, depth := frontier[0].node, frontier[0].depth;
    frontier', visited', buckets', added, g' := frontier[1..], visited, buckets, [], g;
    if depth < limit {
      visited', buckets', added, g' := Expand(adj, node, depth, visited, buckets, h, g);
      assert (frontier + added)[1..] == frontier' + added;
      frontier' := frontier' + added;
      HuntWithin(h, g');
      Shrinks(visited, visited', Ball(h.es, h.starts, h.limit), added);
    }
    HuntRetire(h, g');
    g' := g'.(q := frontier');
  }

  /** Count and per-depth buckets of the nodes that reach a target, as the in-memory search computes them. */
  method ImpactFromReverse(targets: seq<File>, reverse: Adjacency, maxDepth: nat)
    returns (count: nat, buckets: map<nat, nat>)
    ensures
      var es, starts := AdjacencyPairs(reverse), set t | t in targets;
      && count == |Ball(es, starts, maxDepth) - starts|
      && (forall d :: 0 < d <= maxDepth ==> Bucket(buckets, d) == |Sphere(es, starts, d)|)
      && (forall d :: d in buckets ==> 0 < d <= maxDepth && buckets[d] > 0)
  {
    ghost var h := HuntStart(AdjacencyPairs(reverse), targets, maxDepth);
    var visited := set t | t in targets;
    buckets := map[];
    var frontier := StartQueue(targets);
    ghost var g := Stage(Zeroes(targets), frontier, map[]);
    while frontier != []
      invariant g in h.stages && g == Stage(g.dist, frontier, buckets) && g.dist.Keys == visited
      decreases Ball(h.es, h.starts, h.limit) - visited, |frontier|
    {
      var added: Queue;
      frontier, visited, buckets, added, g := Round(reverse, maxDepth, frontier, visited, buckets, h, g);
    }
    HuntFinished(h, g);
    count := |visited - set t | t in targets|;
  }

  /** The root and its containers, nearest first, up to the containment depth limit. */
  method ContainerTargets(root: File, parents: Adjacency) returns (out: seq<File>)
    ensures (set x | x in out) == Ball(AdjacencyPairs(parents), {root}, 8)
    ensures |out| > 0 && out[0] == root
    ensures forall i, j :: 0 <= i < j < |out| ==> out[i] != out[j]
  {
    ghost var h := HuntStart(AdjacencyPairs(parents), [root], CONTAINER_DEPTH);
    out := [root];
    var seen, frontier := {root}, [Item(root, 0)];
    var unused: map<nat, nat> := map[];
    assert frontier == StartQueue([root]) && h.starts == {root};
    ghost var g := Stage(Zeroes([root]), frontier, map[]);
    while frontier != []
      invariant g in h.stages && g == Stage(g.dist, frontier, unused) && g.dist.Keys == seen
      invariant forall x :: x in out <==> x in seen
      invariant |out| > 0 && out[0] == root
      invariant forall i, j :: 0 <= i < j < |out| ==> out[i] != out[j]
      decreases Ball(h.es, h.starts, h.limit) - seen, |frontier|
    {
      ghost var before := seen;
      var added: Queue;
      frontier, seen, unused, added, g := Round(parents, CONTAINER_DEPTH, frontier, seen, unused, h, g);
      out := Appended(out, added, before);
    }
    HuntFinished(h, g);
  }

  method Appended(out: seq<File>, added: Queue, ghost before: set<File>) returns (out': seq<File>)
    requires |out| > 0 && (forall x :: x in out <==> x in before)
    requires forall x :: Queued(added, x) ==> x !in before
    requires forall i, j :: 0 <= i < j < |out| ==> out[i] != out[j]
    requires forall i, j :: 0 <= i < j < |added| ==> added[i].node != added[j].node
    ensures |out'| > 0 && out'[0] == out[0]
    ensures forall x :: x in out' <==> x in before || Queued(added, x)
    ensures forall i, j :: 0 <= i < j < |out'| ==> out'[i] != out'[j]
  {
    out' := out;
    for k := 0 to |added|
      invariant out <= out' && |out'| == |out| + k
      invariant forall i :: |out| <= i < |out'| ==> out'[i] == added[i - |out|].node
    {
      out' := out' + [added[k].node];
    }
    forall i, j | 0 <= i < j < |out'|
      ensures out'[i] != out'[j]
    {
      if i < |out| <= j {
        assert Queued(added, added[j - |out|].node);
        assert out[i] in out;
      }
    }
    forall x
      ensures x in out' <==> x in before || Queued(added, x)
    {
      if x in out' {
        var i :| 0 <= i < |out'| && out'[i] == x;
        if i < |out| { assert out[i] == x; } else { assert added[i - |out|].node == x; }
      }
      if Queued(added, x) {
        var i :| 0 <= i < |added| && added[i].node == x;
        assert out'[|out| + i] == added[|out| + i - |out|].node;
      }
      if x in out {
        var i :| 0 <= i < |out| && out[i] == x;
        assert out'[i] == x;
      }
    }
  }

  // ---- The two computations agree -------------------------------------------------------------------

  /** The nodes the query groups under depth `d`. */
  ghost function Group(rows: set<Row>, d: nat): set<File> {
    set r | r in rows && MinDepth(rows, r.id, d) :: r.id
  }

  /** Blocking nodes that are not within reach, targets aside, blocks nothing. */
  lemma NothingBlocked(es: Edges, targets: set<File>, blocked: set<File>, n: nat)
    requires IsClear(Ball(es, targets, n), targets, blocked)
    ensures Ball(Without(es, blocked), targets, n) == Ball(es, targets, n)
  {
    var region := Ball(es, targets, n);
    forall e | e in es && e.1 in region && e.1 !in targets ensures e in Without(es, blocked) {
    }
    SameBall(es, Without(es, blocked), targets, region, n);
  }

  /** Fewer edges, of which none that leads on within the region is missing, reach as far in it. */
  lemma {:induction false} SameBall(es: Edges, fewer: Edges, targets: set<File>, region: set<File>, n: nat)
    requires fewer <= es && Ball(es, targets, n) <= region
    requires forall e <- es :: e.1 in region && e.1 !in targets ==> e in fewer
    ensures Ball(fewer, targets, n) == Ball(es, targets, n)
  {
    if n > 0 {
      BallGrows(es, targets, n - 1, n);
      SameBall(es, fewer, targets, region, n - 1);
      BallGrows(es, targets, 0, n - 1);
      SameRound(es, fewer, Ball(es, targets, n - 1), targets, region);
    }
  }

  lemma SameRound(es: Edges, fewer: Edges, ball: set<File>, targets: set<File>, region: set<File>)
    requires fewer <= es && targets <= ball
    requires forall e <- es :: e.1 in region && e.1 !in targets ==> e in fewer
    requires ball + Ends(es, ball) <= region
    ensures ball + Ends(fewer, ball) == ball + Ends(es, ball)
  {
    forall x | x in Ends(es, ball) && x !in targets ensures x in Ends(fewer, ball) {
      var e :| e in es && e.0 in ball && e.1 == x;
    }
  }

  /** Where the edges out of these nodes end. */
  ghost function Ends(es: Edges, nodes: set<File>): set<File> {
    set e | e in es && e.0 in nodes :: e.1
  }

  /** Of these nodes only targets are blocked. */
  ghost predicate IsClear(nodes: set<File>, targets: set<File>, blocked: set<File>) {
    forall x <- nodes :: x in blocked ==> x in targets
  }

  lemma {:induction false} OpenIsLess(es: Edges, targets: set<File>, blocked: set<File>, n: nat)
    ensures Ball(Without(es, blocked), targets, n) <= Ball(es, targets, n)
  {
    if n > 0 {
      OpenIsLess(es, targets, blocked, n - 1);
    }
  }

  /** With the targets alone blocked the query and the search report the same nodes and the same per-depth groups. */
  lemma ImpactAgrees(es: Edges, targets: set<File>, limit: nat, rows: set<Row>)
    requires limit >= 1 && IsQueryResult(es, targets, targets, limit, rows)
    ensures Ids(rows) == Ball(es, targets, limit) - targets
    ensures forall d :: 0 < d <= limit ==> Group(rows, d) == Sphere(es, targets, d)
    ensures forall d: nat :: d == 0 || d > limit ==> Group(rows, d) == {}
  {
    QueryReachesBall(es, targets, targets, limit, rows);
    NothingBlocked(es, targets, targets, limit);
    forall r | r in rows
      ensures r.id !in targets && 0 < r.depth <= limit
    {
      ResultSound(es, targets, targets, limit, rows, r);
    }
    forall d, x | 0 < d <= limit
      ensures x in Group(rows, d) <==> x in Sphere(es, targets, d)
    {
      GroupIsSphere(es, targets, limit, rows, d, x);
    }
  }

  lemma GroupIsSphere(es: Edges, targets: set<File>, limit: nat, rows: set<Row>, d: nat, x: File)
    requires 0 < d <= limit && IsQueryResult(es, targets, targets, limit, rows)
    ensures x in Group(rows, d) <==> x in Sphere(es, targets, d)
  {
    SphereIsAt(es, targets, x, d);
    OwnBlockadeIsVoid(es, targets, x, d);
    QueryReportsDistance(es, targets, targets, limit, rows, x, d);
    InGroup(rows, x, d);
  }

  lemma InGroup(rows: set<Row>, x: File, d: nat)
    ensures x in Group(rows, d) <==> MinDepth(rows, x, d)
  {
    if MinDepth(rows, x, d) {
      assert Row(x, d).id == x;
    }
  }

  lemma OwnBlockadeIsVoid(es: Edges, targets: set<File>, x: File, d: nat)
    ensures At(Without(es, targets), targets, x, d) <==> At(es, targets, x, d)
  {
    NothingBlocked(es, targets, targets, d);
    NothingBlocked(es, targets, targets, if d > 0 then d - 1 else 0);
    AtByBalls(es, Without(es, targets), targets, x, d);
  }

  lemma AtByBalls(es: Edges, fewer: Edges, targets: set<File>, x: File, d: nat)
    requires Ball(fewer, targets, d) == Ball(es, targets, d)
    requires d > 0 ==> Ball(fewer, targets, d - 1) == Ball(es, targets, d - 1)
    ensures At(fewer, targets, x, d) <==> At(es, targets, x, d)
  {
  }

  /** At limit 0 the query still returns its base rows; it agrees with the search exactly when there are none. */
  lemma ImpactAgreesAtZero(es: Edges, targets: set<File>, rows: set<Row>)
    requires IsQueryResult(es, targets, targets, 0, rows)
    ensures |Ids(rows)| == |Ball(es, targets, 0) - targets|
      <==> forall t, x :: t in targets && (t, x) in es ==> x in targets
  {
    assert Ball(es, targets, 0) - targets == {};
    if t, x :| t in targets && (t, x) in es && x !in targets {
      assert Row(x, 1) in rows;
      assert Row(x, 1).id in Ids(rows);
    }
    if r :| r in rows {
      ZeroRowLeaves(es, targets, rows, r);
    } else {
      assert Ids(rows) == {};
    }
  }

  lemma ZeroRowLeaves(es: Edges, targets: set<File>, rows: set<Row>, r: Row)
    requires IsQueryResult(es, targets, targets, 0, rows) && r in rows
    ensures exists t, x :: t in targets && (t, x) in es && x !in targets
  {
    QueryResult(es, targets, targets, 0, rows);
    assert r == Row(r.id, r.depth);
    WayRowsAre(es, targets, targets, 0, r.id, r.depth);
    var t :| t in targets && (t, r.id) in es;
  }

  /** The containers of several roots are the roots and the rows of the hierarchy query, which blocks nothing. */
  lemma ContainersAgree(es: Edges, roots: set<File>, rows: set<Row>)
    requires IsQueryResult(es, roots, {}, CONTAINER_DEPTH, rows)
    ensures Ball(es, roots, CONTAINER_DEPTH) == roots + Ids(rows)
  {
    QueryReachesBall(es, roots, {}, CONTAINER_DEPTH, rows);
    assert Without(es, {}) == es;
  }

  /** The nodes an edit of `roots` targets: themselves and their containers. */
  ghost function TargetsOf(parents: Edges, roots: set<File>): set<File> {
    Ball(parents, roots, CONTAINER_DEPTH)
  }

  /**
   What the in-memory search finds for these roots: for one root, an entry of the distribution values are ranked in.
   */
  ghost function ImpactOf(parents: Edges, reverse: Edges, roots: set<File>, limit: nat): set<File> {
    Ball(reverse, TargetsOf(parents, roots), limit) - TargetsOf(parents, roots)
  }

  /** The rows of the reach query for `roots`, with the targets of `edit` blocked besides their own. */
  ghost predicate IsReach(parents: Edges, reverse: Edges, roots: set<File>, edit: set<File>, limit: nat, rows: set<Row>)
  {
    exists containers, others {:trigger Containing(parents, roots, containers), Containing(parents, edit, others)} ::
      && Containing(parents, roots, containers) && Containing(parents, edit, others)
      && var targets := roots + Ids(containers);
         IsQueryResult(reverse, targets, targets + (edit + Ids(others)), limit, rows)
  }

  ghost predicate Containing(parents: Edges, roots: set<File>, containers: set<Row>) {
    IsQueryResult(parents, roots, {}, CONTAINER_DEPTH, containers)
  }

  lemma ReachIs(parents: Edges, reverse: Edges, roots: set<File>, edit: set<File>, limit: nat, rows: set<Row>)
    requires limit >= 1 && IsReach(parents, reverse, roots, edit, limit, rows) && roots <= edit
    ensures var targets, changed := TargetsOf(parents, roots), TargetsOf(parents, edit);
      && targets <= changed
      && IsQueryResult(reverse, targets, changed, limit, rows)
      && Ids(rows) == Ball(Without(reverse, changed), targets, limit) - targets
  {
    var containers, others :| Containing(parents, roots, containers) && Containing(parents, edit, others)
      && IsQueryResult(reverse, roots + Ids(containers), (roots + Ids(containers)) + (edit + Ids(others)), limit, rows);
    var targets, changed := TargetsOf(parents, roots), TargetsOf(parents, edit);
    ContainersAgree(parents, roots, containers);
    ContainersAgree(parents, edit, others);
    BallOfMore(parents, roots, edit, CONTAINER_DEPTH);
    assert targets + changed == changed;
    QueryReachesBall(reverse, targets, changed, limit, rows);
  }

  lemma {:induction false} BallOfMore(es: Edges, some: set<File>, all: set<File>, n: nat)
    requires some <= all
    ensures Ball(es, some, n) <= Ball(es, all, n)
  {
    if n > 0 {
      BallOfMore(es, some, all, n - 1);
    }
  }

  /**
   The two halves compose, for any number of roots: the impact of an edit is the same, node by node and depth by depth,
   whether its containers and their reach come from queries or from the search in memory.
   */
  lemma ModifyImpactAgrees(parents: Edges, reverse: Edges, roots: set<File>, limit: nat, rows: set<Row>)
    requires limit >= 1 && IsReach(parents, reverse, roots, roots, limit, rows)
    ensures Ids(rows) == ImpactOf(parents, reverse, roots, limit)
    ensures forall d :: 0 < d <= limit ==> Group(rows, d) == Sphere(reverse, TargetsOf(parents, roots), d)
  {
    ReachIs(parents, reverse, roots, roots, limit, rows);
    ImpactAgrees(reverse, TargetsOf(parents, roots), limit, rows);
  }

  /**
   The value ranked for one owner of an edit leaves out what the whole edit targets; the entries it is ranked among
   leave out nothing. The two count alike if and only if nothing else that the edit targets is within the owner's reach.
   */
  lemma OwnerComparableIff(parents: Edges, reverse: Edges, owner: File, edit: set<File>, limit: nat, rows: set<Row>)
    requires limit >= 1 && owner in edit && IsReach(parents, reverse, {owner}, edit, limit, rows)
    ensures Ids(rows) <= ImpactOf(parents, reverse, {owner}, limit)
    ensures |Ids(rows)| == |ImpactOf(parents, reverse, {owner}, limit)|
       <==> ImpactOf(parents, reverse, {owner}, limit) !! TargetsOf(parents, edit)
  {
    var targets, changed := TargetsOf(parents, {owner}), TargetsOf(parents, edit);
    var impact := ImpactOf(parents, reverse, {owner}, limit);
    ReachIs(parents, reverse, {owner}, edit, limit, rows);
    QueryReachesBall(reverse, targets, changed, limit, rows);
    OpenIsLess(reverse, targets, changed, limit);
    if impact !! changed {
      forall x | x in Ball(reverse, targets, limit) && x in changed ensures x in targets {
        assert x !in impact;
      }
      NothingBlocked(reverse, targets, changed, limit);
    } else {
      var x :| x in impact && x in changed;
      assert x !in Ids(rows);
    }
    SubsetSize(Ids(rows), impact);
  }

  lemma SubsetSize(a: set<File>, b: set<File>)
    requires a <= b
    ensures |a| == |b| <==> a == b
  {
    assert |b| == |a| + |b - a| by {
      assert b == a + (b - a);
    }
  }

  /** Leaving out what the whole edit targets loses nothing: together the owners reach exactly what the edit reaches. */
  lemma OwnersCoverEdit(parents: Edges, reverse: Edges, edit: set<File>, limit: nat, reach: map<File, set<Row>>,
                        x: File)
    requires limit >= 1 && reach.Keys == edit
    requires forall owner <- edit :: IsReach(parents, reverse, {owner}, edit, limit, reach[owner])
    ensures x in ImpactOf(parents, reverse, edit, limit) <==> exists owner <- edit :: x in Ids(reach[owner])
  {
    var changed := TargetsOf(parents, edit);
    var open := Without(reverse, changed);
    NothingBlocked(reverse, changed, changed, limit);
    if x in ImpactOf(parents, reverse, edit, limit) {
      var t := BallFromOne(open, changed, limit, x);
      var owner := BallFromOne(parents, edit, CONTAINER_DEPTH, t);
      ReachIs(parents, reverse, {owner}, edit, limit, reach[owner]);
      BallOfMore(open, {t}, TargetsOf(parents, {owner}), limit);
    }
    if owner :| owner in edit && x in Ids(reach[owner]) {
      ReachIs(parents, reverse, {owner}, edit, limit, reach[owner]);
      QueryReachesBall(reverse, TargetsOf(parents, {owner}), changed, limit, reach[owner]);
      BallOfMore(open, TargetsOf(parents, {owner}), changed, limit);
    }
  }

  /**
   The value ranked for a whole edit is no entry of the distribution unless the edit has one root: it counts what any of
   its roots reaches and the edit itself does not target.
   */
  lemma EditImpactIsUnion(parents: Edges, reverse: Edges, edit: set<File>, limit: nat, x: File)
    ensures x in ImpactOf(parents, reverse, edit, limit) <==>
      x !in TargetsOf(parents, edit) && exists root <- edit :: x in ImpactOf(parents, reverse, {root}, limit)
  {
    var changed := TargetsOf(parents, edit);
    if x in ImpactOf(parents, reverse, edit, limit) {
      var t := BallFromOne(reverse, changed, limit, x);
      var root := BallFromOne(parents, edit, CONTAINER_DEPTH, t);
      BallOfMore(parents, {root}, edit, CONTAINER_DEPTH);
      BallOfMore(reverse, {t}, TargetsOf(parents, {root}), limit);
    }
    if root :| root in edit && x in ImpactOf(parents, reverse, {root}, limit) {
      BallOfMore(parents, {root}, edit, CONTAINER_DEPTH);
      BallOfMore(reverse, TargetsOf(parents, {root}), changed, limit);
    }
  }

  /** What is within reach of several starts is within reach of one of them. */
  lemma {:induction false} BallFromOne(es: Edges, starts: set<File>, n: nat, x: File) returns (s: File)
    requires x in Ball(es, starts, n)
    ensures s in starts && x in Ball(es, {s}, n)
  {
    if n == 0 {
      s := x;
    } else if x in Ball(es, starts, n - 1) {
      s := BallFromOne(es, starts, n - 1, x);
    } else {
      var e :| e in es && e.0 in Ball(es, starts, n - 1) && e.1 == x;
      s := BallFromOne(es, starts, n - 1, e.0);
    }
  }
}
