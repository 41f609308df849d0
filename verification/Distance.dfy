/** Shortest distance from a set of files, and the state of a breadth-first search that computes it. */
module Distance {
  import opened Reachability

  /** The files within `n` edges of the starts. */
  ghost function Ball(es: Edges, starts: set<File>, n: nat): set<File> {
    if n == 0 then starts
    else Ball(es, starts, n - 1) + set e | e in es && e.0 in Ball(es, starts, n - 1) :: e.1
  }

  /** `x` is exactly `d` edges away from the nearest start. */
  ghost predicate At(es: Edges, starts: set<File>, x: File, d: nat) {
    x in Ball(es, starts, d) && (d > 0 ==> x !in Ball(es, starts, d - 1))
  }

  lemma {:induction false} BallGrows(es: Edges, starts: set<File>, m: nat, n: nat)
    requires m <= n
    ensures Ball(es, starts, m) <= Ball(es, starts, n)
    decreases n
  {
    if m < n {
      BallGrows(es, starts, m, n - 1);
    }
  }

  /** Balls are what short walks reach. */
  lemma {:induction false} BallIsWalks(es: Edges, starts: set<File>, n: nat, x: File)
    ensures x in Ball(es, starts, n) <==> exists s, k: nat :: s in starts && k <= n && Walk(es, k, s, x)
    decreases n
  {
    if x in Ball(es, starts, n) {
      BallHasWalk(es, starts, n, x);
    }
    if s, k: nat :| s in starts && k <= n && Walk(es, k, s, x) {
      WalkInBall(es, starts, 0, k, s, x);
      BallGrows(es, starts, k, n);
    }
  }

  lemma {:induction false} BallHasWalk(es: Edges, starts: set<File>, n: nat, x: File)
    requires x in Ball(es, starts, n)
    ensures exists s, k: nat :: s in starts && k <= n && Walk(es, k, s, x)
    decreases n
  {
    if n == 0 {
      assert Walk(es, 0, x, x);
    } else if x in Ball(es, starts, n - 1) {
      BallHasWalk(es, starts, n - 1, x);
    } else {
      var e :| e in es && e.0 in Ball(es, starts, n - 1) && e.1 == x;
      BallHasWalk(es, starts, n - 1, e.0);
      var s, k: nat :| s in starts && k <= n - 1 && Walk(es, k, s, e.0);
      assert (e.0, x) in es && Walk(es, 0, x, x);
      assert Walk(es, 1, e.0, x);
      WalkConcat(es, k, 1, s, e.0, x);
    }
  }

  lemma {:induction false} WalkInBall(es: Edges, starts: set<File>, m: nat, k: nat, s: File, x: File)
    requires s in Ball(es, starts, m) && Walk(es, k, s, x)
    ensures x in Ball(es, starts, m + k)
    decreases k
  {
    if k > 0 {
      var y :| (s, y) in es && Walk(es, k - 1, y, x);
      assert (s, y).1 in Ball(es, starts, m + 1);
      WalkInBall(es, starts, m + 1, k - 1, y, x);
    }
  }

  lemma StepInBall(es: Edges, starts: set<File>, n: nat, y: File, x: File)
    requires (y, x) in es && y in Ball(es, starts, n)
    ensures x in Ball(es, starts, n + 1)
  {
    assert (y, x).0 in Ball(es, starts, n);
  }

  /** A file at distance `d > 0` has a predecessor at distance `d - 1`. */
  lemma Predecessor(es: Edges, starts: set<File>, x: File, d: nat) returns (y: File)
    requires d > 0 && At(es, starts, x, d)
    ensures (y, x) in es && At(es, starts, y, d - 1)
  {
    var e :| e in es && e.0 in Ball(es, starts, d - 1) && e.1 == x;
    y := e.0;
    assert (y, x) == e;
  }

  lemma AtUnique(es: Edges, starts: set<File>, x: File, c: nat, d: nat)
    requires At(es, starts, x, c) && At(es, starts, x, d)
    ensures c == d
  {
    if c < d { BallGrows(es, starts, c, d - 1); }
    if d < c { BallGrows(es, starts, d, c - 1); }
  }

  lemma {:induction false} BallHasDistance(es: Edges, starts: set<File>, n: nat, x: File) returns (d: nat)
    requires x in Ball(es, starts, n)
    ensures d <= n && At(es, starts, x, d)
    decreases n
  {
    if n == 0 || x !in Ball(es, starts, n - 1) {
      d := n;
    } else {
      d := BallHasDistance(es, starts, n - 1, x);
    }
  }

  // ---- Breadth-first search -----------------------------------------------------------------------

  datatype Item = Item(node: File, depth: nat)

  type Queue = seq<Item>

  ghost predicate Queued(q: Queue, x: File) {
    exists i :: 0 <= i < |q| && q[i].node == x
  }

  /** Every discovered file carries its exact distance. */
  ghost predicate Exact(es: Edges, starts: set<File>, dist: map<File, nat>, limit: nat) {
    && starts <= dist.Keys
    && (forall x :: x in dist ==> dist[x] <= limit)
    && (forall x {:trigger At(es, starts, x, dist[x])} :: x in dist ==> At(es, starts, x, dist[x]))
  }

  /** The queue holds discovered files by distance, and spans at most two distances. */
  ghost predicate Layered(dist: map<File, nat>, q: Queue) {
    && (forall i :: 0 <= i < |q| ==> q[i].node in dist && q[i].depth == dist[q[i].node])
    && (forall i, j :: 0 <= i < j < |q| ==> q[i].depth <= q[j].depth <= q[0].depth + 1)
  }

  ghost predicate Expanded(es: Edges, dist: map<File, nat>, x: File) {
    forall y :: (x, y) in es ==> y in dist
  }

  /** Files that left the queue below the depth limit have all their successors discovered. */
  ghost predicate Swept(es: Edges, dist: map<File, nat>, q: Queue, limit: nat) {
    forall x {:trigger Queued(q, x)} {:trigger Expanded(es, dist, x)} ::
      x in dist && dist[x] < limit && !Queued(q, x) ==> Expanded(es, dist, x)
  }

  ghost predicate Bfs(es: Edges, starts: set<File>, dist: map<File, nat>, q: Queue, limit: nat) {
    Exact(es, starts, dist, limit) && Layered(dist, q) && Swept(es, dist, q, limit)
  }

  /** Once everything closer than `d` is expanded, everything within `d` is discovered. */
  lemma {:induction false} Covered(es: Edges, starts: set<File>, dist: map<File, nat>, limit: nat, d: nat, n: nat)
    requires Exact(es, starts, dist, limit) && n <= d <= limit
    requires forall x {:trigger Expanded(es, dist, x)} :: x in dist && dist[x] < d ==> Expanded(es, dist, x)
    ensures Ball(es, starts, n) <= dist.Keys
    decreases n
  {
    if n > 0 {
      Covered(es, starts, dist, limit, d, n - 1);
      forall e | e in es && e.0 in Ball(es, starts, n - 1)
        ensures e.1 in dist
      {
        ExpandedBelow(es, starts, dist, limit, d, n - 1, e.0);
        assert (e.0, e.1) in es;
      }
    }
  }

  lemma ExpandedBelow(es: Edges, starts: set<File>, dist: map<File, nat>, limit: nat, d: nat, n: nat, x: File)
    requires Exact(es, starts, dist, limit) && n < d && x in Ball(es, starts, n) && x in dist
    requires forall x {:trigger Expanded(es, dist, x)} :: x in dist && dist[x] < d ==> Expanded(es, dist, x)
    ensures Expanded(es, dist, x)
  {
    var k := BallHasDistance(es, starts, n, x);
    AtUnique(es, starts, x, k, dist[x]);
  }

  lemma Start(es: Edges, changed: seq<File>, dist: map<File, nat>, q: Queue, limit: nat)
    requires dist == map x | x in changed :: 0
    requires |q| == |changed| && forall i :: 0 <= i < |q| ==> q[i] == Item(changed[i], 0)
    ensures Bfs(es, (set x | x in changed), dist, q, limit)
  {
    forall x | x in dist
      ensures Queued(q, x)
    {
      var i :| 0 <= i < |changed| && changed[i] == x;
      assert q[i].node == x;
    }
  }

  /** Everything closer than the head of the queue is expanded. */
  lemma HeadCovers(es: Edges, starts: set<File>, dist: map<File, nat>, q: Queue, limit: nat)
    requires Bfs(es, starts, dist, q, limit) && |q| > 0 && q[0].depth <= limit
    ensures Ball(es, starts, q[0].depth) <= dist.Keys
  {
    forall x | x in dist && dist[x] < q[0].depth
      ensures Expanded(es, dist, x)
    {
    }
    Covered(es, starts, dist, limit, q[0].depth, q[0].depth);
  }

  /** An undiscovered successor of the head is one edge further than the head. */
  lemma Discover(es: Edges, starts: set<File>, dist: map<File, nat>, q: Queue, limit: nat, y: File)
    requires Bfs(es, starts, dist, q, limit) && |q| > 0 && q[0].depth < limit
    requires (q[0].node, y) in es && y !in dist
    ensures Bfs(es, starts, dist[y := q[0].depth + 1], q + [Item(y, q[0].depth + 1)], limit)
  {
    var d := q[0].depth + 1;
    assert At(es, starts, y, d) by {
      HeadCovers(es, starts, dist, q, limit);
      DiscoverAt(es, starts, dist, q[0].node, y);
    }
    DiscoverExact(es, starts, dist, limit, y, d);
    DiscoverLayered(dist, q, y, d);
    DiscoverSwept(es, dist, q, limit, y, d);
  }

  lemma DiscoverExact(es: Edges, starts: set<File>, dist: map<File, nat>, limit: nat, y: File, d: nat)
    requires Exact(es, starts, dist, limit) && y !in dist && d <= limit && At(es, starts, y, d)
    ensures Exact(es, starts, dist[y := d], limit)
  {
    forall x | x in dist && x != y ensures dist[y := d][x] == dist[x] && At(es, starts, x, dist[x]) {
    }
  }

  lemma DiscoverLayered(dist: map<File, nat>, q: Queue, y: File, d: nat)
    requires Layered(dist, q) && q != [] && d == q[0].depth + 1 && y !in dist
    ensures Layered(dist[y := d], q + [Item(y, d)])
  {
  }

  lemma DiscoverAt(es: Edges, starts: set<File>, dist: map<File, nat>, x: File, y: File)
    requires x in dist && At(es, starts, x, dist[x]) && (x, y) in es && y !in dist
    requires Ball(es, starts, dist[x]) <= dist.Keys
    ensures At(es, starts, y, dist[x] + 1)
  {
    StepInBall(es, starts, dist[x], x, y);
  }

  lemma DiscoverSwept(es: Edges, dist: map<File, nat>, q: Queue, limit: nat, y: File, d: nat)
    requires Swept(es, dist, q, limit) && y !in dist
    ensures Swept(es, dist[y := d], q + [Item(y, d)], limit)
  {
    var dist', q' := dist[y := d], q + [Item(y, d)];
    forall x | x in dist' && dist'[x] < limit && !Queued(q', x)
      ensures Expanded(es, dist', x)
    {
      assert q'[|q|].node == y;
      StillQueued(q, Item(y, d), x);
      assert Expanded(es, dist, x);
    }
  }

  lemma StillQueued(q: Queue, e: Item, x: File)
    ensures Queued(q, x) ==> Queued(q + [e], x)
  {
    if Queued(q, x) {
      var i :| 0 <= i < |q| && q[i].node == x;
      assert (q + [e])[i].node == x;
    }
  }

  /** An empty queue means that exactly the files within the limit were discovered, each at its distance. */
  lemma Finished(es: Edges, starts: set<File>, dist: map<File, nat>, limit: nat)
    requires Bfs(es, starts, dist, [], limit)
    ensures dist.Keys == Ball(es, starts, limit)
    ensures forall x, d: nat :: d <= limit ==> (At(es, starts, x, d) <==> x in dist && dist[x] == d)
  {
    forall x | x in dist && dist[x] < limit
      ensures Expanded(es, dist, x)
    {
      assert !Queued([], x);
    }
    Covered(es, starts, dist, limit, limit, limit);
    forall x | x in dist
      ensures x in Ball(es, starts, limit)
    {
      assert At(es, starts, x, dist[x]);
      BallGrows(es, starts, dist[x], limit);
    }
    forall x, d: nat | d <= limit && At(es, starts, x, d)
      ensures x in dist && dist[x] == d
    {
      BallGrows(es, starts, d, limit);
      AtUnique(es, starts, x, d, dist[x]);
    }
  }

  /** The files discovered at distance `d`. */
  ghost function Level(dist: map<File, nat>, d: nat): set<File> {
    set x | x in dist && dist[x] == d
  }

  lemma DiscoverLevel(dist: map<File, nat>, y: File, d: nat, e: nat)
    requires y !in dist
    ensures Level(dist[y := d], e) == Level(dist, e) + if e == d then {y} else {}
  {
  }

  /** The files exactly `d` edges away. */
  ghost function Sphere(es: Edges, starts: set<File>, d: nat): set<File> {
    if d == 0 then starts else Ball(es, starts, d) - Ball(es, starts, d - 1)
  }

  lemma SphereIsAt(es: Edges, starts: set<File>, x: File, d: nat)
    ensures x in Sphere(es, starts, d) <==> At(es, starts, x, d)
  {
  }

  function Bucket(buckets: map<nat, nat>, d: nat): nat {
    if d in buckets then buckets[d] else 0
  }

  /** Bucket `d` counts the files discovered at distance `d`; distance 0 and empty levels have no bucket. */
  ghost predicate Counts(dist: map<File, nat>, buckets: map<nat, nat>) {
    && 0 !in buckets
    && (forall d {:trigger Level(dist, d)} {:trigger Bucket(buckets, d)} :: d > 0 ==>
      Bucket(buckets, d) == |Level(dist, d)|)
    && (forall d :: d in buckets ==> buckets[d] > 0)
  }

  lemma DiscoverCounts(dist: map<File, nat>, buckets: map<nat, nat>, y: File, d: nat)
    requires Counts(dist, buckets) && y !in dist && d > 0
    ensures Counts(dist[y := d], buckets[d := Bucket(buckets, d) + 1])
  {
    var buckets' := buckets[d := Bucket(buckets, d) + 1];
    forall e: nat | e > 0
      ensures Bucket(buckets', e) == |Level(dist[y := d], e)|
    {
      DiscoverLevel(dist, y, d, e);
      assert Bucket(buckets, e) == |Level(dist, e)|;
    }
  }

  /**
   When the search is over, bucket `d` is the size of the sphere of radius `d`, and no bucket lies beyond the limit.
   */
  lemma FinishedCounts(es: Edges, starts: set<File>, dist: map<File, nat>, buckets: map<nat, nat>, limit: nat)
    requires Bfs(es, starts, dist, [], limit) && Counts(dist, buckets)
    ensures forall d :: 0 < d <= limit ==> Bucket(buckets, d) == |Sphere(es, starts, d)|
    ensures forall d :: d in buckets ==> 0 < d <= limit
  {
    Finished(es, starts, dist, limit);
    forall d | 0 < d <= limit
      ensures Bucket(buckets, d) == |Sphere(es, starts, d)|
    {
      assert Level(dist, d) == Sphere(es, starts, d) by {
        forall x
          ensures x in Level(dist, d) <==> x in Sphere(es, starts, d)
        {
          SphereIsAt(es, starts, x, d);
        }
      }
    }
    forall d | d in buckets
      ensures d <= limit
    {
      assert Bucket(buckets, d) == |Level(dist, d)| && Level(dist, d) != {};
      var x :| x in Level(dist, d);
    }
  }

  // ---- The search as a set of stages ----------------------------------------------------------------

  datatype Stage = Stage(dist: map<File, nat>, q: Queue, buckets: map<nat, nat>)

  /** One bounded search: where it starts, how deep it goes, and the stages it may be in. */
  datatype Hunt = Hunt(es: Edges, starts: set<File>, limit: nat, stages: iset<Stage>)

  ghost predicate Proper(h: Hunt, g: Stage) {
    Bfs(h.es, h.starts, g.dist, g.q, h.limit) && Counts(g.dist, g.buckets)
  }

  ghost predicate Tracks(h: Hunt) {
    forall g {:trigger Proper(h, g)} :: g in h.stages <==> Proper(h, g)
  }

  ghost function Zeroes(q: seq<File>): map<File, nat> {
    map x | x in q :: 0
  }

  function StartQueue(q: seq<File>): Queue {
    seq(|q|, i requires 0 <= i < |q| => Item(q[i], 0))
  }

  lemma HuntStart(es: Edges, changed: seq<File>, limit: nat) returns (h: Hunt)
    ensures Tracks(h) && h.es == es && h.starts == (set x | x in changed) && h.limit == limit
    ensures Stage(Zeroes(changed), StartQueue(changed), map[]) in h.stages
  {
    var starts := set x | x in changed;
    var k := Hunt(es, starts, limit, iset{});
    h := k.(stages := (iset g: Stage | Proper(k, g)));
    assert forall g {:trigger Proper(h, g)} :: Proper(h, g) <==> Proper(k, g);
    Start(es, changed, Zeroes(changed), StartQueue(changed), limit);
    assert Proper(h, Stage(Zeroes(changed), StartQueue(changed), map[]));
  }

  function Discovered(g: Stage, y: File, d: nat): Stage {
    Stage(g.dist[y := d], g.q + [Item(y, d)], g.buckets[d := Bucket(g.buckets, d) + 1])
  }

  lemma ProperDiscover(h: Hunt, g: Stage, y: File)
    requires Proper(h, g) && |g.q| > 0 && g.q[0].depth < h.limit && (g.q[0].node, y) in h.es && y !in g.dist
    ensures Proper(h, Discovered(g, y, g.q[0].depth + 1))
  {
    Discover(h.es, h.starts, g.dist, g.q, h.limit, y);
    DiscoverCounts(g.dist, g.buckets, y, g.q[0].depth + 1);
  }

  lemma HuntDiscover(h: Hunt, g: Stage, y: File)
    requires Tracks(h) && g in h.stages && |g.q| > 0 && g.q[0].depth < h.limit
    requires (g.q[0].node, y) in h.es && y !in g.dist
    ensures Discovered(g, y, g.q[0].depth + 1) in h.stages
  {
    assert Proper(h, g);
    ProperDiscover(h, g, y);
  }

  /** The same step while the head `q[0]` is being expanded and `added` has been queued so far. */
  lemma HuntAdd(h: Hunt, g: Stage, q: Queue, added: Queue, y: File, d: nat)
    requires Tracks(h) && g in h.stages && g.q == q + added && |q| > 0 && q[0].depth == d < h.limit
    requires (q[0].node, y) in h.es && y !in g.dist
    ensures Stage(g.dist[y := d + 1], q + (added + [Item(y, d + 1)]), g.buckets[d + 1 := Bucket(g.buckets, d + 1) + 1])
      in h.stages
  {
    assert g.q[0] == q[0];
    HuntDiscover(h, g, y);
    assert q + (added + [Item(y, d + 1)]) == g.q + [Item(y, d + 1)];
  }

  lemma HuntRetire(h: Hunt, g: Stage)
    requires Tracks(h) && g in h.stages && |g.q| > 0
    requires g.q[0].depth < h.limit ==> Expanded(h.es, g.dist, g.q[0].node)
    ensures g.(q := g.q[1..]) in h.stages
  {
    assert Proper(h, g);
    assert Proper(h, g.(q := g.q[1..]));
  }

  /** What has been discovered is as far away as is recorded, the head of the queue included. */
  lemma HuntExact(h: Hunt, g: Stage, x: File)
    requires Tracks(h) && g in h.stages
    ensures x in g.dist ==> At(h.es, h.starts, x, g.dist[x])
    ensures |g.q| > 0 ==> At(h.es, h.starts, g.q[0].node, g.q[0].depth)
  {
    assert Proper(h, g);
  }

  /** The search never leaves the ball, so it cannot go on for ever. */
  lemma HuntWithin(h: Hunt, g: Stage)
    requires Tracks(h) && g in h.stages
    ensures g.dist.Keys <= Ball(h.es, h.starts, h.limit)
  {
    assert Proper(h, g);
    forall x | x in g.dist
      ensures x in Ball(h.es, h.starts, h.limit)
    {
      assert At(h.es, h.starts, x, g.dist[x]);
      BallGrows(h.es, h.starts, g.dist[x], h.limit);
    }
  }

  /** Queueing anything leaves fewer files to discover; otherwise the set of files to discover does not grow. */
  lemma Shrinks(before: set<File>, after: set<File>, all: set<File>, added: Queue)
    requires before <= after <= all && (added != [] ==> added[0].node in after - before)
    ensures all - after < all - before || (all - after == all - before && added == [])
  {
    if added != [] {
      assert added[0].node in all - before && added[0].node !in all - after;
    } else if all - after != all - before {
      assert all - after <= all - before;
    }
  }

  lemma HuntFinished(h: Hunt, g: Stage)
    requires Tracks(h) && g in h.stages && g.q == []
    ensures g.dist.Keys == Ball(h.es, h.starts, h.limit)
    ensures forall d :: 0 < d <= h.limit ==> Bucket(g.buckets, d) == |Sphere(h.es, h.starts, d)|
    ensures forall d :: d in g.buckets ==> 0 < d <= h.limit && g.buckets[d] > 0
  {
    assert Proper(h, g);
    Finished(h.es, h.starts, g.dist, h.limit);
    FinishedCounts(h.es, h.starts, g.dist, g.buckets, h.limit);
  }
}
