/** The cached payload and the metrics derived from its edges. */
module Payload {
  import opened Wrappers
  import opened Reachability
  import opened ImportCycles

  const ANCHOR_MIN_IN_DEGREE: nat := 3
  const ANCHOR_FANIN_PERCENTILE: real := 0.90

  /** A content digest; two contents share one only if they are equal. */
  datatype Digest = Sha256(content: string)

  datatype Graph = Graph(
    hashes: map<File, Digest>,
    edges: seq<Edge>,
    entrypoints: set<File>,
    parseErrors: set<File>,
    inDegree: map<File, nat>,
    outDegree: map<File, nat>,
    scores: map<File, real>,
    anchors: set<File>,
    cycles: set<File>,
    total: nat,
    crossDomain: nat)

  /** How many edges satisfy `p`. */
  function Tally(edges: seq<Edge>, p: Edge -> bool): nat {
    if edges == [] then 0
    else Tally(edges[..|edges| - 1], p) + if p(edges[|edges| - 1]) then 1 else 0
  }

  function InTo(f: File): Edge -> bool {
    (e: Edge) => e.tgt == Some(f)
  }

  function OutOf(f: File): Edge -> bool {
    (e: Edge) => e.tgt.Some? && e.src == f
  }

  function IsResolved(): Edge -> bool {
    (e: Edge) => e.tgt.Some?
  }

  function Domain(path: string): string {
    if '/' !in path then "." else Head(path)
  }

  /** The text before the first slash. */
  function Head(path: string): string {
    if path == "" || path[0] == '/' then "" else [path[0]] + Head(path[1..])
  }

  /** The domain is the first directory on the path, or the root. */
  lemma {:induction false} DomainIs(dir: string, rest: string)
    requires '/' !in dir
    ensures Domain(dir + ("/" + rest)) == dir && Domain(dir) == "."
  {
    var path := dir + ("/" + rest);
    assert path[|dir|] == '/';
    HeadIs(dir, rest);
  }

  lemma {:induction false} HeadIs(dir: string, rest: string)
    requires '/' !in dir
    ensures Head(dir + ("/" + rest)) == dir
  {
    if dir == "" {
      assert dir + ("/" + rest) == "/" + rest;
    } else {
      assert dir[0] in dir && (dir + ("/" + rest))[1..] == dir[1..] + ("/" + rest);
      HeadIs(dir[1..], rest);
      assert dir == [dir[0]] + dir[1..];
    }
  }

  function Crosses(): Edge -> bool {
    (e: Edge) => e.tgt.Some? && Domain(e.src.path) != Domain(e.tgt.value.path)
  }

  function Degree(m: map<File, nat>, f: File): nat {
    if f in m then m[f] else 0
  }

  function Lower(inDegree: map<File, nat>, d: nat): set<File> {
    set g | g in inDegree && inDegree[g] <= d
  }

  /** Fan-in rank: the files without importers, and the imported files no more imported than this one. */
  function AtMost(inDegree: map<File, nat>, files: nat, d: nat): nat {
    (if files >= |inDegree| then files - |inDegree| else 0) + |Lower(inDegree, d)|
  }

  function Percentiles(inDegree: map<File, nat>, files: nat): map<File, real> {
    if files == 0 then map[]
    else
      map f | f in inDegree && inDegree[f] >= ANCHOR_MIN_IN_DEGREE ::
        AtMost(inDegree, files, inDegree[f]) as real / files as real
  }

  /** What the metrics of a payload say about its edges. */
  ghost predicate Derived(g: Graph) {
    && (forall f {:trigger Degree(g.inDegree, f)} :: Degree(g.inDegree, f) == Tally(g.edges, InTo(f)))
    && (forall f {:trigger Degree(g.outDegree, f)} :: Degree(g.outDegree, f) == Tally(g.edges, OutOf(f)))
    && (forall f :: f in g.inDegree ==> g.inDegree[f] > 0)
    && (forall f :: f in g.outDegree ==> g.outDegree[f] > 0)
    && g.scores == Percentiles(g.inDegree, |g.hashes|)
    && g.anchors == (set f | f in g.scores && g.scores[f] >= ANCHOR_FANIN_PERCENTILE)
    && (forall f :: f in g.cycles <==> InCycle(Pairs(g.edges), f))
    && g.total == Tally(g.edges, IsResolved())
    && g.crossDomain == Tally(g.edges, Crosses())
  }

  lemma TallyStep(edges: seq<Edge>, k: nat, p: Edge -> bool)
    requires k < |edges|
    ensures Tally(edges[..k + 1], p) == Tally(edges[..k], p) + if p(edges[k]) then 1 else 0
  {
    assert edges[..k + 1][..k] == edges[..k];
  }

  method Assemble(hashes: map<File, Digest>, edges: seq<Edge>, entrypoints: set<File>, parseErrors: set<File>)
    returns (g: Graph)
    ensures g.hashes == hashes && g.edges == edges && g.entrypoints == entrypoints && g.parseErrors == parseErrors
    ensures Derived(g)
  {
    var inDegree: map<File, nat>, outDegree: map<File, nat> := map[], map[];
    var total, crossDomain := 0, 0;
    for k := 0 to |edges|
      invariant forall f {:trigger Degree(inDegree, f)} :: Degree(inDegree, f) == Tally(edges[..k], InTo(f))
      invariant forall f {:trigger Degree(outDegree, f)} :: Degree(outDegree, f) == Tally(edges[..k], OutOf(f))
      invariant (forall f :: f in inDegree ==> inDegree[f] > 0) && (forall f :: f in outDegree ==> outDegree[f] > 0)
      invariant total == Tally(edges[..k], IsResolved()) && crossDomain == Tally(edges[..k], Crosses())
    {
      var e := edges[k];
      ghost var inBefore, outBefore := inDegree, outDegree;
      if e.tgt.Some? {
        inDegree := inDegree[e.tgt.value := Degree(inDegree, e.tgt.value) + 1];
        outDegree := outDegree[e.src := Degree(outDegree, e.src) + 1];
        total := total + 1;
        if Domain(e.src.path) != Domain(e.tgt.value.path) {
          crossDomain := crossDomain + 1;
        }
      }
      forall f
        ensures Degree(inDegree, f) == Tally(edges[..k + 1], InTo(f))
          && Degree(outDegree, f) == Tally(edges[..k + 1], OutOf(f))
      {
        assert Degree(inBefore, f) == Tally(edges[..k], InTo(f)) && Degree(outBefore, f) == Tally(edges[..k], OutOf(f));
        TallyStep(edges, k, InTo(f));
        TallyStep(edges, k, OutOf(f));
      }
      TallyStep(edges, k, IsResolved());
      TallyStep(edges, k, Crosses());
    }
    assert edges[..|edges|] == edges;
    var scores := Percentiles(inDegree, |hashes|);
    var anchors := set f | f in scores && scores[f] >= ANCHOR_FANIN_PERCENTILE;
    var cycles := CycleFiles(edges);
    g := Graph(hashes, edges, entrypoints, parseErrors, inDegree, outDegree, scores, anchors, cycles, total,
      crossDomain);
  }

  // ---- The metrics do not depend on the order of the edges -------------------------------------------

  lemma {:induction false} TallySplit(edges: seq<Edge>, i: nat, p: Edge -> bool)
    requires i < |edges|
    ensures Tally(edges, p) == Tally(edges[..i] + edges[i + 1..], p) + if p(edges[i]) then 1 else 0
    decreases |edges|
  {
    var n := |edges| - 1;
    var rest := edges[..i] + edges[i + 1..];
    if i < n {
      TallySplit(edges[..n], i, p);
      assert edges[..n][..i] + edges[..n][i + 1..] == rest[..n - 1];
      assert |rest| == n && rest[n - 1] == edges[n];
      assert edges[..n][i] == edges[i];
    } else {
      assert rest == edges[..n];
    }
  }

  /** The last edge of one list occurs in any reordering, and taking it out of both leaves a reordering. */
  lemma TakeOut(a: seq<Edge>, b: seq<Edge>) returns (i: nat)
    requires multiset(a) == multiset(b) && a != []
    ensures i < |b| && b[i] == a[|a| - 1]
    ensures multiset(b[..i] + b[i + 1..]) == multiset(a[..|a| - 1])
  {
    var n := |a| - 1;
    assert a == a[..n] + [a[n]];
    assert a[n] in multiset(a);
    i :| 0 <= i < |b| && b[i] == a[n];
    assert b == b[..i] + [b[i]] + b[i + 1..];
    assert multiset(b[..i] + b[i + 1..]) == multiset(b) - multiset{b[i]};
  }

  lemma {:induction false} TallyOrder(a: seq<Edge>, b: seq<Edge>, p: Edge -> bool)
    requires multiset(a) == multiset(b)
    ensures Tally(a, p) == Tally(b, p)
    decreases |a|
  {
    if a == [] {
      assert |b| == |multiset(b)| == 0;
    } else {
      var i := TakeOut(a, b);
      TallyOrder(a[..|a| - 1], b[..i] + b[i + 1..], p);
      TallySplit(b, i, p);
    }
  }

  lemma PairsOrder(a: seq<Edge>, b: seq<Edge>)
    requires multiset(a) == multiset(b)
    ensures Pairs(a) == Pairs(b)
  {
    forall e
      ensures e in a <==> e in b
    {
      assert e in multiset(a) <==> e in multiset(b);
    }
  }

  lemma DegreesOrder(m: map<File, nat>, n: map<File, nat>)
    requires forall f :: Degree(m, f) == Degree(n, f)
    requires (forall f :: f in m ==> m[f] > 0) && (forall f :: f in n ==> n[f] > 0)
    ensures m == n
  {
    forall f
      ensures f in m <==> f in n
      ensures f in m ==> m[f] == n[f]
    {
      assert Degree(m, f) == Degree(n, f);
    }
  }

  /** Two payloads are the same graph when they differ at most in the order of their edges. */
  ghost predicate SameGraph(g: Graph, h: Graph) {
    multiset(g.edges) == multiset(h.edges) && g.(edges := h.edges) == h
  }

  lemma DerivedOrder(g: Graph, h: Graph)
    requires Derived(g) && Derived(h) && multiset(g.edges) == multiset(h.edges)
    requires g.hashes == h.hashes && g.entrypoints == h.entrypoints && g.parseErrors == h.parseErrors
    ensures SameGraph(g, h)
  {
    forall f
      ensures Degree(g.inDegree, f) == Degree(h.inDegree, f) && Degree(g.outDegree, f) == Degree(h.outDegree, f)
    {
      TallyOrder(g.edges, h.edges, InTo(f));
      TallyOrder(g.edges, h.edges, OutOf(f));
    }
    DegreesOrder(g.inDegree, h.inDegree);
    DegreesOrder(g.outDegree, h.outDegree);
    TallyOrder(g.edges, h.edges, IsResolved());
    TallyOrder(g.edges, h.edges, Crosses());
    PairsOrder(g.edges, h.edges);
    assert g.cycles == h.cycles;
  }

  /** The files imported no more often than `d` times, leaves included. */
  function NoMoreImported(hashes: map<File, Digest>, inDegree: map<File, nat>, d: nat): set<File> {
    set x | x in hashes && Degree(inDegree, x) <= d
  }

  /** A file's score is the share of files imported no more often than it is. */
  lemma PercentileMeaning(g: Graph, f: File)
    requires Derived(g) && g.inDegree.Keys <= g.hashes.Keys && f in g.scores
    ensures g.scores[f] * |g.hashes| as real
      == |NoMoreImported(g.hashes, g.inDegree, Degree(g.inDegree, f))| as real
  {
    RankCounts(g.hashes, g.inDegree, Degree(g.inDegree, f));
    ScoreTimesFiles(g.inDegree, |g.hashes|, f);
  }

  /** Which files get a score, and which of them are anchors: by how often they are imported, and by how many files. */
  lemma ScoredIff(g: Graph, f: File)
    requires Derived(g) && g.inDegree.Keys <= g.hashes.Keys
    ensures f in g.scores <==> g.hashes != map[] && Tally(g.edges, InTo(f)) >= 3
    ensures f in g.anchors <==>
      f in g.scores
      && 10 * |NoMoreImported(g.hashes, g.inDegree, Tally(g.edges, InTo(f)))| >= 9 * |g.hashes|
  {
    assert Degree(g.inDegree, f) == Tally(g.edges, InTo(f));
    HasScoreIff(g.inDegree, |g.hashes|, f);
    if f in g.scores {
      IsAnchorIff(g, f);
    }
  }

  lemma HasScoreIff(inDegree: map<File, nat>, files: nat, f: File)
    ensures f in Percentiles(inDegree, files) <==> files > 0 && Degree(inDegree, f) >= 3
  {
  }

  lemma IsAnchorIff(g: Graph, f: File)
    requires Derived(g) && g.inDegree.Keys <= g.hashes.Keys && f in g.scores
    ensures f in g.anchors <==>
      10 * |NoMoreImported(g.hashes, g.inDegree, Degree(g.inDegree, f))| >= 9 * |g.hashes|
  {
    PercentileMeaning(g, f);
    AtLeastNineTenths(g.scores[f], |g.hashes|, |NoMoreImported(g.hashes, g.inDegree, Degree(g.inDegree, f))|);
  }

  lemma AtLeastNineTenths(score: real, n: nat, m: nat)
    requires n > 0 && score * n as real == m as real
    ensures score >= 0.90 <==> 10 * m >= 9 * n
  {
    if score >= 0.90 {
      Scaled(score, 0.90, n as real);
      assert m as real >= 0.90 * n as real;
    } else {
      ScaledLess(score, 0.90, n as real);
      assert m as real < 0.90 * n as real;
    }
  }

  lemma Scaled(x: real, y: real, n: real)
    requires x >= y && n > 0.0
    ensures x * n >= y * n
  {
  }

  lemma ScaledLess(x: real, y: real, n: real)
    requires x < y && n > 0.0
    ensures x * n < y * n
  {
  }

  lemma ScoreTimesFiles(inDegree: map<File, nat>, files: nat, f: File)
    requires f in Percentiles(inDegree, files)
    ensures Percentiles(inDegree, files)[f] * files as real == AtMost(inDegree, files, Degree(inDegree, f)) as real
  {
    Undo(AtMost(inDegree, files, inDegree[f]) as real, files as real);
  }

  lemma RankCounts(hashes: map<File, Digest>, inDegree: map<File, nat>, d: nat)
    requires inDegree.Keys <= hashes.Keys
    ensures AtMost(inDegree, |hashes|, d) == |NoMoreImported(hashes, inDegree, d)|
  {
    NoMoreAreLowerAndLeaves(hashes, inDegree, d);
    CountLeaves(Lower(inDegree, d), inDegree.Keys, hashes.Keys);
  }

  lemma NoMoreAreLowerAndLeaves(hashes: map<File, Digest>, inDegree: map<File, nat>, d: nat)
    requires inDegree.Keys <= hashes.Keys
    ensures NoMoreImported(hashes, inDegree, d) == Lower(inDegree, d) + (hashes.Keys - inDegree.Keys)
  {
    forall x ensures x in NoMoreImported(hashes, inDegree, d) <==>
      x in Lower(inDegree, d) + (hashes.Keys - inDegree.Keys) {
    }
  }

  lemma CountLeaves(lower: set<File>, imported: set<File>, files: set<File>)
    requires lower <= imported <= files
    ensures |lower + (files - imported)| == |files| - |imported| + |lower|
  {
    assert files == imported + (files - imported);
  }

  lemma Undo(a: real, n: real)
    requires n != 0.0
    ensures a / n * n == a
  {
  }
}
