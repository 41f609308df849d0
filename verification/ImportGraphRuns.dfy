/** The cache over whole histories of edits and reads, and the blast evidence drawn from a payload. */
module ImportGraphRuns {
  import opened Wrappers
  import opened Reachability
  import opened ImportCycles
  import opened ImportFacts
  import opened ParsedFile
  import opened Payload
  import opened ImportGraphCache
  import opened BlastWalk
  import opened CycleSearch
  import opened GraphUncertainty
  import Distance

  /** The repository on disk: its Python files, and the stored cache if there is one. */
  datatype Disk = Disk(files: Files, cache: Option<Graph>)

  /** What is stored after a build: a first build and a rebuild are saved, if saving works. */
  function Stored(prev: Option<Graph>, g: Graph, freshness: Freshness, saved: bool): Option<Graph> {
    if freshness in {Fresh, Rebuilt} && g.hashes != map[] && (prev.None? || freshness == Rebuilt) && saved then Some(g)
      else prev
  }

  datatype Event =
    | Edited(files: Files)
    | CacheLost
    | Got(readable: bool, saved: bool, graph: Graph, freshness: Freshness)

  ghost predicate Step(read: Reader, s: Disk, e: Event, t: Disk) {
    match e
    case Edited(files) => t == s.(files := files)
    case CacheLost => t == s.(cache := None)
    case Got(readable, saved, g, freshness) =>
      && Builds(read, if readable then Some(s.files) else None, s.cache, g, freshness)
      && t == s.(cache := Stored(s.cache, g, freshness, saved))
  }

  class Repository {
    const parse: Parser
    var files: Files
    var cache: Option<Graph>

    constructor (parse: Parser, files: Files)
      ensures this.parse == parse && this.files == files && cache == None
    {
      this.parse, this.files, cache := parse, files, None;
    }

    /** Loads the cache, builds, and stores the result when it is worth storing; reading or saving may fail. */
    method GetImportGraph(readable: bool, saved: bool) returns (g: Graph, freshness: Freshness)
      modifies this`cache
      ensures Step(Reading(parse), old(Disk(files, cache)), Got(readable, saved, g, freshness), Disk(files, cache))
    {
      var prev := cache;
      g, freshness := BuildImportGraph(parse, if readable then Some(files) else None, prev);
      if freshness in {Fresh, Rebuilt} && g.hashes != map[] {
        if prev.None? || freshness == Rebuilt {
          if saved {
            cache := Some(g);
          }
        }
      }
    }
  }

  /** Any history that starts without a cache. */
  ghost predicate Run(read: Reader, disks: seq<Disk>, events: seq<Event>) {
    && |disks| == |events| + 1
    && disks[0].cache == None
    && (forall i {:trigger events[i]} :: 0 <= i < |events| ==> Step(read, disks[i], events[i], disks[i + 1]))
  }

  lemma StepKeepsCoherence(read: Reader, s: Disk, e: Event, t: Disk)
    requires Step(read, s, e, t) && (s.cache.Some? ==> Coherent(read, s.cache.value))
    ensures t.cache.Some? ==> Coherent(read, t.cache.value)
  {
    if e.Got? && t.cache != s.cache {
      BuildIsFull(read, s.files, s.cache, e.graph, e.freshness);
    }
  }

  /** In every history the stored cache is a graph of the files its own hashes describe. */
  lemma {:induction false} CacheStaysCoherent(read: Reader, disks: seq<Disk>, events: seq<Event>, i: nat)
    requires Run(read, disks, events) && i < |disks|
    ensures disks[i].cache.Some? ==> Coherent(read, disks[i].cache.value)
  {
    if i > 0 {
      CacheStaysCoherent(read, disks, events, i - 1);
      StepKeepsCoherence(read, disks[i - 1], events[i - 1], disks[i]);
    }
  }

  /** How far a graph can be trusted: stale only if reading failed, unknown only if there is nothing to read. */
  lemma FreshnessIff(read: Reader, scan: Option<Files>, prev: Option<Graph>, g: Graph, freshness: Freshness)
    requires Builds(read, scan, prev, g, freshness)
    ensures freshness.Stale? <==> scan.None?
    ensures freshness.Unknown? <==> scan == Some(map[])
    ensures scan.Some? && scan.value != map[] ==>
      (freshness.Fresh? <==> prev.None? || prev.value.hashes == Hashes(scan.value))
  {
    if scan.Some? && prev.Some? && prev.value.hashes.Keys == scan.value.Keys {
      NoneModifiedIff(scan.value, prev.value);
    }
  }

  lemma NoneModifiedIff(fs: Files, prev: Graph)
    requires prev.hashes.Keys == fs.Keys
    ensures Modified(fs, prev) == {} <==> prev.hashes == Hashes(fs)
  {
    if Modified(fs, prev) == {} {
      forall f | f in fs ensures prev.hashes[f] == Hashes(fs)[f] {
        assert f !in Modified(fs, prev);
      }
    }
  }

  /**
   Once a build has been stored, asking again without an edit in between is answered from the cache, with the same
   graph.
   */
  lemma AskedAgainIsFresh(read: Reader, s: Disk, g: Graph, freshness: Freshness, t: Disk, again: Graph,
                          freshness2: Freshness, saved: bool, u: Disk)
    requires s.files != map[] && (s.cache.Some? ==> Coherent(read, s.cache.value))
    requires Step(read, s, Got(true, true, g, freshness), t) && Step(read, t, Got(true, saved, again, freshness2), u)
    ensures t.cache.Some? && t.cache.value.hashes == Hashes(s.files)
    ensures freshness2.Fresh? && SameGraph(g, again)
  {
    FreshnessIff(read, Some(s.files), s.cache, g, freshness);
    StepKeepsCoherence(read, s, Got(true, true, g, freshness), t);
    BuildIsFull(read, s.files, s.cache, g, freshness);
    FreshnessIff(read, Some(s.files), t.cache, again, freshness2);
    BuildIsFull(read, s.files, t.cache, again, freshness2);
    GraphsAgree(read, s.files, g, again);
  }

  /** In every history a graph that is returned as Fresh or Rebuilt is the graph a build from scratch would return. */
  lemma IncrementalIsFull(read: Reader, disks: seq<Disk>, events: seq<Event>, i: nat, scratch: Graph)
    requires Run(read, disks, events) && i < |events|
    requires events[i].Got? && events[i].freshness in {Fresh, Rebuilt}
    requires Builds(read, Some(disks[i].files), None, scratch, Fresh)
    ensures SameGraph(events[i].graph, scratch)
  {
    assert Step(read, disks[i], events[i], disks[i + 1]);
    CacheStaysCoherent(read, disks, events, i);
    BuildIsFull(read, disks[i].files, disks[i].cache, events[i].graph, events[i].freshness);
    GraphsAgree(read, disks[i].files, events[i].graph, scratch);
  }

  // ---- Blast evidence from a payload ----------------------------------------------------------------

  ghost function Flipped(edges: seq<Edge>): Edges {
    set e | e in edges && e.tgt.Some? :: (e.tgt.value, e.src)
  }

  /** The importers of one file, in edge order, with the confidence of their import kind. */
  function ImportersOf(edges: seq<Edge>, t: File): seq<Importer> {
    if edges == [] then []
    else
      var e := edges[|edges| - 1];
      ImportersOf(edges[..|edges| - 1], t) + if e.tgt == Some(t) then [Importer(e.src, EdgeConfidence(e.kind))] else []
  }

  method DeriveReverse(edges: seq<Edge>) returns (reverse: Reverse)
    ensures forall t :: Importers(reverse, t) == ImportersOf(edges, t)
  {
    reverse := map[];
    for k := 0 to |edges|
      invariant forall t :: Importers(reverse, t) == ImportersOf(edges[..k], t)
    {
      var e := edges[k];
      assert edges[..k + 1][..k] == edges[..k];
      if e.tgt.Some? {
        reverse := reverse[e.tgt.value := Importers(reverse, e.tgt.value) + [Importer(e.src, EdgeConfidence(e.kind))]];
      }
    }
    assert edges[..|edges|] == edges;
  }

  /** `w` is on the list. */
  ghost predicate HasImporter(importers: seq<Importer>, w: File) {
    exists i :: 0 <= i < |importers| && importers[i].file == w
  }

  lemma HasOneMore(importers: seq<Importer>, last: Importer, w: File)
    ensures HasImporter(importers + [last], w) <==> HasImporter(importers, w) || last.file == w
  {
    var more := importers + [last];
    assert more[|importers|] == last;
    if i :| 0 <= i < |importers| && importers[i].file == w {
      assert more[i].file == w;
    }
  }

  lemma {:induction false} ImportersAre(edges: seq<Edge>, t: File, w: File)
    ensures (t, w) in Flipped(edges) <==> HasImporter(ImportersOf(edges, t), w)
  {
    if edges != [] {
      var n := |edges| - 1;
      var p, e := edges[..n], edges[n];
      ImportersAre(p, t, w);
      assert edges == p + [e];
      if e.tgt == Some(t) {
        HasOneMore(ImportersOf(p, t), Importer(e.src, EdgeConfidence(e.kind)), w);
      } else {
        assert ImportersOf(p, t) + [] == ImportersOf(p, t);
      }
    }
  }

  lemma ReverseIsFlipped(edges: seq<Edge>, reverse: Reverse)
    requires forall t :: Importers(reverse, t) == ImportersOf(edges, t)
    ensures ReversePairs(reverse) == Flipped(edges)
  {
    forall t, w
      ensures (t, w) in ReversePairs(reverse) <==> (t, w) in Flipped(edges)
    {
      PairIsImporter(reverse, t, w);
      assert Importers(reverse, t) == ImportersOf(edges, t);
      ImportersAre(edges, t, w);
    }
  }

  lemma PairIsImporter(reverse: Reverse, t: File, w: File)
    ensures (t, w) in ReversePairs(reverse) <==> HasImporter(Importers(reverse, t), w)
  {
    var importers := Importers(reverse, t);
    if i :| 0 <= i < |importers| && importers[i].file == w {
      assert t in reverse && (t, reverse[t][i].file) in ReversePairs(reverse);
    }
    if (t, w) in ReversePairs(reverse) {
      var f, i :| f in reverse && 0 <= i < |reverse[f]| && (f, reverse[f][i].file) == (t, w);
      assert importers[i].file == w;
    }
  }

  method ForwardOf(edges: seq<Edge>) returns (forward: map<File, set<File>>)
    ensures ForwardPairs(forward) == Pairs(edges)
  {
    forward := map[];
    for k := 0 to |edges|
      invariant ForwardPairs(forward) == Pairs(edges[..k])
    {
      var e := edges[k];
      PairsStep(edges, k);
      if e.tgt.Some? {
        ghost var before := forward;
        forward := forward[e.src := Targets(forward, e.src) + {e.tgt.value}];
        assert ForwardPairs(forward) == ForwardPairs(before) + {(e.src, e.tgt.value)};
      }
    }
    assert edges[..|edges|] == edges;
  }

  /** An import of `parent` by the dependent, one step further away, of a kind with this confidence. */
  ghost predicate IsDiscovery(edges: seq<Edge>, starts: set<File>, f: Finding, confidence: real) {
    && f.distance > 0
    && Distance.At(Flipped(edges), starts, f.parent, f.distance - 1)
    && Distance.At(Flipped(edges), starts, f.dependent, f.distance)
    && exists e <- edges :: e.src == f.dependent && e.tgt == Some(f.parent) && confidence == EdgeConfidence(e.kind)
  }

  lemma FindingIsEdge(edges: seq<Edge>, reverse: Reverse, starts: set<File>, f: Finding, confidence: real)
    requires forall t :: Importers(reverse, t) == ImportersOf(edges, t)
    requires IsFinding(reverse, starts, f, confidence)
    ensures IsDiscovery(edges, starts, f, confidence)
  {
    ReverseIsFlipped(edges, reverse);
    ImporterIsEdge(edges, f.parent, f.at);
  }

  lemma {:induction false} ImporterIsEdge(edges: seq<Edge>, t: File, i: nat)
    requires i < |ImportersOf(edges, t)|
    ensures exists e <- edges :: e.tgt == Some(t) && ImportersOf(edges, t)[i] == Importer(e.src, EdgeConfidence(e.kind))
  {
    var n := |edges| - 1;
    var before := ImportersOf(edges[..n], t);
    assert edges[n] in edges;
    if i < |before| {
      ImporterIsEdge(edges[..n], t, i);
      assert ImportersOf(edges, t)[i] == before[i];
    }
  }

  /** Blast evidence for the changed files that exist in the repository, and how incomplete it is. */
  method BlastOf(g: Graph, expected: seq<File>)
    returns (changed: seq<File>, r: Blast, doubt: Doubt, ghost found: seq<Finding>)
    ensures doubt == DoubtOf(g, expected)
    ensures forall f :: f in changed <==> f in expected && f in g.hashes
    ensures
      var es, starts := Flipped(g.edges), set f | f in changed;
      && (forall d :: 1 <= d <= 3 ==> Distance.Bucket(r.buckets, d) == |Distance.Sphere(es, starts, d)|)
      && r.direct + r.transitive == |Distance.Ball(es, starts, 3) - starts|
      && (r.entrypoint <==> Distance.Ball(es, starts, 3) * g.entrypoints != {})
      && |r.confidences| == |found| == |Distance.Ball(es, starts, 3) - starts|
      && (forall k :: 0 <= k < |found| ==> IsDiscovery(g.edges, starts, found[k], r.confidences[k]))
      && (forall i, j :: 0 <= i < j < |found| ==> found[i].dependent != found[j].dependent)
    ensures r.confidences != [] ==> r.mean == Mean(r.confidences) && IsLeast(r.min, r.confidences)
    ensures r.low == CountBelow(r.confidences, 0.5)
    ensures r.cycle <==> CycleAhead(Pairs(g.edges), changed)
  {
    changed := [];
    for k := 0 to |expected|
      invariant forall f :: f in changed <==> f in expected[..k] && f in g.hashes
    {
      assert expected[..k + 1] == expected[..k] + [expected[k]];
      if expected[k] in g.hashes {
        changed := changed + [expected[k]];
      }
    }
    assert expected[..|expected|] == expected;
    var reverse := DeriveReverse(g.edges);
    ReverseIsFlipped(g.edges, reverse);
    var forward := ForwardOf(g.edges);
    r, found := BlastWalk.Walk(changed, reverse, forward, g.entrypoints);
    doubt := DoubtOf(g, expected);
    ghost var starts := set f | f in changed;
    forall k | 0 <= k < |found| ensures IsDiscovery(g.edges, starts, found[k], r.confidences[k]) {
      FindingIsEdge(g.edges, reverse, starts, found[k], r.confidences[k]);
    }
  }

  /** Whether a payload was built from scratch or carried over, an edit is in the same doubt. */
  lemma DoubtIsSettled(read: Reader, fs: Files, g: Graph, h: Graph, expected: seq<File>)
    requires GraphOf(read, fs, g) && Derived(g) && GraphOf(read, fs, h) && Derived(h)
    ensures DoubtOf(g, expected) == DoubtOf(h, expected)
  {
    GraphsAgree(read, fs, g, h);
    DoubtIgnoresOrder(g, h, expected);
  }

  /** A payload built from a repository has no self-edges. */
  lemma NoSelfEdges(read: Reader, fs: Files, g: Graph, u: File, v: File)
    requires GraphOf(read, fs, g) && (u, v) in Pairs(g.edges)
    ensures u != v && u in fs
    ensures exists i <- FactsIn(read, fs, u).imports :: i.target == Some(v)
  {
    var e :| e in g.edges && e.tgt.Some? && (u, v) == (e.src, e.tgt.value);
    assert multiset(g.edges)[e] > 0;
    assert CountsEdge(read, fs, fs.Keys, e, multiset(g.edges)[e]);
    FileEdgesFrom(read, fs, e.src, e);
  }

  /** Resolved imports name files that are there. */
  ghost predicate StaysInside(read: Reader) {
    forall f, source, fileset {:trigger read(f, source, fileset)} ::
      InRepository(read(f, source, fileset).imports, fileset)
  }

  lemma ReadingStaysInside(parse: Parser)
    ensures StaysInside(Reading(parse))
  {
  }

  /** How far a resolved edge is trusted: what is written out more than what is relative, both more than a wildcard. */
  lemma ConfidencesAre(read: Reader, fs: Files, g: Graph, e: Edge)
    requires StaysInside(read) && GraphOf(read, fs, g) && e in g.edges && e.tgt.Some?
    ensures e.kind == "static" || e.kind == "relative" || e.kind == "wildcard"
    ensures EdgeConfidence(e.kind) == if e.kind == "static" then 0.85 else if e.kind == "relative" then 0.75 else 0.35
    ensures EdgeConfidence(e.kind) < 0.5 <==> e.kind == "wildcard"
  {
    assert multiset(g.edges)[e] > 0;
    assert CountsEdge(read, fs, fs.Keys, e, multiset(g.edges)[e]);
    FileEdgesFrom(read, fs, e.src, e);
    assert InRepository(FactsIn(read, fs, e.src).imports, fs.Keys);
    assert "static"[0] == 's' && "relative"[0] == 'r' && "wildcard"[0] == 'w';
  }

  /**
   Two independent algorithms agree: the depth-first test reports a cycle ahead of the changed files exactly when
   they reach a file that the component search has listed among the cycle files of the same payload.
   */
  lemma CycleTestsAgree(read: Reader, fs: Files, g: Graph, starts: seq<File>)
    requires GraphOf(read, fs, g) && Derived(g)
    ensures CycleAhead(Pairs(g.edges), starts)
      <==> exists s, x :: s in starts && Reach(Pairs(g.edges), s, x) && x in g.cycles
  {
    var es := Pairs(g.edges);
    forall u
      ensures (u, u) !in es
    {
      if (u, u) in es { NoSelfEdges(read, fs, g, u, u); }
    }
    forall x
      ensures OnClosedWalk(es, x) <==> x in g.cycles
    {
      ClosedWalkIffInCycle(es, x);
    }
  }

  /** On a payload of the repository every file's score ranks it among all files of the repository. */
  lemma ScoresRank(read: Reader, fs: Files, g: Graph, f: File)
    requires StaysInside(read) && GraphOf(read, fs, g) && Derived(g) && f in g.scores
    ensures g.scores[f] * |g.hashes| as real
      == |NoMoreImported(g.hashes, g.inDegree, Degree(g.inDegree, f))| as real
    ensures g.hashes.Keys == fs.Keys
  {
    forall x | x in g.inDegree
      ensures x in g.hashes
    {
      ImportedIsFile(read, fs, g, x);
    }
    PercentileMeaning(g, f);
  }

  lemma ImportedIsFile(read: Reader, fs: Files, g: Graph, x: File)
    requires StaysInside(read) && GraphOf(read, fs, g) && Derived(g) && x in g.inDegree
    ensures x in fs
  {
    assert Degree(g.inDegree, x) > 0;
    TallyWitness(g.edges, InTo(x));
    var e :| e in g.edges && InTo(x)(e);
    assert (e.src, x) in Pairs(g.edges);
    NoSelfEdges(read, fs, g, e.src, x);
    assert InRepository(FactsIn(read, fs, e.src).imports, fs.Keys);
  }

  lemma {:induction false} TallyWitness(edges: seq<Edge>, p: Edge -> bool)
    requires Tally(edges, p) > 0
    ensures exists e :: e in edges && p(e)
  {
    var n := |edges| - 1;
    if p(edges[n]) {
      assert edges[n] in edges;
    } else {
      TallyWitness(edges[..n], p);
    }
  }
}
