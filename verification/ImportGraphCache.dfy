/** The cached import graph: built from scratch or incrementally, and the same either way. */
module ImportGraphCache {
  import opened Wrappers
  import opened Reachability
  import opened ImportCycles
  import opened ImportFacts
  import opened ParsedFile
  import opened Payload

  // ---- The whole graph ------------------------------------------------------------------------------

  type Files = map<File, string>

  function Hashes(fs: Files): map<File, Digest> {
    map f | f in fs :: Sha256(fs[f])
  }

  function FactsIn(read: Reader, fs: Files, f: File): Facts
    requires f in fs
  {
    read(f, fs[f], fs.Keys)
  }

  function EdgesIn(read: Reader, fs: Files, f: File): seq<Edge>
    requires f in fs
  {
    FileEdges(f, FactsIn(read, fs, f).imports)
  }

  /** `n` counts `e` the way a list with all edges of the files in `within` does. */
  ghost predicate CountsEdge(read: Reader, fs: Files, within: set<File>, e: Edge, n: nat)
    requires within <= fs.Keys
  {
    n == if e.src in within then multiset(EdgesIn(read, fs, e.src))[e] else 0
  }

  /** `edges` holds every edge of every file in `within` as often as that file imports it, in some order. */
  ghost predicate EdgesOf(read: Reader, fs: Files, within: set<File>, edges: seq<Edge>)
    requires within <= fs.Keys
  {
    forall e {:trigger multiset(edges)[e]} :: CountsEdge(read, fs, within, e, multiset(edges)[e])
  }

  lemma {:induction false} ResolvedFrom(file: File, best: seq<Best>)
    ensures forall e :: e in Resolved(file, best) ==>
      e.src == file && exists b :: b in best && e.tgt == Some(b.target) && e.kind == b.kind
  {
    if best != [] {
      ResolvedFrom(file, best[1..]);
      assert best == [best[0]] + best[1..];
    }
  }

  lemma {:induction false} UnresolvedFrom(file: File, imports: seq<Import>)
    ensures forall e :: e in UnresolvedOf(file, imports) ==> e.src == file && e.tgt == None
  {
    if imports != [] {
      UnresolvedFrom(file, imports[..|imports| - 1]);
    }
  }

  /** Every edge of a file starts at it, is an import of it if resolved, and is no self-edge. */
  lemma FileEdgesFrom(read: Reader, fs: Files, f: File, e: Edge)
    requires f in fs && e in EdgesIn(read, fs, f)
    ensures e.src == f && e.tgt != Some(f)
    ensures e.tgt.Some? ==> exists i <- FactsIn(read, fs, f).imports :: i.target == e.tgt && i.kind == e.kind
  {
    var imports := FactsIn(read, fs, f).imports;
    BestOfIsBest(f, imports);
    ResolvedFrom(f, BestOf(f, imports));
    UnresolvedFrom(f, imports);
    if e in Resolved(f, BestOf(f, imports)) {
      var b :| b in BestOf(f, imports) && e.tgt == Some(b.target) && e.kind == b.kind;
      var k :| 0 <= k < |imports| && imports[k].target == Some(b.target) && imports[k].kind == b.kind;
      assert imports[k] in imports;
    }
  }

  lemma CountOwn(read: Reader, fs: Files, f: File, e: Edge)
    requires f in fs
    ensures e.src != f ==> multiset(EdgesIn(read, fs, f))[e] == 0
  {
    if e in EdgesIn(read, fs, f) {
      FileEdgesFrom(read, fs, f, e);
    }
  }

  /** Adding one more file's edges extends the files covered by that file. */
  lemma EdgesOfMore(read: Reader, fs: Files, within: set<File>, edges: seq<Edge>, f: File)
    requires within <= fs.Keys && EdgesOf(read, fs, within, edges) && f in fs && f !in within
    ensures EdgesOf(read, fs, within + {f}, edges + EdgesIn(read, fs, f))
  {
    var more := edges + EdgesIn(read, fs, f);
    forall e
      ensures CountsEdge(read, fs, within + {f}, e, multiset(more)[e])
    {
      CountOwn(read, fs, f, e);
      assert CountsEdge(read, fs, within, e, multiset(edges)[e]);
    }
  }

  function EntrypointsIn(read: Reader, fs: Files, within: set<File>): set<File>
    requires within <= fs.Keys
  {
    set f | f in within && FactsIn(read, fs, f).entrypoint
  }

  function ParseErrorsIn(read: Reader, fs: Files, within: set<File>): set<File>
    requires within <= fs.Keys
  {
    set f | f in within && FactsIn(read, fs, f).parseError
  }

  lemma FlagsOfMore(read: Reader, fs: Files, within: set<File>, f: File)
    requires within <= fs.Keys && f in fs
    ensures EntrypointsIn(read, fs, within + {f})
      == EntrypointsIn(read, fs, within) + (if FactsIn(read, fs, f).entrypoint then {f} else {})
    ensures ParseErrorsIn(read, fs, within + {f})
      == ParseErrorsIn(read, fs, within) + (if FactsIn(read, fs, f).parseError then {f} else {})
  {
  }

  method ParseMany(parse: Parser, fs: Files, files: set<File>)
    returns (edges: seq<Edge>, entrypoints: set<File>, parseErrors: set<File>)
    requires files <= fs.Keys
    ensures EdgesOf(Reading(parse), fs, files, edges)
    ensures entrypoints == EntrypointsIn(Reading(parse), fs, files)
      && parseErrors == ParseErrorsIn(Reading(parse), fs, files)
  {
    edges, entrypoints, parseErrors := [], {}, {};
    var rest := files;
    while rest != {}
      invariant rest <= files && EdgesOf(Reading(parse), fs, files - rest, edges)
      invariant entrypoints == EntrypointsIn(Reading(parse), fs, files - rest)
        && parseErrors == ParseErrorsIn(Reading(parse), fs, files - rest)
      decreases rest
    {
      var f :| f in rest;
      EdgesOfMore(Reading(parse), fs, files - rest, edges, f);
      FlagsOfMore(Reading(parse), fs, files - rest, f);
      assert files - (rest - {f}) == (files - rest) + {f};
      rest := rest - {f};
      var fileEdges, isEntrypoint, parseError := ParseFile(parse, f, fs[f], fs.Keys);
      edges := edges + fileEdges;
      if isEntrypoint {
        entrypoints := entrypoints + {f};
      }
      if parseError {
        parseErrors := parseErrors + {f};
      }
    }
    assert files - rest == files;
  }

  /** The edges that do not start in `dropped`. */
  function Keep(edges: seq<Edge>, dropped: set<File>): seq<Edge> {
    if edges == [] then []
    else Keep(edges[..|edges| - 1], dropped) + if edges[|edges| - 1].src in dropped then [] else [edges[|edges| - 1]]
  }

  lemma {:induction false} KeepCount(edges: seq<Edge>, dropped: set<File>, e: Edge)
    ensures multiset(Keep(edges, dropped))[e] == if e.src in dropped then 0 else multiset(edges)[e]
  {
    if edges != [] {
      var p, x := edges[..|edges| - 1], edges[|edges| - 1];
      assert edges == p + [x];
      KeepCount(p, dropped, e);
    }
  }

  // ---- Building, from scratch or incrementally ------------------------------------------------------

  datatype Freshness = Fresh | Rebuilt | Stale | Unknown

  /** `g` is a graph of exactly the files `fs`. */
  ghost predicate GraphOf(read: Reader, fs: Files, g: Graph) {
    && g.hashes == Hashes(fs)
    && EdgesOf(read, fs, fs.Keys, g.edges)
    && g.entrypoints == EntrypointsIn(read, fs, fs.Keys)
    && g.parseErrors == ParseErrorsIn(read, fs, fs.Keys)
  }

  function Modified(fs: Files, prev: Graph): set<File> {
    set f | f in fs && !(f in prev.hashes && prev.hashes[f] == Sha256(fs[f]))
  }

  /** An incremental build carries the edges and flags of unmodified files and parses the modified ones again. */
  ghost predicate Carries(read: Reader, fs: Files, prev: Graph, g: Graph) {
    var modified := Modified(fs, prev);
    && (forall e {:trigger multiset(g.edges)[e]} ::
          multiset(g.edges)[e] == (if e.src in modified then multiset(EdgesIn(read, fs, e.src))[e]
            else multiset(prev.edges)[e]))
    && g.entrypoints == prev.entrypoints - modified + EntrypointsIn(read, fs, modified)
    && g.parseErrors == prev.parseErrors - modified + ParseErrorsIn(read, fs, modified)
  }

  /**
   What one build returns, whatever the cache it is given holds. `scan` is absent when reading the repository failed.
   */
  ghost predicate Builds(read: Reader, scan: Option<Files>, prev: Option<Graph>, g: Graph, freshness: Freshness) {
    if scan.None? then
      freshness == Stale && (prev.Some? ==> g == prev.value) && (prev.None? ==> g.hashes == map[] && g.edges == [])
    else
      var fs := scan.value;
      && Derived(g)
      && if fs == map[] then freshness == Unknown && g.hashes == map[] && g.edges == []
         else if prev.None? then freshness == Fresh && GraphOf(read, fs, g)
         else if prev.value.hashes.Keys != fs.Keys then freshness == Rebuilt && GraphOf(read, fs, g)
         else if Modified(fs, prev.value) == {} then
           freshness == Fresh && g.hashes == Hashes(fs) && g.edges == prev.value.edges
           && g.entrypoints == prev.value.entrypoints && g.parseErrors == prev.value.parseErrors
         else freshness == Rebuilt && g.hashes == Hashes(fs) && Carries(read, fs, prev.value, g)
  }

  method BuildImportGraph(parse: Parser, scan: Option<Files>, prev: Option<Graph>)
    returns (g: Graph, freshness: Freshness)
    ensures Builds(Reading(parse), scan, prev, g, freshness)
  {
    if scan.None? {
      var empty := Assemble(map[], [], {}, {});
      g := if prev.Some? then prev.value else empty;
      return g, Stale;
    }
    var fs := scan.value;
    if fs == map[] {
      g := Assemble(map[], [], {}, {});
      return g, Unknown;
    }
    var hashes := Hashes(fs);
    if prev.None? {
      var edges, entrypoints, parseErrors := ParseMany(parse, fs, fs.Keys);
      g := Assemble(hashes, edges, entrypoints, parseErrors);
      return g, Fresh;
    }
    var filesetChanged := prev.value.hashes.Keys != fs.Keys;
    var modified := Modified(fs, prev.value);
    if !filesetChanged && modified == {} {
      g := Assemble(hashes, prev.value.edges, prev.value.entrypoints, prev.value.parseErrors);
      return g, Fresh;
    }
    if filesetChanged {
      var edges, entrypoints, parseErrors := ParseMany(parse, fs, fs.Keys);
      g := Assemble(hashes, edges, entrypoints, parseErrors);
      return g, Rebuilt;
    }
    var carried := Keep(prev.value.edges, modified);
    var reparsed, entrypoints, parseErrors := ParseMany(parse, fs, modified);
    g := Assemble(hashes, carried + reparsed, prev.value.entrypoints - modified
      + entrypoints, prev.value.parseErrors - modified + parseErrors);
    CarriedCounts(Reading(parse), fs, prev.value, modified, carried, reparsed);
    return g, Rebuilt;
  }

  lemma CarriedCounts(read: Reader, fs: Files, prev: Graph, modified: set<File>, carried: seq<Edge>,
                      reparsed: seq<Edge>)
    requires modified == Modified(fs, prev) && carried == Keep(prev.edges, modified)
      && EdgesOf(read, fs, modified, reparsed)
    ensures forall e {:trigger multiset(carried + reparsed)[e]} ::
      multiset(carried + reparsed)[e] == (if e.src in modified then multiset(EdgesIn(read, fs, e.src))[e]
        else multiset(prev.edges)[e])
  {
    forall e
      ensures multiset(carried + reparsed)[e]
        == (if e.src in modified then multiset(EdgesIn(read, fs, e.src))[e] else multiset(prev.edges)[e])
    {
      KeepCount(prev.edges, modified, e);
      assert CountsEdge(read, fs, modified, e, multiset(reparsed)[e]);
    }
  }

  // ---- Incremental agrees with full -------------------------------------------------------------------

  /** The files a payload's own hashes describe. */
  function FilesOf(g: Graph): Files {
    map f | f in g.hashes :: g.hashes[f].content
  }

  /** A cache is coherent when it is a graph of the files its hashes describe. */
  ghost predicate Coherent(read: Reader, g: Graph) {
    GraphOf(read, FilesOf(g), g)
  }

  lemma HashesDescribe(fs: Files, g: Graph)
    requires g.hashes == Hashes(fs)
    ensures FilesOf(g) == fs
  {
  }

  /**
   Carrying from a coherent cache is as good as parsing everything: the file set is the same, so unmodified files
   resolve as before.
   */
  lemma CarriedIsFull(read: Reader, fs: Files, prev: Graph, g: Graph)
    requires Coherent(read, prev) && prev.hashes.Keys == fs.Keys
    requires g.hashes == Hashes(fs) && Carries(read, fs, prev, g)
    ensures GraphOf(read, fs, g)
  {
    forall e
      ensures CountsEdge(read, fs, fs.Keys, e, multiset(g.edges)[e])
    {
      assert CountsEdge(read, FilesOf(prev), fs.Keys, e, multiset(prev.edges)[e]);
      if e.src in fs && e.src !in Modified(fs, prev) {
        SameFacts(read, fs, prev, e.src);
      }
    }
    CarriedFlags(read, fs, prev, g);
  }

  /** What a read yields depends only on the path, the content and the file set. */
  lemma SameFacts(read: Reader, fs: Files, prev: Graph, f: File)
    requires prev.hashes.Keys == fs.Keys && f in fs && f !in Modified(fs, prev)
    ensures FactsIn(read, FilesOf(prev), f) == FactsIn(read, fs, f)
  {
    assert FilesOf(prev)[f] == fs[f];
    assert FilesOf(prev).Keys == fs.Keys;
  }

  lemma CarriedFlags(read: Reader, fs: Files, prev: Graph, g: Graph)
    requires Coherent(read, prev) && prev.hashes.Keys == fs.Keys && Carries(read, fs, prev, g)
    ensures g.entrypoints == EntrypointsIn(read, fs, fs.Keys) && g.parseErrors == ParseErrorsIn(read, fs, fs.Keys)
  {
    forall f | f in fs && f !in Modified(fs, prev)
      ensures FactsIn(read, FilesOf(prev), f) == FactsIn(read, fs, f)
    {
      SameFacts(read, fs, prev, f);
    }
  }

  /**
   A build that is Fresh or Rebuilt returns a graph of the current files, as long as the cache it started from was
   coherent.
   */
  lemma BuildIsFull(read: Reader, fs: Files, prev: Option<Graph>, g: Graph, freshness: Freshness)
    requires Builds(read, Some(fs), prev, g, freshness) && fs != map[]
    requires prev.Some? ==> Coherent(read, prev.value)
    ensures freshness == (if prev.None? || prev.value.hashes == Hashes(fs) then Fresh else Rebuilt)
    ensures GraphOf(read, fs, g) && Derived(g) && Coherent(read, g)
  {
    HashesDescribe(fs, g);
    if prev.Some? && prev.value.hashes.Keys == fs.Keys {
      if Modified(fs, prev.value) == {} {
        Unmodified(fs, prev.value);
        HashesDescribe(fs, prev.value);
      } else {
        CarriedIsFull(read, fs, prev.value, g);
        var f :| f in Modified(fs, prev.value);
        assert prev.value.hashes[f] != Hashes(fs)[f];
      }
    }
  }

  lemma Unmodified(fs: Files, prev: Graph)
    requires prev.hashes.Keys == fs.Keys && Modified(fs, prev) == {}
    ensures prev.hashes == Hashes(fs)
  {
    forall f | f in fs
      ensures prev.hashes[f] == Sha256(fs[f])
    {
      assert f !in Modified(fs, prev);
    }
  }

  /** All graphs of the same files are the same graph, whichever way and in whichever order they were built. */
  lemma GraphsAgree(read: Reader, fs: Files, g: Graph, h: Graph)
    requires GraphOf(read, fs, g) && Derived(g) && GraphOf(read, fs, h) && Derived(h)
    ensures SameGraph(g, h)
  {
    forall e
      ensures multiset(g.edges)[e] == multiset(h.edges)[e]
    {
      assert CountsEdge(read, fs, fs.Keys, e, multiset(g.edges)[e]);
      assert CountsEdge(read, fs, fs.Keys, e, multiset(h.edges)[e]);
    }
    assert multiset(g.edges) == multiset(h.edges);
    DerivedOrder(g, h);
  }
}
