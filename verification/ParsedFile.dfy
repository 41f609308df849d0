/** The edges of one file: resolved imports deduplicated by target, unresolved ones kept one by one. */
module ParsedFile {
  import opened Wrappers
  import opened Reachability
  import opened ImportCycles
  import opened ImportFacts

  function EdgeConfidence(kind: string): real {
    if kind == "static" then 0.85
    else if kind == "relative" then 0.75
    else if kind == "wildcard" then 0.35
    else if kind == "dynamic" then 0.15
    else 0.10
  }

  /** The best kind per resolved target seen so far, in order of first sight. */
  datatype Best = Best(target: File, kind: string)

  function Improve(best: seq<Best>, target: File, kind: string): seq<Best> {
    if best == [] then [Best(target, kind)]
    else if best[0].target == target then
      (if EdgeConfidence(kind) > EdgeConfidence(best[0].kind) then [Best(target, kind)] else [best[0]]) + best[1..]
    else [best[0]] + Improve(best[1..], target, kind)
  }

  function BestOf(file: File, imports: seq<Import>): seq<Best> {
    if imports == [] then []
    else
      var rest := BestOf(file, imports[..|imports| - 1]);
      var i := imports[|imports| - 1];
      if i.target == Some(file) || i.target == None then rest else Improve(rest, i.target.value, i.kind)
  }

  function UnresolvedOf(file: File, imports: seq<Import>): seq<Edge> {
    if imports == [] then []
    else
      var i := imports[|imports| - 1];
      UnresolvedOf(file, imports[..|imports| - 1]) + if i.target == None then [Edge(file, None, i.kind, i.name)] else []
  }

  function Resolved(file: File, best: seq<Best>): seq<Edge> {
    if best == [] then [] else [Edge(file, Some(best[0].target), best[0].kind, None)] + Resolved(file, best[1..])
  }

  function FileEdges(file: File, imports: seq<Import>): seq<Edge> {
    Resolved(file, BestOf(file, imports)) + UnresolvedOf(file, imports)
  }

  lemma OneMoreImport(file: File, raw: seq<Import>, k: nat)
    requires k < |raw|
    ensures BestOf(file, raw[..k + 1]) == if raw[k].target == Some(file) || raw[k].target == None then
      BestOf(file, raw[..k]) else Improve(BestOf(file, raw[..k]), raw[k].target.value, raw[k].kind)
    ensures UnresolvedOf(file, raw[..k + 1])
      == UnresolvedOf(file, raw[..k])
        + if raw[k].target == None then [Edge(file, None, raw[k].kind, raw[k].name)] else []
  {
    assert raw[..k + 1][..k] == raw[..k];
  }

  /** Parses one file: resolved targets keep their best kind, unresolved imports are kept one by one. */
  method ParseFile(parse: Parser, file: File, source: string, fileset: set<File>)
    returns (edges: seq<Edge>, entrypoint: bool, parseError: bool)
    ensures var facts := FactsOf(parse, file, source, fileset);
      edges == FileEdges(file, facts.imports) && entrypoint == facts.entrypoint && parseError == facts.parseError
  {
    var facts := FactsOf(parse, file, source, fileset);
    var raw := facts.imports;
    var best: seq<Best>, unresolved: seq<Edge> := [], [];
    for k := 0 to |raw|
      invariant best == BestOf(file, raw[..k]) && unresolved == UnresolvedOf(file, raw[..k])
    {
      OneMoreImport(file, raw, k);
      if raw[k].target == Some(file) {
        continue;
      }
      if raw[k].target == None {
        unresolved := unresolved + [Edge(file, None, raw[k].kind, raw[k].name)];
        continue;
      }
      best := Improve(best, raw[k].target.value, raw[k].kind);
    }
    assert raw[..|raw|] == raw;
    edges := Resolved(file, best) + unresolved;
    entrypoint, parseError := facts.entrypoint, facts.parseError;
  }

  ghost predicate SeenAs(imports: seq<Import>, t: File, kind: string) {
    exists i :: 0 <= i < |imports| && imports[i].target == Some(t) && imports[i].kind == kind
  }

  ghost predicate Covers(best: seq<Best>, t: File, kind: string) {
    exists i :: 0 <= i < |best| && best[i].target == t && EdgeConfidence(kind) <= EdgeConfidence(best[i].kind)
  }

  /** Each target once, with a kind it was really imported as, and no import of it is trusted more. */
  ghost predicate BestFor(file: File, imports: seq<Import>, best: seq<Best>) {
    && (forall i, j :: 0 <= i < j < |best| ==> best[i].target != best[j].target)
    && (forall b :: b in best ==> b.target != file && SeenAs(imports, b.target, b.kind))
    && (forall k :: 0 <= k < |imports| && imports[k].target.Some? && imports[k].target != Some(file) ==>
          Covers(best, imports[k].target.value, imports[k].kind))
  }

  /** Improving touches one entry: the one of its target, or a new one at the end. */
  lemma {:induction false} ImproveAt(best: seq<Best>, t: File, kind: string) returns (at: nat)
    ensures at <= |best|
    ensures at == |best| ==>
      && (forall b :: b in best ==> b.target != t)
      && Improve(best, t, kind) == best + [Best(t, kind)]
    ensures at < |best| ==>
      && best[at].target == t
      && Improve(best, t, kind) == best[at := if EdgeConfidence(kind) > EdgeConfidence(best[at].kind)
        then Best(t, kind) else best[at]]
  {
    if best == [] || best[0].target == t {
      at := 0;
    } else {
      at := ImproveAt(best[1..], t, kind);
      at := at + 1;
      assert best == [best[0]] + best[1..];
    }
  }

  /** The deduplicated edges of a file keep, per resolved target, the most trusted way it is imported. */
  lemma {:induction false} BestOfIsBest(file: File, imports: seq<Import>)
    ensures BestFor(file, imports, BestOf(file, imports))
  {
    if imports != [] {
      var n := |imports| - 1;
      BestOfIsBest(file, imports[..n]);
      var i, best := imports[n], BestOf(file, imports[..n]);
      if i.target == Some(file) || i.target == None {
        BestSkip(file, imports, best);
      } else {
        BestImprove(file, imports, best, i.target.value, i.kind);
      }
    }
  }

  /**
   Of the ways a target is imported the one kept is the first of static, relative, wildcard and dynamic that occurs.
   */
  lemma BestKindIs(file: File, imports: seq<Import>, b: Best)
    requires b in BestOf(file, imports)
    ensures SeenAs(imports, b.target, "static") ==> b.kind == "static"
    ensures !SeenAs(imports, b.target, "static") && SeenAs(imports, b.target, "relative") ==> b.kind == "relative"
    ensures SeenAs(imports, b.target, "wildcard") ==>
      SeenAs(imports, b.target, "static") || SeenAs(imports, b.target, "relative") || b.kind == "wildcard"
  {
    BestOfIsBest(file, imports);
    KindCovered(file, imports, b, "static");
    KindCovered(file, imports, b, "relative");
    KindCovered(file, imports, b, "wildcard");
  }

  lemma KindCovered(file: File, imports: seq<Import>, b: Best, kind: string)
    requires BestFor(file, imports, BestOf(file, imports)) && b in BestOf(file, imports)
    ensures SeenAs(imports, b.target, kind) ==> EdgeConfidence(kind) <= EdgeConfidence(b.kind)
  {
    var best := BestOf(file, imports);
    if SeenAs(imports, b.target, kind) {
      var k :| 0 <= k < |imports| && imports[k].target == Some(b.target) && imports[k].kind == kind;
      assert Covers(best, b.target, kind);
      var i :| 0 <= i < |best| && best[i].target == b.target && EdgeConfidence(kind) <= EdgeConfidence(best[i].kind);
    }
  }

  /** Unresolved imports are kept one by one, as often as they are written, with their kind and name. */
  lemma {:induction false} UnresolvedAreKept(file: File, imports: seq<Import>, kind: string, name: Option<string>)
    ensures multiset(UnresolvedOf(file, imports))[Edge(file, None, kind, name)]
         == multiset(imports)[Import(kind, None, name)]
  {
    if imports != [] {
      var n := |imports| - 1;
      UnresolvedAreKept(file, imports[..n], kind, name);
      assert imports == imports[..n] + [imports[n]];
    }
  }

  lemma SeenLater(imports: seq<Import>, n: nat, b: Best)
    requires n <= |imports| && SeenAs(imports[..n], b.target, b.kind)
    ensures SeenAs(imports, b.target, b.kind)
  {
    var k :| 0 <= k < n && imports[..n][k].target == Some(b.target) && imports[..n][k].kind == b.kind;
    assert imports[k] == imports[..n][k];
  }

  lemma ImproveCovers(best: seq<Best>, t: File, kind: string, u: File, other: string)
    requires Covers(best, u, other) || (u == t && other == kind)
    ensures Covers(Improve(best, t, kind), u, other)
  {
    var at := ImproveAt(best, t, kind);
    var r := Improve(best, t, kind);
    if u == t && other == kind {
      assert r[at].target == t;
    } else {
      var j :| 0 <= j < |best| && best[j].target == u && EdgeConfidence(other) <= EdgeConfidence(best[j].kind);
      assert r[j].target == u;
    }
  }

  lemma ImproveEntries(best: seq<Best>, t: File, kind: string)
    requires forall i, j :: 0 <= i < j < |best| ==> best[i].target != best[j].target
    ensures
      var r := Improve(best, t, kind);
      && (forall i, j :: 0 <= i < j < |r| ==> r[i].target != r[j].target)
      && (forall b :: b in r ==> b in best || b == Best(t, kind))
  {
    var at := ImproveAt(best, t, kind);
    if at == |best| {
      assert forall i :: 0 <= i < |best| ==> best[i] in best;
    }
  }

  lemma BestStepCovers(file: File, imports: seq<Import>, best: seq<Best>, i: Import)
    requires imports != [] && i == imports[|imports| - 1] && i.target.Some?
    requires forall k :: 0 <= k < |imports| - 1 && imports[k].target.Some? && imports[k].target != Some(file) ==>
      Covers(best, imports[k].target.value, imports[k].kind)
    ensures forall k :: 0 <= k < |imports| && imports[k].target.Some? && imports[k].target != Some(file) ==>
      Covers(Improve(best, i.target.value, i.kind), imports[k].target.value, imports[k].kind)
  {
    forall k | 0 <= k < |imports| && imports[k].target.Some? && imports[k].target != Some(file)
      ensures Covers(Improve(best, i.target.value, i.kind), imports[k].target.value, imports[k].kind)
    {
      ImproveCovers(best, i.target.value, i.kind, imports[k].target.value, imports[k].kind);
    }
  }

  lemma BestSkip(file: File, imports: seq<Import>, best: seq<Best>)
    requires imports != [] && BestFor(file, imports[..|imports| - 1], best)
    requires imports[|imports| - 1].target == Some(file) || imports[|imports| - 1].target == None
    ensures BestFor(file, imports, best)
  {
    PriorSeen(file, imports, best);
    PriorCovered(file, imports, best);
  }

  lemma BestImprove(file: File, imports: seq<Import>, best: seq<Best>, t: File, kind: string)
    requires imports != [] && BestFor(file, imports[..|imports| - 1], best)
    requires imports[|imports| - 1].target == Some(t) && t != file && imports[|imports| - 1].kind == kind
    ensures BestFor(file, imports, Improve(best, t, kind))
  {
    PriorSeen(file, imports, best);
    PriorCovered(file, imports, best);
    ImproveEntries(best, t, kind);
    assert SeenAs(imports, t, kind);
    BestStepCovers(file, imports, best, imports[|imports| - 1]);
  }

  lemma PriorSeen(file: File, imports: seq<Import>, best: seq<Best>)
    requires imports != [] && BestFor(file, imports[..|imports| - 1], best)
    ensures forall b :: b in best ==> b.target != file && SeenAs(imports, b.target, b.kind)
  {
    forall b | b in best
      ensures b.target != file && SeenAs(imports, b.target, b.kind)
    {
      SeenLater(imports, |imports| - 1, b);
    }
  }

  lemma PriorCovered(file: File, imports: seq<Import>, best: seq<Best>)
    requires imports != [] && BestFor(file, imports[..|imports| - 1], best)
    ensures forall k :: 0 <= k < |imports| - 1 && imports[k].target.Some? && imports[k].target != Some(file) ==>
      Covers(best, imports[k].target.value, imports[k].kind)
  {
    var prior := imports[..|imports| - 1];
    forall k | 0 <= k < |imports| - 1 && imports[k].target.Some? && imports[k].target != Some(file)
      ensures Covers(best, imports[k].target.value, imports[k].kind)
    {
      assert prior[k] == imports[k];
    }
  }
}
