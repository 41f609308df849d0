/** How incomplete the import graph is around an edit, and what that costs. */
module GraphUncertainty {
  import opened Wrappers
  import opened Reachability
  import opened ImportCycles
  import opened Payload

  const UNCERTAINTY_CAP: real := 0.25
  const MISSING_FILE: real := 0.05
  const PARSE_ERROR: real := 0.08
  const UNRESOLVED_IMPORT: real := 0.03
  const DYNAMIC_IMPORT: real := 0.02
  const WILDCARD_IMPORT: real := 0.01
  const REPO_DYNAMIC: real := 0.01
  const REPO_WILDCARD: real := 0.005

  /** What is missing or hidden, at the changed files and, where it could hide an importer of them, elsewhere. */
  datatype Doubt = Doubt(
    missing: nat, parseErrors: nat, unresolved: nat, dynamic: nat, wildcard: nat, external: nat, score: real)

  const NO_DOUBT: Doubt := Doubt(0, 0, 0, 0, 0, 0, 0.0)

  function OfKind(kind: string): Edge -> bool {
    (e: Edge) => e.kind == kind
  }

  function Unresolved(): Edge -> bool {
    (e: Edge) => e.tgt.None? && e.kind in {"static", "relative"}
  }

  function In(changed: set<File>, p: Edge -> bool): Edge -> bool {
    (e: Edge) => e.src in changed && p(e)
  }

  function Outside(changed: set<File>, p: Edge -> bool): Edge -> bool {
    (e: Edge) => e.src !in changed && p(e)
  }

  function MissingOf(expected: seq<File>, present: set<File>): nat {
    if expected == [] then 0
    else (if expected[0] in present then 0 else 1) + MissingOf(expected[1..], present)
  }

  function Penalty(missing: nat, parseErrors: nat, unresolved: nat, dynamic: nat, wildcard: nat, repoDynamic: nat,
                   repoWildcard: nat): real
  {
    MISSING_FILE * missing as real + PARSE_ERROR * parseErrors as real + UNRESOLVED_IMPORT * unresolved as real
    + DYNAMIC_IMPORT * dynamic as real + WILDCARD_IMPORT * wildcard as real
    + REPO_DYNAMIC * repoDynamic as real + REPO_WILDCARD * repoWildcard as real
  }

  function Capped(x: real): real {
    if x <= UNCERTAINTY_CAP then x else UNCERTAINTY_CAP
  }

  function Changed(g: Graph, expected: seq<File>): set<File> {
    set f | f in expected && f in g.hashes
  }

  /** Imports elsewhere that cannot be followed; they are charged only if a changed file is there to be imported. */
  function Hidden(edges: seq<Edge>, changed: set<File>, kind: string): nat {
    if changed == {} then 0 else Tally(edges, Outside(changed, OfKind(kind)))
  }

  function ParseErrors(g: Graph, expected: seq<File>): nat {
    |set f | f in expected && f in g.parseErrors|
  }

  /** An empty graph is no evidence at all, so nothing is charged. */
  function DoubtOf(g: Graph, expected: seq<File>): Doubt {
    if g.hashes == map[] then NO_DOUBT
    else
      var changed := Changed(g, expected);
      var missing, parseErrors := MissingOf(expected, g.hashes.Keys), ParseErrors(g, expected);
      var unresolved := Tally(g.edges, In(changed, Unresolved()));
      var dynamic := Tally(g.edges, In(changed, OfKind("dynamic")));
      var wildcard := Tally(g.edges, In(changed, OfKind("wildcard")));
      var external := Tally(g.edges, In(changed, OfKind("external")));
      var penalty := Penalty(missing, parseErrors, unresolved, dynamic, wildcard,
        Hidden(g.edges, changed, "dynamic"), Hidden(g.edges, changed, "wildcard"));
      Doubt(missing, parseErrors, unresolved, dynamic, wildcard, external, Capped(penalty))
  }

  // ---- Counting ---------------------------------------------------------------------------------------

  lemma {:induction false} TallyParts(edges: seq<Edge>, p: Edge -> bool, q: Edge -> bool, r: Edge -> bool)
    requires forall e :: p(e) <==> q(e) || r(e)
    requires forall e :: !(q(e) && r(e))
    ensures Tally(edges, p) == Tally(edges, q) + Tally(edges, r)
    decreases |edges|
  {
    if edges != [] {
      TallyParts(edges[..|edges| - 1], p, q, r);
    }
  }

  /** Every import of a kind is at a changed file or elsewhere, and is charged for once. */
  lemma ChargedOnce(edges: seq<Edge>, changed: set<File>, kind: string)
    ensures Tally(edges, In(changed, OfKind(kind))) + Tally(edges, Outside(changed, OfKind(kind)))
         == Tally(edges, OfKind(kind))
  {
    TallyParts(edges, OfKind(kind), In(changed, OfKind(kind)), Outside(changed, OfKind(kind)));
  }

  lemma {:induction false} NoneTallied(edges: seq<Edge>, p: Edge -> bool)
    ensures Tally(edges, p) == 0 <==> forall e <- edges :: !p(e)
    decreases |edges|
  {
    if edges != [] {
      var n := |edges| - 1;
      NoneTallied(edges[..n], p);
      assert edges == edges[..n] + [edges[n]];
    }
  }

  lemma {:induction false} NoneMissing(expected: seq<File>, present: set<File>)
    ensures MissingOf(expected, present) == 0 <==> forall f <- expected :: f in present
  {
    if expected != [] {
      NoneMissing(expected[1..], present);
      assert expected == [expected[0]] + expected[1..];
    }
  }

  // ---- What the score says ------------------------------------------------------------------------------

  /** Nothing is wanting: the expected files are there and parse, their imports resolve, and nothing is hidden. */
  ghost predicate Complete(g: Graph, expected: seq<File>) {
    && (forall f <- expected :: f in g.hashes && f !in g.parseErrors)
    && (forall e <- g.edges :: e.src in expected ==> !(e.tgt.None? && e.kind in {"static", "relative"}))
    && (expected == [] || forall e <- g.edges :: e.kind !in {"dynamic", "wildcard"})
  }

  lemma PenaltyIsZeroIff(a: nat, b: nat, c: nat, d: nat, e: nat, f: nat, g: nat)
    ensures Penalty(a, b, c, d, e, f, g) >= 0.0
    ensures Penalty(a, b, c, d, e, f, g) == 0.0
      <==> a == 0 && b == 0 && c == 0 && d == 0 && e == 0 && f == 0 && g == 0
  {
  }

  lemma NothingHiddenIff(edges: seq<Edge>, changed: set<File>, kind: string)
    ensures Tally(edges, In(changed, OfKind(kind))) == 0 && Hidden(edges, changed, kind) == 0
      <==> changed == {} || forall e <- edges :: e.kind != kind
  {
    ChargedOnce(edges, changed, kind);
    NoneTallied(edges, OfKind(kind));
    if changed == {} {
      NoneTallied(edges, In(changed, OfKind(kind)));
    }
  }

  lemma ParsesIff(g: Graph, expected: seq<File>)
    ensures ParseErrors(g, expected) == 0 <==> forall f <- expected :: f !in g.parseErrors
  {
    var bad := set f | f in expected && f in g.parseErrors;
    if bad == {} {
      forall f | f in expected ensures f !in g.parseErrors {
        assert f !in bad;
      }
    }
  }

  lemma ResolvesIff(g: Graph, changed: set<File>, expected: seq<File>)
    requires forall f :: f in changed <==> f in expected
    ensures Tally(g.edges, In(changed, Unresolved())) == 0
      <==> forall e <- g.edges :: e.src in expected ==> !(e.tgt.None? && e.kind in {"static", "relative"})
  {
    NoneTallied(g.edges, In(changed, Unresolved()));
    forall e: Edge
      ensures In(changed, Unresolved())(e) <==> e.src in expected && e.tgt.None? && e.kind in {"static", "relative"}
    {
    }
  }

  /** The score is bounded by its cap, and zero exactly when nothing is wanting or there is no graph at all. */
  lemma NoDoubtIff(g: Graph, expected: seq<File>)
    ensures 0.0 <= DoubtOf(g, expected).score <= UNCERTAINTY_CAP
    ensures DoubtOf(g, expected).score == 0.0 <==> g.hashes == map[] || Complete(g, expected)
    ensures g.hashes == map[] ==> DoubtOf(g, expected) == Doubt(0, 0, 0, 0, 0, 0, 0.0)
  {
    if g.hashes != map[] {
      var d, changed := DoubtOf(g, expected), Changed(g, expected);
      var repoDynamic, repoWildcard := Hidden(g.edges, changed, "dynamic"), Hidden(g.edges, changed, "wildcard");
      PenaltyIsZeroIff(d.missing, d.parseErrors, d.unresolved, d.dynamic, d.wildcard, repoDynamic, repoWildcard);
      NoneMissing(expected, g.hashes.Keys);
      ParsesIff(g, expected);
      if forall f <- expected :: f in g.hashes {
        assert forall f :: f in changed <==> f in expected;
        ResolvesIff(g, changed, expected);
        assert changed == {} <==> expected == [] by {
          if expected != [] {
            assert expected[0] in changed;
          }
        }
        NothingHiddenIff(g.edges, changed, "dynamic");
        NothingHiddenIff(g.edges, changed, "wildcard");
      }
    }
  }

  // ---- What each import costs -----------------------------------------------------------------------------

  /** What one import is charged: more at a changed file than elsewhere, and elsewhere only if a changed file exists. */
  function Charge(e: Edge, changed: set<File>): real {
    if e.src in changed then
      if e.tgt.None? && (e.kind == "static" || e.kind == "relative") then 0.03
      else if e.kind == "dynamic" then 0.02
      else if e.kind == "wildcard" then 0.01
      else 0.0
    else if changed == {} then 0.0
    else if e.kind == "dynamic" then 0.01
    else if e.kind == "wildcard" then 0.005
    else 0.0
  }

  function Charges(edges: seq<Edge>, changed: set<File>): real {
    if edges == [] then 0.0 else Charges(edges[..|edges| - 1], changed) + Charge(edges[|edges| - 1], changed)
  }

  function EdgePenalty(edges: seq<Edge>, changed: set<File>): real {
    Penalty(0, 0, Tally(edges, In(changed, Unresolved())), Tally(edges, In(changed, OfKind("dynamic"))),
      Tally(edges, In(changed, OfKind("wildcard"))), Hidden(edges, changed, "dynamic"),
      Hidden(edges, changed, "wildcard"))
  }

  lemma KindsDiffer()
    ensures "static" != "dynamic" && "static" != "wildcard" && "relative" != "dynamic" && "relative" != "wildcard"
    ensures "dynamic" != "wildcard"
  {
    assert "static"[0] == 's' && "relative"[0] == 'r' && "dynamic"[0] == 'd' && "wildcard"[0] == 'w';
  }

  lemma {:induction false} EdgesAreCharged(edges: seq<Edge>, changed: set<File>)
    ensures EdgePenalty(edges, changed) == Charges(edges, changed)
    decreases |edges|
  {
    if edges != [] {
      EdgesAreCharged(edges[..|edges| - 1], changed);
      KindsDiffer();
    }
  }

  lemma {:induction false} MissingFrom(expected: seq<File>, present: set<File>, k: nat)
    requires k <= |expected|
    ensures MissingOf(expected[k..], present) == |set i: nat | k <= i < |expected| && expected[i] !in present|
    decreases |expected| - k
  {
    var here := set i: nat | k <= i < |expected| && expected[i] !in present;
    if k < |expected| {
      MissingFrom(expected, present, k + 1);
      var rest := set i: nat | k + 1 <= i < |expected| && expected[i] !in present;
      assert expected[k..][1..] == expected[k + 1..];
      if expected[k] in present {
        assert here == rest;
      } else {
        assert here == rest + {k};
      }
    } else {
      assert here == {};
    }
  }

  /** The expected files that are not there, each as often as it is expected. */
  ghost function MissingAt(expected: seq<File>, g: Graph): set<nat> {
    set i: nat | i < |expected| && expected[i] !in g.hashes
  }

  lemma MissingCounts(expected: seq<File>, g: Graph)
    ensures MissingOf(expected, g.hashes.Keys) == |MissingAt(expected, g)|
  {
    MissingFrom(expected, g.hashes.Keys, 0);
    assert expected[0..] == expected;
    assert MissingAt(expected, g) == set i: nat | 0 <= i < |expected| && expected[i] !in g.hashes.Keys;
  }

  /** The score adds up what is missing, what does not parse, and what every single import costs, up to a quarter. */
  lemma ScoreAddsUp(g: Graph, expected: seq<File>)
    requires g.hashes != map[]
    ensures var total := 0.05 * |MissingAt(expected, g)| as real
        + 0.08 * |set f | f in expected && f in g.parseErrors| as real
        + Charges(g.edges, set f | f in expected && f in g.hashes);
      DoubtOf(g, expected).score == if total <= 0.25 then total else 0.25
    ensures DoubtOf(g, expected).missing == |MissingAt(expected, g)|
    ensures DoubtOf(g, expected).parseErrors == |set f | f in expected && f in g.parseErrors|
  {
    MissingCounts(expected, g);
    EdgesAreCharged(g.edges, Changed(g, expected));
    assert Changed(g, expected) == set f | f in expected && f in g.hashes;
  }

  /**
   One more import, wherever it stands, never lowers the score, and one from outside the repository leaves it as it
   is.
   */
  lemma MoreImportsMoreDoubt(g: Graph, e: Edge, expected: seq<File>)
    ensures var more := DoubtOf(g.(edges := g.edges + [e]), expected).score;
      more >= DoubtOf(g, expected).score && (e.kind == "external" ==> more == DoubtOf(g, expected).score)
  {
    var changed := Changed(g, expected);
    assert (g.edges + [e])[..|g.edges|] == g.edges && (g.edges + [e])[|g.edges|] == e;
    assert "external" != "dynamic" && "external" != "wildcard" && "external" != "static"
      && "external" != "relative" by {
      assert |"external"| == 8 && |"wildcard"| == 8 && "external"[0] != "wildcard"[0] && |"relative"| == 8
        && "external"[0] != "relative"[0];
    }
  }

  /** Only which edges there are matters, not their order. */
  lemma DoubtIgnoresOrder(g: Graph, h: Graph, expected: seq<File>)
    requires g.hashes == h.hashes && g.parseErrors == h.parseErrors && multiset(g.edges) == multiset(h.edges)
    ensures DoubtOf(g, expected) == DoubtOf(h, expected)
  {
    var changed := Changed(g, expected);
    assert Changed(h, expected) == changed;
    TallyOrder(g.edges, h.edges, In(changed, Unresolved()));
    TallyOrder(g.edges, h.edges, In(changed, OfKind("dynamic")));
    TallyOrder(g.edges, h.edges, In(changed, OfKind("wildcard")));
    TallyOrder(g.edges, h.edges, In(changed, OfKind("external")));
    TallyOrder(g.edges, h.edges, Outside(changed, OfKind("dynamic")));
    TallyOrder(g.edges, h.edges, Outside(changed, OfKind("wildcard")));
  }
}
