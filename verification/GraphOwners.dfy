/**
 Which symbols own a changed range: of all that overlap it, the tightest.
 */
module GraphOwners {
  /** A symbol of the graph with the lines it spans; ids tell symbols apart. */
  datatype Node = Node(id: string, kind: string, file: string, start: int, end: int)

  function Span(n: Node): int {
    n.end - n.start
  }

  predicate Overlaps(n: Node, kinds: set<string>, file: string, lo: int, hi: int) {
    n.file == file && n.start <= hi && n.end >= lo && n.kind in kinds
  }

  /** `outer` has all the lines of `inner` and more. */
  predicate StrictlyContains(outer: Node, inner: Node) {
    outer.start <= inner.start && outer.end >= inner.end && (outer.start != inner.start || outer.end != inner.end)
  }

  predicate Contains(outer: Node, inner: Node) {
    outer.start <= inner.start && outer.end >= inner.end
  }

  predicate OnLine(n: Node, l: int) {
    n.start <= l <= n.end
  }

  /** Overlapping is having a line in common. */
  lemma OverlapsIff(n: Node, kinds: set<string>, file: string, lo: int, hi: int)
    requires n.start <= n.end && lo <= hi
    ensures Overlaps(n, kinds, file, lo, hi) <==>
      n.file == file && n.kind in kinds && exists l :: OnLine(n, l) && lo <= l <= hi
  {
    if Overlaps(n, kinds, file, lo, hi) {
      assert OnLine(n, if n.start >= lo then n.start else lo);
    }
  }

  /** Lying strictly inside is having fewer lines and none of one's own. */
  lemma StrictlyIff(outer: Node, inner: Node)
    requires outer.start <= outer.end && inner.start <= inner.end
    ensures StrictlyContains(outer, inner) <==>
      (forall l :: OnLine(inner, l) ==> OnLine(outer, l)) && exists l :: OnLine(outer, l) && !OnLine(inner, l)
  {
    if StrictlyContains(outer, inner) {
      assert OnLine(outer, outer.start) && OnLine(outer, outer.end);
    }
    if forall l :: OnLine(inner, l) ==> OnLine(outer, l) {
      assert OnLine(inner, inner.start) && OnLine(inner, inner.end);
    }
  }

  /** The overlapping owners, narrowest first. */
  ghost predicate IsQuery(rows: seq<Node>, nodes: set<Node>, kinds: set<string>, file: string, lo: int, hi: int) {
    && (forall n :: n in rows <==> n in nodes && Overlaps(n, kinds, file, lo, hi))
    && forall i, j :: 0 <= i < j < |rows| ==> Span(rows[i]) <= Span(rows[j])
  }

  /** An owner of the range inside which no other owner lies strictly. */
  ghost predicate IsTightest(n: Node, nodes: set<Node>, kinds: set<string>, file: string, lo: int, hi: int) {
    && n in nodes && Overlaps(n, kinds, file, lo, hi)
    && forall m :: m in nodes && Overlaps(m, kinds, file, lo, hi) ==> !StrictlyContains(n, m)
  }

  method ContainsChild(r: Node, rows: seq<Node>) returns (found: bool)
    requires r in rows && forall a, b :: a in rows && b in rows && a.id == b.id ==> a == b
    ensures found <==> exists m <- rows :: StrictlyContains(r, m)
  {
    for i := 0 to |rows|
      invariant forall m <- rows[..i] :: !StrictlyContains(r, m)
    {
      var other := rows[i];
      if other.id != r.id && r.start <= other.start && r.end >= other.end && Span(r) > Span(other) {
        return true;
      }
      assert other in rows;
    }
    assert rows[..|rows|] == rows;
    return false;
  }

  /** The tightest owners, all of them and nothing else. */
  method OwnersAt(rows: seq<Node>, ghost nodes: set<Node>, ghost kinds: set<string>, ghost file: string, ghost lo: int,
                  ghost hi: int)
    returns (kept: seq<Node>)
    requires IsQuery(rows, nodes, kinds, file, lo, hi)
    requires forall a, b :: a in nodes && b in nodes && a.id == b.id ==> a == b
    ensures forall n :: n in kept <==> IsTightest(n, nodes, kinds, file, lo, hi)
  {
    kept := [];
    for i := 0 to |rows|
      invariant forall n :: n in kept <==> n in rows[..i] && forall m <- rows :: !StrictlyContains(n, m)
    {
      var child := ContainsChild(rows[i], rows);
      assert rows[..i + 1] == rows[..i] + [rows[i]];
      if !child {
        kept := kept + [rows[i]];
      }
    }
    assert rows[..|rows|] == rows;
  }

  ghost function Inside(n: Node, nodes: set<Node>): set<Node> {
    set m | m in nodes && StrictlyContains(n, m)
  }

  /** Every owner of the range has a tightest owner within its lines, so no change goes unowned by narrowing. */
  lemma {:induction false} OwnerHasTightest(n: Node, nodes: set<Node>, kinds: set<string>, file: string, lo: int,
                                            hi: int)
    requires n in nodes && Overlaps(n, kinds, file, lo, hi)
    ensures exists t :: IsTightest(t, nodes, kinds, file, lo, hi) && Contains(n, t)
    decreases Inside(n, nodes)
  {
    if IsTightest(n, nodes, kinds, file, lo, hi) {
      assert Contains(n, n);
    } else {
      var m :| m in nodes && Overlaps(m, kinds, file, lo, hi) && StrictlyContains(n, m);
      assert m in Inside(n, nodes) && m !in Inside(m, nodes);
      assert Inside(m, nodes) < Inside(n, nodes);
      OwnerHasTightest(m, nodes, kinds, file, lo, hi);
      var t :| IsTightest(t, nodes, kinds, file, lo, hi) && Contains(m, t);
      assert Contains(n, t);
    }
  }
}
