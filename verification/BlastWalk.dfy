/** The depth-bounded walk over the reverse import graph that counts who depends on the changed files. */
module BlastWalk {
  import opened Reachability
  import opened Distance
  import opened CycleSearch

  const MAX_DEPTH: nat := 3
  const LOW_CONFIDENCE: real := 0.5

  /** Importers of each file, each with the confidence of the import edge. */
  datatype Importer = Importer(file: File, confidence: real)

  type Reverse = map<File, seq<Importer>>

  function Importers(reverse: Reverse, f: File): seq<Importer> {
    if f in reverse then reverse[f] else []
  }

  ghost function ReversePairs(reverse: Reverse): Edges {
    set f, i | f in reverse && 0 <= i < |reverse[f]| :: (f, reverse[f][i].file)
  }

  datatype Blast = Blast(
    direct: nat, transitive: nat, buckets: map<nat, nat>, confidences: seq<real>,
    mean: real, min: real, low: nat, entrypoint: bool, cycle: bool)

  function Sum(q: seq<real>): real {
    if q == [] then 0.0 else Sum(q[..|q| - 1]) + q[|q| - 1]
  }

  function Least(q: seq<real>): real
    requires q != []
  {
    if |q| == 1 then q[0]
    else
      var m := Least(q[..|q| - 1]);
      if q[|q| - 1] < m then q[|q| - 1] else m
  }

  /** `n` times `a`. */
  function Times(a: real, n: nat): real {
    if n == 0 then 0.0 else Times(a, n - 1) + a
  }

  lemma {:induction false} TimesGrows(a: real, b: real, n: nat)
    requires a <= b
    ensures Times(a, n) <= Times(b, n)
  {
    if n > 0 {
      TimesGrows(a, b, n - 1);
    }
  }

  lemma OneMore(a: real, n: real)
    ensures a * (n + 1.0) == a * n + a
  {
  }

  lemma {:induction false} TimesIsProduct(a: real, n: nat)
    ensures Times(a, n) == a * n as real
  {
    if n > 0 {
      TimesIsProduct(a, n - 1);
      OneMore(a, (n - 1) as real);
      assert n as real == (n - 1) as real + 1.0;
    }
  }

  lemma {:induction false} LeastBelowSum(q: seq<real>)
    requires q != []
    ensures Times(Least(q), |q|) <= Sum(q) && Least(q) in q
  {
    var p, last := q[..|q| - 1], q[|q| - 1];
    assert q == p + [last];
    if p != [] {
      LeastBelowSum(p);
      TimesGrows(Least(q), Least(p), |p|);
    } else {
      assert Times(Least(q), 0) == 0.0 == Sum(p);
    }
  }

  lemma Quotient(a: real, sum: real, n: real)
    requires n > 0.0 && a * n <= sum
    ensures sum / n * n == sum && a <= sum / n
  {
    var mean := sum / n;
    assert mean * n == sum;
    if mean < a {
      Cancel(mean, a, n);
    }
  }

  lemma Cancel(a: real, b: real, n: real)
    requires a < b && n > 0.0
    ensures a * n < b * n
  {
  }

  function Mean(q: seq<real>): real
    requires q != []
  {
    Sum(q) / |q| as real
  }

  lemma LeastAtMostMean(q: seq<real>)
    requires q != []
    ensures Mean(q) * |q| as real == Sum(q) && Least(q) in q && Least(q) <= Mean(q)
  {
    LeastBelowSum(q);
    TimesIsProduct(Least(q), |q|);
    Quotient(Least(q), Sum(q), |q| as real);
  }

  function CountBelow(q: seq<real>, bound: real): nat {
    if q == [] then 0 else CountBelow(q[..|q| - 1], bound) + if q[|q| - 1] < bound then 1 else 0
  }

  /** The sum of the buckets at depth 2 and more; the keys are visited in any order. */
  method Transitive(buckets: map<nat, nat>) returns (n: nat)
    requires forall d :: d in buckets ==> 0 < d <= MAX_DEPTH
    ensures n == Bucket(buckets, 2) + Bucket(buckets, 3)
  {
    n := 0;
    var rest := buckets.Keys;
    while rest != {}
      invariant rest <= buckets.Keys
      invariant n == (if 2 in rest then 0 else Bucket(buckets, 2)) + (if 3 in rest then 0 else Bucket(buckets, 3))
      decreases rest
    {
      var d :| d in rest;
      rest := rest - {d};
      if d >= 2 {
        n := n + buckets[d];
      }
    }
  }

  /** The dependents are the spheres of radius 1 to 3 taken together. */
  lemma SpheresMakeUpDependents(es: Edges, starts: set<File>)
    ensures starts <= Ball(es, starts, 3) && |Ball(es, starts, 3) - starts| == |Ball(es, starts, 3)| - |starts|
    ensures |Ball(es, starts, 3) - starts| == |Sphere(es, starts, 1)| + |Sphere(es, starts, 2)|
      + |Sphere(es, starts, 3)|
  {
    BallGrows(es, starts, 0, 1);
    BallGrows(es, starts, 1, 2);
    BallGrows(es, starts, 2, 3);
    var b1, b2, b3 := Ball(es, starts, 1), Ball(es, starts, 2), Ball(es, starts, 3);
    assert Ball(es, starts, 0) == starts;
    assert b3 - starts == (b1 - starts) + (b2 - b1) + (b3 - b2);
    assert |(b1 - starts) + (b2 - b1)| == |b1 - starts| + |b2 - b1|;
  }

  /** `importers` are exactly the successors of `node`. */
  ghost predicate Lists(es: Edges, node: File, importers: seq<Importer>) {
    && (forall i :: 0 <= i < |importers| ==> (node, importers[i].file) in es)
    && (forall w :: (node, w) in es ==> exists i :: 0 <= i < |importers| && importers[i].file == w)
  }

  function Total(buckets: map<nat, nat>): nat {
    Bucket(buckets, 1) + Bucket(buckets, 2) + Bucket(buckets, 3)
  }

  lemma TotalGrows(buckets: map<nat, nat>, d: nat)
    requires 1 <= d <= MAX_DEPTH
    ensures Total(buckets[d := Bucket(buckets, d) + 1]) == Total(buckets) + 1
  {
  }

  lemma ImportersListed(reverse: Reverse, node: File)
    ensures Lists(ReversePairs(reverse), node, Importers(reverse, node))
  {
  }

  /** A dependent, found from `parent`, which lists it as its importer number `at`. */
  datatype Finding = Finding(parent: File, at: nat, dependent: File, distance: nat)

  /**
   The finding is made one step nearer to the starts than the dependent is, by the first entry that lists it there, and
   the confidence is that of the entry.
   */
  ghost predicate IsFinding(reverse: Reverse, starts: set<File>, f: Finding, confidence: real) {
    && f.distance > 0
    && At(ReversePairs(reverse), starts, f.parent, f.distance - 1)
    && At(ReversePairs(reverse), starts, f.dependent, f.distance)
    && var importers := Importers(reverse, f.parent);
       && f.at < |importers| && importers[f.at] == Importer(f.dependent, confidence)
       && forall k :: 0 <= k < f.at ==> importers[k].file != f.dependent
  }

  /** Every dependent in `visited` is found once, with the confidence recorded at its place. */
  ghost predicate Recorded(reverse: Reverse, starts: set<File>, visited: set<File>, found: seq<Finding>,
                           confidences: seq<real>)
  {
    && |found| == |confidences|
    && (forall k :: 0 <= k < |found| ==> IsFinding(reverse, starts, found[k], confidences[k]))
    && (forall i, j :: 0 <= i < j < |found| ==> found[i].dependent != found[j].dependent)
    && (forall x :: x in visited <==> x in starts || IsFound(found, x))
    && (forall k :: 0 <= k < |found| ==> found[k].dependent !in starts)
  }

  ghost predicate IsFound(found: seq<Finding>, x: File) {
    exists k :: 0 <= k < |found| && found[k].dependent == x
  }

  lemma FoundOneMore(found: seq<Finding>, f: Finding, x: File)
    ensures IsFound(found + [f], x) <==> IsFound(found, x) || f.dependent == x
  {
    var more := found + [f];
    assert more[|found|] == f;
    if k :| 0 <= k < |found| && found[k].dependent == x {
      assert more[k].dependent == x;
    }
  }

  lemma NewlyFound(found: seq<Finding>, f: Finding)
    requires forall i, j :: 0 <= i < j < |found| ==> found[i].dependent != found[j].dependent
    requires !IsFound(found, f.dependent)
    ensures var more := found + [f]; forall i, j :: 0 <= i < j < |more| ==> more[i].dependent != more[j].dependent
  {
    forall k | 0 <= k < |found| ensures found[k].dependent != f.dependent {
    }
  }

  lemma FindingsOneMore(reverse: Reverse, starts: set<File>, found: seq<Finding>, confidences: seq<real>, f: Finding,
                        confidence: real)
    requires |found| == |confidences| && IsFinding(reverse, starts, f, confidence)
    requires forall k :: 0 <= k < |found| ==> IsFinding(reverse, starts, found[k], confidences[k])
    ensures var more, all := found + [f], confidences + [confidence];
      forall k :: 0 <= k < |more| ==> IsFinding(reverse, starts, more[k], all[k])
  {
    var more, all := found + [f], confidences + [confidence];
    forall k | 0 <= k < |more| ensures IsFinding(reverse, starts, more[k], all[k]) {
      if k < |found| {
        assert more[k] == found[k] && all[k] == confidences[k];
      }
    }
  }

  lemma RecordedOneMore(reverse: Reverse, starts: set<File>, visited: set<File>, found: seq<Finding>,
                        confidences: seq<real>, f: Finding, confidence: real)
    requires Recorded(reverse, starts, visited, found, confidences)
    requires IsFinding(reverse, starts, f, confidence) && f.dependent !in visited
    ensures Recorded(reverse, starts, visited + {f.dependent}, found + [f], confidences + [confidence])
  {
    forall x ensures IsFound(found + [f], x) <==> IsFound(found, x) || f.dependent == x {
      FoundOneMore(found, f, x);
    }
    NewlyFound(found, f);
    FindingsOneMore(reverse, starts, found, confidences, f, confidence);
  }

  /** What the walk has recorded so far, hidden behind one name. */
  datatype Account = Account(visited: set<File>, found: seq<Finding>, confidences: seq<real>)

  datatype Log = Log(reverse: Reverse, starts: set<File>, accounts: iset<Account>)

  ghost predicate Fits(log: Log, e: Account) {
    Recorded(log.reverse, log.starts, e.visited, e.found, e.confidences)
  }

  ghost predicate Keeps(log: Log) {
    forall e {:trigger Fits(log, e)} :: e in log.accounts <==> Fits(log, e)
  }

  lemma LogStart(reverse: Reverse, starts: set<File>) returns (log: Log)
    ensures Keeps(log) && log.reverse == reverse && log.starts == starts && Account(starts, [], []) in log.accounts
  {
    log := Log(reverse, starts, iset e: Account | Recorded(reverse, starts, e.visited, e.found, e.confidences));
    assert Fits(log, Account(starts, [], []));
  }

  /** The importer at `i` of the file being expanded is new: the entry that mentions it is its finding. */
  lemma LogFind(log: Log, e: Account, h: Hunt, g: Stage, next: Stage, node: File, depth: nat, importers: seq<Importer>,
                i: nat)
    requires Keeps(log) && e in log.accounts && Tracks(h) && h.es == ReversePairs(log.reverse) && h.starts == log.starts
    requires g in h.stages && |g.q| > 0 && g.q[0] == Item(node, depth)
    requires importers == Importers(log.reverse, node) && i < |importers|
    requires importers[i].file !in e.visited && forall k :: 0 <= k < i ==> importers[k].file in e.visited
    requires next in h.stages && importers[i].file in next.dist && next.dist[importers[i].file] == depth + 1
    ensures Account(e.visited + {importers[i].file}, e.found + [Finding(node, i, importers[i].file, depth + 1)],
                  e.confidences + [importers[i].confidence]) in log.accounts
  {
    HuntExact(h, g, node);
    HuntExact(h, next, importers[i].file);
    assert Fits(log, e);
    RecordedOneMore(log.reverse, log.starts, e.visited, e.found, e.confidences,
                    Finding(node, i, importers[i].file, depth + 1), importers[i].confidence);
    assert Fits(log, Account(e.visited + {importers[i].file}, e.found
      + [Finding(node, i, importers[i].file, depth + 1)],
                             e.confidences + [importers[i].confidence]));
  }

  /** The edge loop for one file taken off the queue: each new dependent is counted by the edge that discovers it. */
  method Expand(node: File, depth: nat, importers: seq<Importer>, visited: set<File>, buckets: map<nat, nat>,
                confidences: seq<real>, ghost found: seq<Finding>, ghost log: Log, ghost h: Hunt, ghost g: Stage)
    returns (visited': set<File>, buckets': map<nat, nat>, confidences': seq<real>, added: Queue,
             ghost found': seq<Finding>, ghost g': Stage)
    requires Tracks(h) && g in h.stages && g.buckets == buckets && g.dist.Keys == visited
    requires Keeps(log) && Account(visited, found, confidences) in log.accounts && log.starts == h.starts
      && h.es == ReversePairs(log.reverse)
    requires importers == Importers(log.reverse, node)
    requires forall i :: 0 <= i < |importers| ==> (node, importers[i].file) in h.es
    requires |g.q| > 0 && g.q[0] == Item(node, depth) && depth < h.limit == MAX_DEPTH
    ensures g' in h.stages && g'.q == g.q + added && g'.buckets == buckets' && g'.dist.Keys == visited'
    ensures Account(visited', found', confidences') in log.accounts
    ensures forall i :: 0 <= i < |importers| ==> importers[i].file in visited'
    ensures visited <= visited' && (added != [] ==> added[0].node in visited' - visited)
    ensures |confidences'| - Total(buckets') == |confidences| - Total(buckets)
  {
    visited', buckets', confidences', added, found', g' := visited, buckets, confidences, [], found, g;
    for i := 0 to |importers|
      invariant g' in h.stages && g'.q == g.q + added && g'.buckets == buckets' && g'.dist.Keys == visited'
      invariant Account(visited', found', confidences') in log.accounts
      invariant visited <= visited' && (added != [] ==> added[0].node in visited' - visited)
      invariant |confidences'| - Total(buckets') == |confidences| - Total(buckets)
      invariant forall k :: 0 <= k < i ==> importers[k].file in visited'
    {
      var importer, conf := importers[i].file, importers[i].confidence;
      if importer !in visited' {
        HuntAdd(h, g', g.q, added, importer, depth);
        ghost var next := Stage(g'.dist[importer := depth + 1], g.q + (added + [Item(importer, depth + 1)]),
                                buckets'[depth + 1 := Bucket(buckets', depth + 1) + 1]);
        LogFind(log, Account(visited', found', confidences'), h, g, next, node, depth, importers, i);
        TotalGrows(buckets', depth + 1);
        visited' := visited' + {importer};
        confidences' := confidences' + [conf];
        found' := found' + [Finding(node, i, importer, depth + 1)];
        buckets' := buckets'[depth + 1 := Bucket(buckets', depth + 1) + 1];
        added := added + [Item(importer, depth + 1)];
        g' := next;
      }
    }
  }

  /** One round: takes the first file off the queue and, unless it lies at the depth limit, expands it. */
  method Round(reverse: Reverse, dq: Queue, visited: set<File>, buckets: map<nat, nat>, confidences: seq<real>,
               ghost found: seq<Finding>, ghost log: Log, ghost h: Hunt, ghost g: Stage)
    returns (dq': Queue, visited': set<File>, buckets': map<nat, nat>, confidences': seq<real>,
             ghost found': seq<Finding>, ghost g': Stage)
    requires Tracks(h) && h.es == ReversePairs(reverse) && h.limit == MAX_DEPTH && |dq| > 0
    requires g in h.stages && g == Stage(g.dist, dq, buckets) && g.dist.Keys == visited
    requires Keeps(log) && log.reverse == reverse && log.starts == h.starts
      && Account(visited, found, confidences) in log.accounts
    ensures g' in h.stages && g' == Stage(g'.dist, dq', buckets') && g'.dist.Keys == visited'
    ensures Account(visited', found', confidences') in log.accounts
    ensures |confidences'| - Total(buckets') == |confidences| - Total(buckets)
    ensures
      var all := Ball(h.es, h.starts, h.limit);
      all - visited' < all - visited || (all - visited' == all - visited && |dq'| < |dq|)
  {
    var node, depth := dq[0].node, dq[0].depth;
    dq', visited', buckets', confidences', found', g' := dq[1..], visited, buckets, confidences, found, g;
    if depth < MAX_DEPTH {
      var added: Queue;
      ImportersListed(reverse, node);
      visited', buckets', confidences', added, found', g' :=
        Expand(node, depth, Importers(reverse, node), visited, buckets, confidences, found, log, h, g);
      assert (dq + added)[1..] == dq' + added;
      dq' := dq' + added;
      HuntWithin(h, g');
      Shrinks(visited, visited', Ball(h.es, h.starts, h.limit), added);
    }
    HuntRetire(h, g');
    g' := g'.(q := dq');
  }

  /**
   The breadth-first part: counts every dependent once, at its distance, and records the confidence it is found with.
   */
  method Dependents(changed: seq<File>, reverse: Reverse)
    returns (visited: set<File>, buckets: map<nat, nat>, confidences: seq<real>, ghost found: seq<Finding>)
    ensures
      var es, starts := ReversePairs(reverse), set f | f in changed;
      && visited == Ball(es, starts, MAX_DEPTH)
      && (forall d :: 1 <= d <= MAX_DEPTH ==> Bucket(buckets, d) == |Sphere(es, starts, d)|)
      && (forall d :: d in buckets ==> 1 <= d <= MAX_DEPTH && buckets[d] > 0)
      && |confidences| == Total(buckets)
    ensures Recorded(reverse, (set f | f in changed), visited, found, confidences)
  {
    ghost var h := HuntStart(ReversePairs(reverse), changed, MAX_DEPTH);
    visited := set f | f in changed;
    buckets, confidences, found := map[], [], [];
    ghost var log := LogStart(reverse, visited);
    var dq := StartQueue(changed);
    ghost var g := Stage(Zeroes(changed), dq, map[]);
    while dq != []
      invariant g in h.stages && g == Stage(g.dist, dq, buckets) && g.dist.Keys == visited
      invariant Account(visited, found, confidences) in log.accounts
      invariant |confidences| == Total(buckets)
      decreases Ball(h.es, h.starts, h.limit) - visited, |dq|
    {
      dq, visited, buckets, confidences, found, g :=
        Round(reverse, dq, visited, buckets, confidences, found, log, h, g);
    }
    HuntFinished(h, g);
    assert Fits(log, Account(visited, found, confidences));
  }

  /** Mean and minimum of the recorded confidences; both are 0 when there are none. */
  method Statistics(confidences: seq<real>) returns (mean: real, min: real)
    ensures confidences == [] ==> mean == min == 0.0
    ensures confidences != [] ==> mean == Mean(confidences) && IsLeast(min, confidences) && min <= mean
  {
    mean, min := 0.0, 0.0;
    if confidences != [] {
      mean, min := Mean(confidences), Least(confidences);
      LeastAtMostMean(confidences);
      LeastIsLeast(confidences);
    }
  }

  ghost predicate IsLeast(m: real, q: seq<real>) {
    m in q && forall x <- q :: m <= x
  }

  lemma {:induction false} LeastIsLeast(q: seq<real>)
    requires q != []
    ensures IsLeast(Least(q), q)
  {
    if |q| > 1 {
      var p := q[..|q| - 1];
      LeastIsLeast(p);
      assert q == p + [q[|q| - 1]];
    }
  }

  lemma EntrypointReached(visited: set<File>, changed: set<File>, entrypoints: set<File>)
    requires changed <= visited
    ensures (exists f :: f in changed && f in entrypoints) || (exists d :: d in visited - changed && d in entrypoints)
      <==> visited * entrypoints != {}
  {
    if f :| f in changed && f in entrypoints { assert f in visited * entrypoints; }
    if d :| d in visited - changed && d in entrypoints { assert d in visited * entrypoints; }
    if visited * entrypoints != {} {
      var f :| f in visited * entrypoints;
      assert f in changed || f in visited - changed;
    }
  }

  /** The whole walk: the dependents, and the signals derived from them. */
  method Walk(changed: seq<File>, reverse: Reverse, forward: map<File, set<File>>, entrypoints: set<File>)
    returns (r: Blast, ghost found: seq<Finding>)
    ensures
      var es, starts := ReversePairs(reverse), set f | f in changed;
      && (forall d :: 1 <= d <= 3 ==> Bucket(r.buckets, d) == |Sphere(es, starts, d)|)
      && (forall d :: d in r.buckets ==> 1 <= d <= 3 && r.buckets[d] > 0)
      && r.direct == |Sphere(es, starts, 1)|
      && r.direct + r.transitive == |Ball(es, starts, 3) - starts| == |r.confidences|
      && (r.entrypoint <==> Ball(es, starts, 3) * entrypoints != {})
      && Recorded(reverse, starts, Ball(es, starts, 3), found, r.confidences)
    ensures r.confidences == [] ==> r.mean == r.min == 0.0
    ensures r.confidences != [] ==> r.mean == Mean(r.confidences) && IsLeast(r.min, r.confidences) && r.min <= r.mean
    ensures r.low == CountBelow(r.confidences, 0.5)
    ensures r.cycle <==> CycleAhead(ForwardPairs(forward), changed)
  {
    var visited, buckets, confidences;
    visited, buckets, confidences, found := Dependents(changed, reverse);
    var transitive := Transitive(buckets);
    var mean, min := Statistics(confidences);
    var dependents := visited - set f | f in changed;
    var entrypoint := (exists f :: f in (set c | c in changed) && f in entrypoints)
      || (exists d :: d in dependents && d in entrypoints);
    var cycle := HasCycleFrom(changed, forward);
    r := Blast(Bucket(buckets, 1), transitive, buckets, confidences, mean, min,
      CountBelow(confidences, LOW_CONFIDENCE), entrypoint, cycle);
    SpheresMakeUpDependents(ReversePairs(reverse), set f | f in changed);
    EntrypointReached(visited, (set f | f in changed), entrypoints);
    assert entrypoint <==> visited * entrypoints != {};
  }
}
