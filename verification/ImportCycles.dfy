/** The edge list of the cached import graph, and the iterative Tarjan search over it. */
module ImportCycles {
  import opened Wrappers
  import opened Reachability
  import opened TarjanInvariant

  /** One import: resolved imports name a repository file, unresolved ones keep only how they were written. */
  datatype Edge = Edge(src: File, tgt: Option<File>, kind: string, name: Option<string>)

  /** The resolved edges of an edge list, as a relation. */
  ghost function Pairs(edges: seq<Edge>): Edges {
    set e | e in edges && e.tgt.Some? :: (e.src, e.tgt.value)
  }

  type Adjacency = map<File, seq<File>>

  function Succ(adj: Adjacency, v: File): seq<File> {
    if v in adj then adj[v] else []
  }

  ghost predicate Represents(adj: Adjacency, es: Edges) {
    forall u, v :: (u, v) in es <==> v in Succ(adj, u)
  }

  /** A work-stack entry: a file and the neighbour at which to resume; 0 means not entered yet. */
  datatype Frame = Frame(node: File, next: nat)

  ghost predicate Covered(adj: Adjacency, s: Search, v: File, n: nat) {
    n <= |Succ(adj, v)| && forall i :: 0 <= i < n ==> (v, Succ(adj, v)[i]) in s.seen
  }

  ghost predicate OnWork(work: seq<Frame>, g: File) {
    exists j :: 0 <= j < |work| && work[j].node == g
  }

  /** `work` lists the gray files, oldest first; `n` neighbours of the last one have been looked at. */
  ghost predicate Frames(adj: Adjacency, s: Search, work: seq<Frame>, n: nat) {
    && (forall j :: 0 <= j < |work| ==> work[j].node in s.gray && work[j].node in s.index)
    && (forall g {:trigger OnWork(work, g)} :: g in s.gray ==> OnWork(work, g))
    && (forall i, j :: 0 <= i < j < |work| ==> s.index[work[i].node] < s.index[work[j].node])
    && (forall j :: 0 <= j < |work| - 1 ==> work[j].next > 0 && Covered(adj, s, work[j].node, work[j].next))
    && (|work| > 0 ==> Covered(adj, s, work[|work| - 1].node, n))
  }

  /** `work` between two rounds: all entered, or all but a fresh last frame that the one below it asked for. */
  ghost predicate Pending(adj: Adjacency, s: Search, nodes: set<File>, work: seq<Frame>) {
    && (forall f :: f in work ==> f.node in nodes)
    && (if |work| == 0 then s.gray == {}
        else if work[|work| - 1].next > 0 then Frames(adj, s, work, work[|work| - 1].next)
        else
          var below := work[..|work| - 1];
          && work[|work| - 1].node !in s.index
          && (if below == [] then s.gray == {}
              else
                var p := below[|below| - 1];
                && p.next > 0
                && Frames(adj, s, below, p.next - 1)
                && p.next <= |Succ(adj, p.node)|
                && Succ(adj, p.node)[p.next - 1] == work[|work| - 1].node))
  }

  /** Tarjan's stack holds exactly the open files, oldest first. */
  ghost predicate StackOf(s: Search, stack: seq<File>) {
    && (forall x :: x in stack <==> x in s.open)
    && (forall x :: x in stack ==> x in s.index)
    && (forall i, j :: 0 <= i < j < |stack| ==> s.index[stack[i]] < s.index[stack[j]])
  }

  ghost function Via(work: seq<Frame>): Edges
    requires |work| > 0
  {
    if |work| == 1 then {} else {(work[|work| - 2].node, work[|work| - 1].node)}
  }

  // ---- How each move looks on the work stack ------------------------------------------------------

  lemma FreshCanEnter(adj: Adjacency, es: Edges, s: Search, nodes: set<File>, work: seq<Frame>)
    requires Represents(adj, es) && Shaped(es, s) && Pending(adj, s, nodes, work)
    requires |work| > 0 && work[|work| - 1].next == 0
    ensures CanEnter(es, s, work[|work| - 1].node, Via(work))
  {
    var below := work[..|work| - 1];
    if below != [] {
      var p := below[|below| - 1];
      assert p == work[|work| - 2];
      FramesInnermost(adj, es, s, below, p.next - 1);
    }
  }

  lemma FramesInnermost(adj: Adjacency, es: Edges, s: Search, work: seq<Frame>, n: nat)
    requires Shaped(es, s) && Frames(adj, s, work, n) && |work| > 0
    ensures Innermost(es, s, work[|work| - 1].node)
  {
    forall g | g in s.gray
      ensures s.index[g] <= s.index[work[|work| - 1].node]
    {
      assert OnWork(work, g);
      var j :| 0 <= j < |work| && work[j].node == g;
    }
  }

  lemma EnterFrames(adj: Adjacency, s: Search, nodes: set<File>, work: seq<Frame>)
    requires forall v :: v in s.index ==> s.index[v] < s.counter
    requires Pending(adj, s, nodes, work) && |work| > 0 && work[|work| - 1].next == 0
    ensures Frames(adj, Enter(s, work[|work| - 1].node, Via(work)), work, 0)
  {
    var below := work[..|work| - 1];
    assert forall j :: 0 <= j < |below| ==> below[j] == work[j];
    forall j | 0 <= j < |work| - 1
      ensures work[j].next > 0 && Covered(adj, Enter(s, work[|work| - 1].node, Via(work)), work[j].node, work[j].next)
    {
    }
    EnterOnWork(adj, s, nodes, work);
  }

  lemma EnterOnWork(adj: Adjacency, s: Search, nodes: set<File>, work: seq<Frame>)
    requires Pending(adj, s, nodes, work) && |work| > 0 && work[|work| - 1].next == 0
    ensures forall g {:trigger OnWork(work, g)} :: g in s.gray + {work[|work| - 1].node} ==> OnWork(work, g)
  {
    var below := work[..|work| - 1];
    forall g | g in s.gray + {work[|work| - 1].node}
      ensures OnWork(work, g)
    {
      if g != work[|work| - 1].node {
        assert OnWork(below, g);
        var j :| 0 <= j < |below| && below[j].node == g;
        assert work[j].node == g;
      }
    }
  }

  /** Asking for an unvisited neighbour leaves the frames as they are, with a fresh one on top. */
  lemma PushPending(adj: Adjacency, s: Search, nodes: set<File>, work: seq<Frame>, n: nat)
    requires |work| > 0 && Frames(adj, s, work, n) && n < |Succ(adj, work[|work| - 1].node)|
    requires forall f :: f in work ==> f.node in nodes
    requires Succ(adj, work[|work| - 1].node)[n] in nodes - s.index.Keys
    ensures
      var v := work[|work| - 1].node;
      Pending(adj, s, nodes, work[|work| - 1 := Frame(v, n + 1)] + [Frame(Succ(adj, v)[n], 0)])
  {
    var v := work[|work| - 1].node;
    var below := work[|work| - 1 := Frame(v, n + 1)];
    var work' := below + [Frame(Succ(adj, v)[n], 0)];
    assert work'[..|work'| - 1] == below;
    RetopFrames(adj, s, work, n);
    assert forall f :: f in below ==> f in work || f == Frame(v, n + 1);
    assert work[|work| - 1] in work;
  }

  /** The resume point stored in the top frame does not matter while its file is being looked at. */
  lemma RetopFrames(adj: Adjacency, s: Search, work: seq<Frame>, n: nat)
    requires |work| > 0 && Frames(adj, s, work, n)
    ensures Frames(adj, s, work[|work| - 1 := Frame(work[|work| - 1].node, n + 1)], n)
  {
    var below := work[|work| - 1 := Frame(work[|work| - 1].node, n + 1)];
    assert forall j :: 0 <= j < |work| ==> below[j].node == work[j].node;
    forall g | g in s.gray
      ensures OnWork(below, g)
    {
      assert OnWork(work, g);
      var j :| 0 <= j < |work| && work[j].node == g;
      assert below[j].node == g;
    }
  }

  lemma OnlyGray(adj: Adjacency, s: Search, work: seq<Frame>, n: nat)
    requires |work| == 1 && Frames(adj, s, work, n)
    ensures s.gray == {work[0].node}
  {
    forall g | g in s.gray
      ensures g == work[0].node
    {
      assert OnWork(work, g);
    }
  }

  lemma LeavePending(adj: Adjacency, s: Search, nodes: set<File>, work: seq<Frame>, n: nat, t: Search)
    requires |work| > 0 && Frames(adj, s, work, n)
    requires forall f :: f in work ==> f.node in nodes
    requires t.gray == s.gray - {work[|work| - 1].node} && t.index == s.index && t.seen == s.seen
    ensures Pending(adj, t, nodes, work[..|work| - 1])
  {
    var v := work[|work| - 1].node;
    var below := work[..|work| - 1];
    forall g | g in t.gray
      ensures OnWork(below, g)
    {
      assert OnWork(work, g);
      var j :| 0 <= j < |work| && work[j].node == g;
      assert below[j].node == g;
    }
    if below != [] {
      forall j | 0 <= j < |below|
        ensures below[j].node in t.gray && Covered(adj, t, below[j].node, below[j].next)
      {
        assert s.index[work[j].node] < s.index[v];
        assert Covered(adj, s, work[j].node, work[j].next);
      }
    } else {
      OnlyGray(adj, s, work, n);
    }
  }

  /** The file to hand the low link to, as a set of at most one file. */
  function ParentOf(work: seq<Frame>): set<File>
    requires |work| > 0
  {
    if |work| == 1 then {} else {work[|work| - 2].node}
  }

  lemma FramesParent(adj: Adjacency, es: Edges, s: Search, work: seq<Frame>, n: nat)
    requires Shaped(es, s) && Frames(adj, s, work, n) && |work| > 0
    ensures Parent(es, s, work[|work| - 1].node, ParentOf(work))
  {
    var v := work[|work| - 1].node;
    if |work| == 1 {
      OnlyGray(adj, s, work, n);
    } else {
      var q := work[|work| - 2].node;
      forall g | g in s.gray && g != v
        ensures s.index[g] <= s.index[q]
      {
        assert OnWork(work, g);
        var j :| 0 <= j < |work| && work[j].node == g;
      }
      assert q in s.gray && q != v;
    }
  }

  lemma FramesCanLeave(adj: Adjacency, es: Edges, s: Search, work: seq<Frame>)
    requires Represents(adj, es) && Shaped(es, s) && |work| > 0
    requires Frames(adj, s, work, |Succ(adj, work[|work| - 1].node)|)
    ensures CanLeave(es, s, work[|work| - 1].node)
  {
    var v := work[|work| - 1].node;
    FramesInnermost(adj, es, s, work, |Succ(adj, v)|);
    forall w | (v, w) in es
      ensures (v, w) in s.seen
    {
      var i :| 0 <= i < |Succ(adj, v)| && Succ(adj, v)[i] == w;
    }
  }

  // ---- Popping one component ------------------------------------------------------------------

  /** Pops files off the stack up to and including `v`. */
  method PopComponent(stack: seq<File>, onStack: set<File>, v: File)
    returns (stack': seq<File>, onStack': set<File>, component: seq<File>)
    requires v in stack
    ensures |stack'| < |stack| && stack' == stack[..|stack'|] && stack[|stack'|] == v
    ensures v !in stack[|stack'| + 1..]
    ensures |component| == |stack| - |stack'|
    ensures forall x :: x in component <==> x in stack[|stack'|..]
    ensures onStack' == onStack - set x | x in component
  {
    stack', onStack', component := stack, onStack, [];
    while true
      invariant |stack'| + |component| == |stack| && stack' == stack[..|stack'|]
      invariant v !in stack[|stack'|..]
      invariant forall x :: x in component <==> x in stack[|stack'|..]
      invariant onStack' == onStack - set x | x in component
      decreases |stack'|
    {
      assert stack == stack[..|stack'|] + stack[|stack'|..];
      var w := stack'[|stack'| - 1];
      assert stack[|stack'| - 1..] == [w] + stack[|stack'|..];
      stack' := stack'[..|stack'| - 1];
      onStack' := onStack' - {w};
      component := component + [w];
      if w == v {
        break;
      }
    }
  }

  /** What the popped files are: the component of `v` in Tarjan's sense. */
  lemma PoppedIsComponent(es: Edges, s: Search, stack: seq<File>, v: File, k: nat, component: seq<File>)
    requires Shaped(es, s) && StackOf(s, stack) && v in s.gray
    requires k < |stack| && stack[k] == v && |component| == |stack| - k
    requires forall x :: x in component <==> x in stack[k..]
    ensures (set x | x in component) == Component(es, s, v)
    ensures |Component(es, s, v)| == |component|
    ensures forall x :: x in stack[..k] <==> x in s.open - Component(es, s, v)
  {
    assert stack == stack[..k] + stack[k..];
    forall x | x in stack
      ensures x in stack[..k] <==> s.index[x] < s.index[v]
      ensures x in stack[k..] <==> s.index[v] <= s.index[x]
    {
      SplitByNumber(s, stack, k, x);
    }
    SetOfDistinct(stack[k..]);
    assert (set x | x in component) == (set x | x in stack[k..]);
  }

  lemma SplitByNumber(s: Search, stack: seq<File>, k: nat, x: File)
    requires StackOf(s, stack) && k < |stack| && x in stack
    ensures x in stack[..k] <==> s.index[x] < s.index[stack[k]]
    ensures x in stack[k..] <==> s.index[stack[k]] <= s.index[x]
  {
    var i :| 0 <= i < |stack| && stack[i] == x;
    if i < k {
      assert stack[..k][i] == x;
    } else {
      assert stack[k..][i - k] == x;
    }
  }

  lemma {:induction false} SetOfDistinct(q: seq<File>)
    requires forall i, j :: 0 <= i < j < |q| ==> q[i] != q[j]
    ensures |set x | x in q| == |q|
  {
    if q != [] {
      SetOfDistinct(q[1..]);
      assert (set x | x in q) == {q[0]} + set x | x in q[1..];
    }
  }

  /** The adjacency lists of the resolved edges, in list order, and the files those edges touch. */
  method Neighbours(edges: seq<Edge>) returns (adj: Adjacency, nodes: set<File>)
    ensures Represents(adj, Pairs(edges))
    ensures forall u, v {:trigger (u, v) in Pairs(edges)} :: (u, v) in Pairs(edges) ==> u in nodes && v in nodes
  {
    adj, nodes := map[], {};
    for k := 0 to |edges|
      invariant Represents(adj, Pairs(edges[..k]))
      invariant forall u, v :: (u, v) in Pairs(edges[..k]) ==> u in nodes && v in nodes
    {
      var e := edges[k];
      PairsStep(edges, k);
      if e.tgt.Some? {
        adj := adj[e.src := Succ(adj, e.src) + [e.tgt.value]];
        nodes := nodes + {e.src, e.tgt.value};
      }
    }
    assert edges[..|edges|] == edges;
  }

  lemma PairsStep(edges: seq<Edge>, k: nat)
    requires k < |edges|
    ensures Pairs(edges[..k + 1]) == Pairs(edges[..k]) + if edges[k].tgt.Some?
      then {(edges[k].src, edges[k].tgt.value)} else {}
  {
    assert edges[..k + 1] == edges[..k] + [edges[k]];
  }

  // ---- The search ---------------------------------------------------------------------------------

  /** One moment of the search: the abstract search, Tarjan's stack, the work stack, and how far its top has looked. */
  datatype Moment = Moment(s: Search, stack: seq<File>, work: seq<Frame>, n: nat)

  /**
   The graph being searched, with the moments between two rounds and the moments inside one
   as values: the search itself only ever needs to know that a move leads from one set to the other.
   */
  datatype Context = Context(adj: Adjacency, es: Edges, rt: Relation, nodes: set<File>, idle: iset<Moment>,
                             busy: iset<Moment>)

  ghost predicate Sound(x: Context, m: Moment) {
    && Represents(x.adj, x.es)
    && Inv(x.es, x.rt, m.s)
    && StackOf(m.s, m.stack)
    && m.s.index.Keys <= x.nodes
    && (forall f :: f in m.work ==> f.node in x.nodes)
    && (forall u, v :: (u, v) in x.es ==> v in x.nodes)
  }

  ghost predicate Idle(x: Context, m: Moment) {
    Sound(x, m) && Pending(x.adj, m.s, x.nodes, m.work)
  }

  ghost predicate Busy(x: Context, m: Moment) {
    Sound(x, m) && |m.work| > 0 && Frames(x.adj, m.s, m.work, m.n)
  }

  ghost predicate Tracks(x: Context) {
    && (forall m {:trigger Idle(x, m)} :: m in x.idle <==> Idle(x, m))
    && (forall m {:trigger Busy(x, m)} :: m in x.busy <==> Busy(x, m))
  }

  lemma MakeContext(adj: Adjacency, es: Edges, nodes: set<File>) returns (x: Context)
    ensures Tracks(x) && x.adj == adj && x.es == es && x.nodes == nodes && IsReach(es, x.rt)
  {
    var rt := MakeReach(es);
    var y := Context(adj, es, rt, nodes, iset{}, iset{});
    x := y.(idle := (iset m: Moment | Idle(y, m)), busy := (iset m: Moment | Busy(y, m)));
    assert forall m {:trigger Idle(x, m)} :: Idle(x, m) <==> Idle(y, m);
    assert forall m {:trigger Busy(x, m)} :: Busy(x, m) <==> Busy(y, m);
  }

  ghost function Top(m: Moment): File
    requires |m.work| > 0
  {
    m.work[|m.work| - 1].node
  }

  lemma Begins(x: Context, m: Moment)
    requires Tracks(x) && IsReach(x.es, x.rt) && Represents(x.adj, x.es)
    requires forall u, v :: (u, v) in x.es ==> v in x.nodes
    requires m == Moment(Search(map[], map[], {}, {}, {}, 0, {}), [], [], 0)
    ensures m in x.idle
  {
    assert Inv(x.es, x.rt, m.s);
    assert Idle(x, m);
  }

  lemma Starts(x: Context, m: Moment, start: File)
    requires Tracks(x) && m in x.idle && m.work == [] && start in x.nodes - m.s.index.Keys
    ensures m.(work := [Frame(start, 0)]) in x.idle
  {
    assert Idle(x, m);
    assert Idle(x, m.(work := [Frame(start, 0)]));
  }

  lemma Enters(x: Context, m: Moment)
    requires Tracks(x) && m in x.idle && |m.work| > 0 && m.work[|m.work| - 1].next == 0
    ensures Top(m) !in m.s.index
    ensures Top(m) in x.nodes
    ensures Moment(Enter(m.s, Top(m), Via(m.work)), m.stack + [Top(m)], m.work, 0) in x.busy
  {
    assert Idle(x, m);
    var t := Enter(m.s, Top(m), Via(m.work));
    assert m.work[|m.work| - 1] in m.work;
    FreshCanEnter(x.adj, x.es, m.s, x.nodes, m.work);
    EnterKeepsInv(x.es, x.rt, m.s, Top(m), Via(m.work));
    EnterFrames(x.adj, m.s, x.nodes, m.work);
    assert Busy(x, Moment(t, m.stack + [Top(m)], m.work, 0));
  }

  lemma Resumes(x: Context, m: Moment)
    requires Tracks(x) && m in x.idle && |m.work| > 0 && m.work[|m.work| - 1].next > 0
    ensures m.(n := m.work[|m.work| - 1].next) in x.busy
  {
    assert Idle(x, m);
    assert Busy(x, m.(n := m.work[|m.work| - 1].next));
  }

  lemma BusyFacts(x: Context, m: Moment)
    requires Tracks(x) && m in x.busy && |m.work| > 0
    ensures m.s.low.Keys == m.s.index.Keys <= x.nodes
    ensures Top(m) in m.s.index && Top(m) in m.stack && m.n <= |Succ(x.adj, Top(m))|
    ensures forall w :: w in Succ(x.adj, Top(m)) ==> w in x.nodes
    ensures |m.work| > 1 ==> m.work[|m.work| - 2].node in m.s.index
  {
    assert Busy(x, m);
  }

  lemma Pushes(x: Context, m: Moment)
    requires Tracks(x) && m in x.busy && |m.work| > 0 && m.n < |Succ(x.adj, Top(m))|
    requires Succ(x.adj, Top(m))[m.n] !in m.s.index
    ensures m.(work := m.work[|m.work| - 1 := Frame(Top(m), m.n + 1)] + [Frame(Succ(x.adj, Top(m))[m.n], 0)]) in x.idle
  {
    assert Busy(x, m);
    var w := Succ(x.adj, Top(m))[m.n];
    assert w in Succ(x.adj, Top(m));
    PushPending(x.adj, m.s, x.nodes, m.work, m.n);
    assert Idle(x, m.(work := m.work[|m.work| - 1 := Frame(Top(m), m.n + 1)] + [Frame(w, 0)]));
  }

  lemma Looks(x: Context, m: Moment)
    requires Tracks(x) && m in x.busy && |m.work| > 0 && m.n < |Succ(x.adj, Top(m))|
    requires Succ(x.adj, Top(m))[m.n] in m.s.index && Top(m) in m.s.low
    ensures m.(s := Look(m.s, Top(m), Succ(x.adj, Top(m))[m.n]), n := m.n + 1) in x.busy
  {
    assert Busy(x, m);
    var w := Succ(x.adj, Top(m))[m.n];
    assert w in Succ(x.adj, Top(m));
    FramesInnermost(x.adj, x.es, m.s, m.work, m.n);
    LookKeepsInv(x.es, x.rt, m.s, Top(m), w);
    assert Busy(x, m.(s := Look(m.s, Top(m), w), n := m.n + 1));
  }

  lemma LeavesInside(x: Context, m: Moment)
    requires Tracks(x) && m in x.busy && |m.work| > 0 && m.n == |Succ(x.adj, Top(m))|
    requires Top(m) in m.s.index && Top(m) in m.s.low && m.s.low[Top(m)] != m.s.index[Top(m)]
    ensures m.(s := Leave(m.s, Top(m), ParentOf(m.work), {}, {}), work := m.work[..|m.work| - 1]) in x.idle
  {
    assert Busy(x, m);
    var t := Leave(m.s, Top(m), ParentOf(m.work), {}, {});
    FramesCanLeave(x.adj, x.es, m.s, m.work);
    FramesParent(x.adj, x.es, m.s, m.work, m.n);
    LeaveInsideKeepsInv(x.es, x.rt, m.s, Top(m), ParentOf(m.work));
    assert m.stack[..|m.stack|] == m.stack;
    Settles(x, m, t, |m.stack|);
  }

  lemma RootClosed(x: Context, m: Moment, k: nat, component: seq<File>)
    requires Busy(x, m) && m.n == |Succ(x.adj, Top(m))|
    requires Top(m) in m.s.index && Top(m) in m.s.low && m.s.low[Top(m)] == m.s.index[Top(m)]
    requires k < |m.stack| && m.stack[k] == Top(m) && |component| == |m.stack| - k
    requires forall f :: f in component <==> f in m.stack[k..]
    ensures
      var gone := set f | f in component;
      && Inv(x.es, x.rt, Leave(m.s, Top(m), ParentOf(m.work), gone, if |component| > 1 then gone else {}))
      && forall f :: f in m.stack[..k] <==> f in m.s.open - gone
  {
    FramesCanLeave(x.adj, x.es, m.s, m.work);
    FramesParent(x.adj, x.es, m.s, m.work, m.n);
    PoppedIsComponent(x.es, m.s, m.stack, Top(m), k, component);
    var gone := set f | f in component;
    LeaveRootKeepsInv(x.es, x.rt, m.s, Top(m), ParentOf(m.work), if |component| > 1 then gone else {});
  }

  lemma LeavesRoot(x: Context, m: Moment, k: nat, component: seq<File>)
    requires Tracks(x) && m in x.busy && |m.work| > 0 && m.n == |Succ(x.adj, Top(m))|
    requires Top(m) in m.s.index && Top(m) in m.s.low && m.s.low[Top(m)] == m.s.index[Top(m)]
    requires k < |m.stack| && m.stack[k] == Top(m) && |component| == |m.stack| - k
    requires forall f :: f in component <==> f in m.stack[k..]
    ensures
      var gone := set f | f in component;
      var found := if |component| > 1 then gone else {};
      m.(s := Leave(m.s, Top(m), ParentOf(m.work), gone, found), stack := m.stack[..k], work := m.work[..|m.work| - 1])
        in x.idle
  {
    assert Busy(x, m);
    var v := Top(m);
    var gone := set f | f in component;
    var found := if |component| > 1 then gone else {};
    var t := Leave(m.s, v, ParentOf(m.work), gone, found);
    RootClosed(x, m, k, component);
    Settles(x, m, t, k);
  }

  /** Dropping the top frame of a busy moment settles into an idle one, once the invariant is known to hold again. */
  lemma Settles(x: Context, m: Moment, t: Search, k: nat)
    requires Tracks(x) && Represents(x.adj, x.es) && (forall u, v :: (u, v) in x.es ==> v in x.nodes)
    requires StackOf(m.s, m.stack) && m.s.index.Keys <= x.nodes && (forall f :: f in m.work ==> f.node in x.nodes)
    requires |m.work| > 0 && Frames(x.adj, m.s, m.work, m.n)
    requires Inv(x.es, x.rt, t)
    requires t.gray == m.s.gray - {Top(m)} && t.index == m.s.index && t.seen == m.s.seen
    requires k <= |m.stack| && forall f :: f in m.stack[..k] <==> f in t.open
    ensures m.(s := t, stack := m.stack[..k], work := m.work[..|m.work| - 1]) in x.idle
  {
    var m' := m.(s := t, stack := m.stack[..k], work := m.work[..|m.work| - 1]);
    LeavePending(x.adj, m.s, x.nodes, m.work, m.n, t);
    assert Sound(x, m');
    assert Idle(x, m');
  }

  lemma OpenNeedsGray(es: Edges, rt: Relation, s: Search, f: File)
    requires Shaped(es, s) && Grounded(es, rt, s) && f in s.open
    ensures s.gray != {}
  {
    assert DownToGray(es, rt, s, f);
  }

  /** A search with nothing left to do has reported exactly the visited files on a cycle. */
  lemma Ends(x: Context, m: Moment, f: File)
    requires Tracks(x) && m in x.idle && m.work == [] && IsReach(x.es, x.rt)
    ensures f in m.s.cyclic <==> f in m.s.index && InCycle(x.es, f)
  {
    assert Idle(x, m);
    if f in m.s.open {
      OpenNeedsGray(x.es, x.rt, m.s, f);
    }
    OnCycleIffInCycle(x.es, x.rt, f);
  }

  /**
   The neighbour loop of one round: looks at the neighbours of the top file from `pi` on, and stops
   early with a fresh frame on top when one of them is unvisited.
   */
  method LookAround(adj: Adjacency, work: seq<Frame>, pi: nat, index: map<File, nat>, low: map<File, nat>,
                    onStack: set<File>, ghost x: Context, ghost m: Moment)
    returns (work': seq<Frame>, low': map<File, nat>, recursed: bool, ghost m': Moment)
    requires Tracks(x) && x.adj == adj && m in x.busy && |work| > 0 && m.work == work && m.n == pi
    requires m.s.index == index && m.s.low == low && m.s.open == onStack
    ensures m'.s == m.s.(low := low', seen := m'.s.seen) && m'.stack == m.stack && m'.work == work'
    ensures recursed ==> m' in x.idle && |work'| == |work| + 1 && work'[|work|].next == 0
    ensures !recursed ==> m' in x.busy && work' == work && m'.n == |Succ(adj, work[|work| - 1].node)|
  {
    var v := work[|work| - 1].node;
    BusyFacts(x, m);
    var neighbors := Succ(adj, v);
    work', low', recursed, m' := work, low, false, m;
    var i := pi;
    while i < |neighbors|
      invariant work' == work && !recursed
      invariant m' in x.busy && m'.work == work && m'.n == i <= |neighbors|
      invariant m'.s == m.s.(low := low', seen := m'.s.seen) && m'.stack == m.stack
      invariant low'.Keys == index.Keys && v in index
    {
      var w := neighbors[i];
      assert Succ(x.adj, Top(m'))[m'.n] == w;
      if w !in index {
        Pushes(x, m');
        work' := work[|work| - 1 := Frame(v, i + 1)] + [Frame(w, 0)];
        m' := m'.(work := work');
        recursed := true;
        break;
      }
      Looks(x, m');
      m' := m'.(s := Look(m'.s, v, w), n := i + 1);
      if w in onStack {
        low' := low'[v := Min(low'[v], index[w])];
      }
      i := i + 1;
    }
  }

  /** The end of one round: reports and pops the component of a root, drops the frame, and hands the low link on. */
  method LeaveTop(adj: Adjacency, work: seq<Frame>, index: map<File, nat>, low: map<File, nat>, stack: seq<File>,
                  onStack: set<File>, cyclic: set<File>, ghost x: Context, ghost m: Moment)
    returns (work': seq<Frame>, low': map<File, nat>, stack': seq<File>, onStack': set<File>, cyclic': set<File>,
             ghost m': Moment)
    requires Tracks(x) && x.adj == adj && m in x.busy && |work| > 0 && m.work == work
    requires m.n == |Succ(adj, work[|work| - 1].node)|
    requires m.s.index == index && m.s.low == low && m.s.open == onStack && m.s.cyclic == cyclic && m.stack == stack
    ensures m' in x.idle && m'.work == work' == work[..|work| - 1] && m'.stack == stack'
    ensures m'.s == m.s.(low := low', open := onStack', cyclic := cyclic', gray := m'.s.gray)
  {
    var v := work[|work| - 1].node;
    BusyFacts(x, m);
    ghost var gone, found := {}, {};
    stack', onStack', cyclic' := stack, onStack, cyclic;
    if low[v] == index[v] {
      var component: seq<File>;
      stack', onStack', component := PopComponent(stack, onStack, v);
      if |component| > 1 {
        cyclic' := cyclic + set f | f in component;
      }
      gone := set f | f in component;
      found := if |component| > 1 then gone else {};
      LeavesRoot(x, m, |stack'|, component);
    } else {
      LeavesInside(x, m);
    }
    m' := m.(s := Leave(m.s, v, ParentOf(work), gone, found), stack := stack', work := work[..|work| - 1]);
    assert m' in x.idle;
    work' := work[..|work| - 1];
    low' := low;
    if |work'| > 0 {
      var parent := work'[|work'| - 1].node;
      low' := low[parent := Min(low[parent], low[v])];
    }
  }

  /** Runs the search from every file; what it found is read off the moment it ends in. */
  method Components(adj: Adjacency, nodes: set<File>, ghost x: Context) returns (cyclic: set<File>, ghost m: Moment)
    requires Tracks(x) && x.adj == adj && x.nodes == nodes
    requires Moment(Search(map[], map[], {}, {}, {}, 0, {}), [], [], 0) in x.idle
    ensures m in x.idle && m.work == [] && nodes <= m.s.index.Keys && m.s.cyclic == cyclic
  {
    var index: map<File, nat>, low: map<File, nat> := map[], map[];
    var onStack: set<File>, stack: seq<File> := {}, [];
    cyclic := {};
    var counter: nat := 0;
    m := Moment(Search(index, low, onStack, {}, {}, counter, cyclic), stack, [], 0);
    var todo := nodes;
    while todo != {}
      invariant todo <= nodes && nodes - todo <= index.Keys
      invariant m in x.idle && m.work == [] && m.stack == stack
      invariant m.s == Search(index, low, onStack, m.s.gray, m.s.seen, counter, cyclic)
      decreases todo
    {
      var start :| start in todo;
      todo := todo - {start};
      if start in index {
        continue;
      }
      var work := [Frame(start, 0)];
      Starts(x, m, start);
      m := m.(work := work);
      while |work| > 0
        invariant m in x.idle && m.work == work && m.stack == stack
        invariant m.s == Search(index, low, onStack, m.s.gray, m.s.seen, counter, cyclic)
        invariant nodes - todo - {start} <= index.Keys
        invariant start in index || work == [Frame(start, 0)]
        decreases nodes - index.Keys, if |work| > 0 && work[|work| - 1].next > 0 then 1 else 0, |work|
      {
        ghost var unvisited := nodes - index.Keys;
        var v, pi := work[|work| - 1].node, work[|work| - 1].next;
        if pi == 0 {
          Enters(x, m);
          assert v in unvisited;
          index, low := index[v := counter], low[v := counter];
          counter := counter + 1;
          stack := stack + [v];
          onStack := onStack + {v};
          m := Moment(Enter(m.s, v, Via(work)), stack, work, 0);
        } else {
          Resumes(x, m);
          m := m.(n := pi);
        }
        assert if pi == 0 then nodes - index.Keys < unvisited else nodes - index.Keys == unvisited;
        var recursed: bool;
        work, low, recursed, m := LookAround(adj, work, pi, index, low, onStack, x, m);
        if recursed {
          continue;
        }
        work, low, stack, onStack, cyclic, m := LeaveTop(adj, work, index, low, stack, onStack, cyclic, x, m);
      }
    }
  }

  /** Files participating in an import cycle: those in a strongly connected component of more than one file. */
  method CycleFiles(edges: seq<Edge>) returns (cyclic: set<File>)
    ensures forall f :: f in cyclic <==> InCycle(Pairs(edges), f)
  {
    var adj, nodes := Neighbours(edges);
    ghost var x := MakeContext(adj, Pairs(edges), nodes);
    ghost var m := Moment(Search(map[], map[], {}, {}, {}, 0, {}), [], [], 0);
    Begins(x, m);
    cyclic, m := Components(adj, nodes, x);
    forall f
      ensures f in cyclic <==> InCycle(Pairs(edges), f)
    {
      Ends(x, m, f);
      if InCycle(Pairs(edges), f) {
        var y :| y != f && Reachability.Mutual(Pairs(edges), f, y);
        ReachFirstStep(Pairs(edges), f, y);
      }
    }
  }
}
