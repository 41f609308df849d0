/** The depth-first cycle test of the blast walk, scoped to what the changed files can reach. */
module CycleSearch {
  import opened Reachability

  ghost function ForwardPairs(forward: map<File, set<File>>): Edges {
    set u, v | u in forward && v in forward[u] :: (u, v)
  }

  function Targets(forward: map<File, set<File>>, f: File): set<File> {
    if f in forward then forward[f] else {}
  }

  /** Some closed walk is reachable from one of the starts. */
  ghost predicate CycleAhead(es: Edges, starts: seq<File>) {
    exists s, x :: s in starts && Reach(es, s, x) && OnClosedWalk(es, x)
  }

  /** A stack entry: a file and its successors not yet tried. */
  datatype Entry = Entry(node: File, left: seq<File>)

  /** Left files lead only to left files, and no closed walk passes through them. */
  ghost predicate Harmless(es: Edges, done: set<File>) {
    && Closed(es, done)
    && (forall x :: x in done ==> !OnClosedWalk(es, x))
  }

  /** The stack is a walk from `start`; every successor of an entry is still left, is the next entry, or is done. */
  ghost predicate Trail(es: Edges, rt: Relation, start: File, stack: seq<Entry>, onStack: set<File>, done: set<File>) {
    && (|stack| > 0 ==> stack[0].node == start)
    && (forall x {:trigger On(stack, x)} {:trigger x in onStack} :: x in onStack <==> On(stack, x))
    && (forall i, j :: 0 <= i < j < |stack| ==> stack[i].node != stack[j].node && stack[j].node !in done)
    && (forall i, j :: 0 <= i <= j < |stack| ==> (stack[i].node, stack[j].node) in rt)
    && (forall j {:trigger Tried(es, stack, done, j)} :: 0 <= j < |stack| ==> Tried(es, stack, done, j))
  }

  ghost predicate Tried(es: Edges, stack: seq<Entry>, done: set<File>, j: nat)
    requires j < |stack|
  {
    && (forall w :: w in stack[j].left ==> (stack[j].node, w) in es)
    && (forall w :: (stack[j].node, w) in es ==>
          w in stack[j].left || w in done || (j + 1 < |stack| && w == stack[j + 1].node))
  }

  function Work(stack: seq<Entry>): nat {
    if stack == [] then 0 else Work(stack[..|stack| - 1]) + 1 + |stack[|stack| - 1].left|
  }

  /** Trying a successor that is on the stack closes a walk. */
  lemma BackEdge(es: Edges, rt: Relation, start: File, stack: seq<Entry>, onStack: set<File>, done: set<File>, w: File)
    requires IsReach(es, rt) && Trail(es, rt, start, stack, onStack, done) && |stack| > 0
    requires (stack[|stack| - 1].node, w) in es && w in onStack
    ensures Reach(es, start, w) && OnClosedWalk(es, w)
  {
    var top := stack[|stack| - 1].node;
    assert On(stack, w);
    var j :| 0 <= j < |stack| && stack[j].node == w;
    assert (stack[0].node, stack[j].node) in rt && (w, top) in rt;
    assert Reach(es, start, w) && Reach(es, w, top);
    if w == top {
      ReachRefl(es, w);
    } else {
      ReachFirstStep(es, w, top);
      var s :| (w, s) in es && Reach(es, s, top);
      ReachEdge(es, top, w);
      ReachTrans(es, s, top, w);
    }
  }

  /** A file whose successors are all done can itself be left. */
  lemma Finish(es: Edges, done: set<File>, node: File)
    requires Harmless(es, done) && forall w :: (node, w) in es ==> w in done
    ensures Harmless(es, done + {node})
  {
    if OnClosedWalk(es, node) && node !in done {
      var s :| (node, s) in es && Reach(es, s, node);
      ReachClosed(es, done, s, node);
    }
  }

  lemma HarmlessAhead(es: Edges, done: set<File>, starts: seq<File>)
    requires Harmless(es, done) && forall s :: s in starts ==> s in done
    ensures !CycleAhead(es, starts)
  {
    if CycleAhead(es, starts) {
      var s, x :| s in starts && Reach(es, s, x) && OnClosedWalk(es, x);
      ReachClosed(es, done, s, x);
    }
  }

  method Listing(s: set<File>) returns (q: seq<File>)
    ensures forall x :: x in q <==> x in s
    ensures forall i, j :: 0 <= i < j < |q| ==> q[i] != q[j]
  {
    q := [];
    var rest := s;
    while rest != {}
      invariant rest <= s && forall x :: x in q <==> x in s - rest
      invariant forall i, j :: 0 <= i < j < |q| ==> q[i] != q[j]
      decreases rest
    {
      var x :| x in rest;
      assert x !in q;
      rest := rest - {x};
      q := q + [x];
    }
  }

  ghost predicate On(stack: seq<Entry>, x: File) {
    exists j :: 0 <= j < |stack| && stack[j].node == x
  }

  /** The stack after its top entry has used up its last successor. */
  function Advanced(stack: seq<Entry>): seq<Entry>
    requires |stack| > 0 && stack[|stack| - 1].left != []
  {
    var top := stack[|stack| - 1];
    stack[|stack| - 1 := Entry(top.node, top.left[..|top.left| - 1])]
  }

  lemma AdvancedOnAt(stack: seq<Entry>, x: File)
    requires |stack| > 0 && stack[|stack| - 1].left != []
    ensures On(Advanced(stack), x) <==> On(stack, x)
  {
    var t := Advanced(stack);
    assert forall j :: 0 <= j < |stack| ==> t[j].node == stack[j].node;
    if On(t, x) { var j :| 0 <= j < |t| && t[j].node == x; assert stack[j].node == x; }
    if On(stack, x) { var j :| 0 <= j < |stack| && stack[j].node == x; assert t[j].node == x; }
  }

  lemma AdvancedOn(stack: seq<Entry>)
    requires |stack| > 0 && stack[|stack| - 1].left != []
    ensures forall x {:trigger On(Advanced(stack), x)} :: On(Advanced(stack), x) <==> On(stack, x)
    ensures Work(Advanced(stack)) < Work(stack)
  {
    var t := Advanced(stack);
    assert t[..|t| - 1] == stack[..|stack| - 1];
    forall x
      ensures On(t, x) <==> On(stack, x)
    {
      AdvancedOnAt(stack, x);
    }
  }

  /** Every entry but the top one is tried up to the entry above it; the top one up to `w`. */
  lemma AdvanceTried(es: Edges, stack: seq<Entry>, done: set<File>, j: nat)
    requires |stack| > 0 && stack[|stack| - 1].left != [] && j < |stack| && Tried(es, stack, done, j)
    requires var left := stack[|stack| - 1].left; left[|left| - 1] in done
    ensures Tried(es, Advanced(stack), done, j)
  {
    var left := stack[|stack| - 1].left;
    assert left == left[..|left| - 1] + [left[|left| - 1]];
  }

  lemma Skip(es: Edges, rt: Relation, start: File, stack: seq<Entry>, onStack: set<File>, done: set<File>)
    requires Trail(es, rt, start, stack, onStack, done) && |stack| > 0 && stack[|stack| - 1].left != []
    requires var left := stack[|stack| - 1].left; left[|left| - 1] in done
    ensures Trail(es, rt, start, Advanced(stack), onStack, done)
  {
    AdvancedOn(stack);
    forall j | 0 <= j < |stack|
      ensures Tried(es, Advanced(stack), done, j)
    {
      AdvanceTried(es, stack, done, j);
    }
  }

  lemma Push(es: Edges, rt: Relation, start: File, stack: seq<Entry>, onStack: set<File>, done: set<File>, w: File,
             left: seq<File>)
    requires IsReach(es, rt) && Trail(es, rt, start, stack, onStack, done) && |stack| > 0
      && stack[|stack| - 1].left != []
    requires stack[|stack| - 1].left[|stack[|stack| - 1].left| - 1] == w && w !in done && w !in onStack
    requires forall x :: x in left <==> (w, x) in es
    ensures Trail(es, rt, start, Advanced(stack) + [Entry(w, left)], onStack + {w}, done)
  {
    var top := stack[|stack| - 1];
    var t := Advanced(stack) + [Entry(w, left)];
    AdvancedOn(stack);
    forall x
      ensures x in onStack + {w} <==> On(t, x)
    {
      PushOn(Advanced(stack), Entry(w, left), x);
      assert On(Advanced(stack), x) <==> On(stack, x);
    }
    assert Tried(es, stack, done, |stack| - 1);
    assert (top.node, w) in es;
    RelRefl(es, rt, w);
    RelEdge(es, rt, top.node, w);
    forall i | 0 <= i < |stack|
      ensures (stack[i].node, w) in rt && stack[i].node != w
    {
      RelTrans(es, rt, stack[i].node, top.node, w);
      assert On(stack, stack[i].node);
    }
    forall j | 0 <= j < |t|
      ensures Tried(es, t, done, j)
    {
      if j < |stack| {
        assert Tried(es, stack, done, j);
        assert top.left == top.left[..|top.left| - 1] + [w];
      }
    }
  }

  lemma PushOn(stack: seq<Entry>, e: Entry, x: File)
    ensures On(stack + [e], x) <==> On(stack, x) || x == e.node
  {
    if On(stack, x) {
      var j :| 0 <= j < |stack| && stack[j].node == x;
      assert (stack + [e])[j].node == x;
    }
    if x == e.node {
      assert (stack + [e])[|stack|].node == x;
    }
  }

  lemma Pop(es: Edges, rt: Relation, start: File, stack: seq<Entry>, onStack: set<File>, done: set<File>)
    requires Trail(es, rt, start, stack, onStack, done) && |stack| > 0 && stack[|stack| - 1].left == []
    ensures
      var node := stack[|stack| - 1].node;
      && (forall w :: (node, w) in es ==> w in done)
      && Trail(es, rt, start, stack[..|stack| - 1], onStack - {node}, done + {node})
  {
    var top := stack[|stack| - 1];
    var t := stack[..|stack| - 1];
    assert Tried(es, stack, done, |stack| - 1);
    assert stack == t + [top];
    forall x
      ensures x in onStack - {top.node} <==> On(t, x)
    {
      PushOn(t, top, x);
      assert x in onStack <==> On(stack, x);
    }
    forall j | 0 <= j < |t|
      ensures Tried(es, t, done + {top.node}, j)
    {
      assert Tried(es, stack, done, j);
    }
  }

  lemma Begin(es: Edges, rt: Relation, start: File, left: seq<File>, done: set<File>)
    requires IsReach(es, rt) && forall x :: x in left <==> (start, x) in es
    ensures Trail(es, rt, start, [Entry(start, left)], {start}, done)
  {
    RelRefl(es, rt, start);
    assert On([Entry(start, left)], start) by { assert [Entry(start, left)][0].node == start; }
  }

  /** One start: either a cycle is found ahead of it, or the start joins the done files. */
  method SearchFrom(start: File, forward: map<File, set<File>>, done: set<File>, ghost rt: Relation)
    returns (found: bool, done': set<File>)
    requires IsReach(ForwardPairs(forward), rt) && Harmless(ForwardPairs(forward), done)
    ensures found ==> CycleAhead(ForwardPairs(forward), [start])
    ensures !found ==> Harmless(ForwardPairs(forward), done') && done + {start} <= done'
  {
    ghost var es := ForwardPairs(forward);
    ghost var all := {start} + (set e | e in es :: e.1);
    done' := done;
    var left := Listing(Targets(forward, start));
    var stack := [Entry(start, left)];
    var onStack := {start};
    Begin(es, rt, start, left, done);
    while stack != []
      invariant Harmless(es, done') && Trail(es, rt, start, stack, onStack, done')
      invariant done <= done' && (stack == [] ==> start in done')
      decreases all - (done' + onStack), Work(stack)
    {
      var node, neighbors := stack[|stack| - 1].node, stack[|stack| - 1].left;
      if neighbors != [] {
        var nxt := neighbors[|neighbors| - 1];
        assert Tried(es, stack, done', |stack| - 1) && nxt in neighbors && (node, nxt) in es;
        AdvancedOn(stack);
        if nxt in onStack {
          BackEdge(es, rt, start, stack, onStack, done', nxt);
          return true, done';
        }
        if nxt !in done' {
          left := Listing(Targets(forward, nxt));
          Push(es, rt, start, stack, onStack, done', nxt, left);
          assert nxt in all;
          onStack := onStack + {nxt};
          stack := Advanced(stack) + [Entry(nxt, left)];
        } else {
          Skip(es, rt, start, stack, onStack, done');
          stack := Advanced(stack);
        }
      } else {
        Pop(es, rt, start, stack, onStack, done');
        Finish(es, done', node);
        assert |stack| == 1 ==> node == start;
        assert done' + {node} + (onStack - {node}) >= done' + onStack;
        onStack := onStack - {node};
        done' := done' + {node};
        stack := stack[..|stack| - 1];
      }
    }
    return false, done';
  }

  /** True iff a cycle is reachable from the starts, whatever order successors are tried in. */
  method HasCycleFrom(starts: seq<File>, forward: map<File, set<File>>) returns (found: bool)
    ensures found <==> CycleAhead(ForwardPairs(forward), starts)
  {
    ghost var es := ForwardPairs(forward);
    ghost var rt := MakeReach(es);
    var done: set<File> := {};
    for k := 0 to |starts|
      invariant Harmless(es, done)
      invariant forall s :: s in starts[..k] ==> s in done
    {
      found, done := SearchFrom(starts[k], forward, done, rt);
      if found {
        return true;
      }
    }
    HarmlessAhead(es, done, starts);
    return false;
  }
}
