/**
 What a candidate is, for the purpose of recognising it again: the digest of the normalized content it leaves at
 every path it touches.
 */
module CandidateBinding {
  import opened Wrappers
  import opened Gate
  import opened Transaction

  // ---- Line ends --------------------------------------------------------------------------------------

  /** Returns followed by a newline become newlines. */
  function PairsReplaced(s: string): string {
    if s == "" then ""
    else if s[0] == '\r' && |s| > 1 && s[1] == '\n' then "\n" + PairsReplaced(s[2..])
    else [s[0]] + PairsReplaced(s[1..])
  }

  /** Returns become newlines. */
  function ReturnsReplaced(s: string): string {
    if s == "" then "" else [if s[0] == '\r' then '\n' else s[0]] + ReturnsReplaced(s[1..])
  }

  /** Line ends brought to a single newline. */
  function Normal(s: string): string {
    ReturnsReplaced(PairsReplaced(s))
  }

  /** What a text starts with that ends a line: a newline, a return, or both in this order. */
  function LineEnd(s: string): nat {
    if s == "" then 0
    else if s[0] == '\n' then 1
    else if s[0] != '\r' then 0
    else if |s| > 1 && s[1] == '\n' then 2 else 1
  }

  /** The lines of a text, without their ends; what follows the last end is a line, too, if only an empty one. */
  function LinesOf(s: string): (lines: seq<string>)
    ensures lines != [] && forall l <- lines :: '\n' !in l && '\r' !in l
  {
    if s == "" then [""]
    else if LineEnd(s) > 0 then [""] + LinesOf(s[LineEnd(s)..])
    else
      var rest := LinesOf(s[1..]);
      assert rest[0] in rest && forall l <- rest[1..] :: l in rest;
      [[s[0]] + rest[0]] + rest[1..]
  }

  function Joined(lines: seq<string>): string
    requires lines != []
  {
    if |lines| == 1 then lines[0] else lines[0] + ("\n" + Joined(lines[1..]))
  }

  lemma NormalEnd(s: string)
    requires LineEnd(s) > 0
    ensures Normal(s) == "\n" + Normal(s[LineEnd(s)..])
  {
    var rest := PairsReplaced(s[LineEnd(s)..]);
    assert PairsReplaced(s) == [if s[0] == '\r' && LineEnd(s) == 1 then '\r' else '\n'] + rest;
    assert PairsReplaced(s)[1..] == rest;
  }

  lemma NormalChar(s: string)
    requires s != "" && LineEnd(s) == 0
    ensures Normal(s) == [s[0]] + Normal(s[1..])
  {
    assert PairsReplaced(s)[1..] == PairsReplaced(s[1..]);
  }

  /** Normalizing joins the lines with single newlines. */
  lemma {:induction false} NormalJoinsLines(s: string)
    ensures Normal(s) == Joined(LinesOf(s))
  {
    if s != "" {
      if LineEnd(s) > 0 {
        var rest := s[LineEnd(s)..];
        NormalEnd(s);
        NormalJoinsLines(rest);
        assert ([""] + LinesOf(rest))[1..] == LinesOf(rest);
        assert "" + ("\n" + Joined(LinesOf(rest))) == "\n" + Joined(LinesOf(rest));
      } else {
        var rest := LinesOf(s[1..]);
        NormalChar(s);
        NormalJoinsLines(s[1..]);
        assert ([[s[0]] + rest[0]] + rest[1..])[1..] == rest[1..];
        if |rest| > 1 {
          Regroup([s[0]], rest[0], "\n" + Joined(rest[1..]));
        }
      }
    }
  }

  /** Where the first newline stands. */
  lemma NewlineAfter(line: string, rest: string)
    requires '\n' !in line
    ensures var whole := line + ("\n" + rest);
      && |line| < |whole| && whole[|line|] == '\n' && (forall k :: 0 <= k < |line| ==> whole[k] != '\n')
      && whole[..|line|] == line && whole[|line| + 1..] == rest
  {
    var whole := line + ("\n" + rest);
    forall k | 0 <= k < |line| ensures whole[k] != '\n' {
      assert line[k] in line;
    }
  }

  lemma FirstNewline(line: string, a: string, other: string, b: string)
    requires '\n' !in line && '\n' !in other && line + ("\n" + a) == other + ("\n" + b)
    ensures line == other && a == b
  {
    NewlineAfter(line, a);
    NewlineAfter(other, b);
  }

  lemma NewlineIff(a: seq<string>)
    requires a != [] && '\n' !in a[0]
    ensures '\n' in Joined(a) <==> |a| > 1
  {
    if |a| > 1 {
      NewlineAfter(a[0], Joined(a[1..]));
    }
  }

  lemma {:induction false} JoinedTells(a: seq<string>, b: seq<string>)
    requires a != [] && b != [] && (forall l <- a :: '\n' !in l) && forall l <- b :: '\n' !in l
    requires Joined(a) == Joined(b)
    ensures a == b
    decreases |a|
  {
    assert a[0] in a && b[0] in b;
    NewlineIff(a);
    NewlineIff(b);
    if |a| > 1 {
      assert (forall l <- a[1..] :: l in a) && forall l <- b[1..] :: l in b;
      FirstNewline(a[0], Joined(a[1..]), b[0], Joined(b[1..]));
      JoinedTells(a[1..], b[1..]);
      assert a == [a[0]] + a[1..] && b == [b[0]] + b[1..];
    }
  }

  /** Texts normalize alike exactly when they have the same lines. */
  lemma NormalIsLines(a: string, b: string)
    ensures Normal(a) == Normal(b) <==> LinesOf(a) == LinesOf(b)
  {
    NormalJoinsLines(a);
    NormalJoinsLines(b);
    if Normal(a) == Normal(b) {
      JoinedTells(LinesOf(a), LinesOf(b));
    }
  }

  /** Every way to end a line becomes a newline, and nothing else changes. */
  lemma {:induction false} NormalEnds(p: string, t: string)
    requires '\r' !in p
    ensures Normal(p + ("\r\n" + t)) == p + ("\n" + Normal(t))
    ensures Normal(p + ("\n" + t)) == p + ("\n" + Normal(t))
    ensures t == "" || t[0] != '\n' ==> Normal(p + ("\r" + t)) == p + ("\n" + Normal(t))
    ensures Normal(p) == p
    decreases |p|
  {
    if p == "" {
      assert ("\r\n" + t)[2..] == t && ("\n" + t)[1..] == t && ("\r" + t)[1..] == t;
      NormalEnd("\r\n" + t);
      NormalEnd("\n" + t);
      NormalEnd("\r" + t);
      assert p + ("\r\n" + t) == "\r\n" + t && p + ("\n" + t) == "\n" + t && p + ("\r" + t) == "\r" + t;
      assert p + ("\n" + Normal(t)) == "\n" + Normal(t);
    } else {
      NormalEnds(p[1..], t);
      NormalStep(p, "\r\n" + t);
      NormalStep(p, "\n" + t);
      NormalStep(p, "\r" + t);
      NormalStep(p, "");
      assert p + "" == p && p[1..] + "" == p[1..];
      assert p == [p[0]] + p[1..];
      Regroup([p[0]], p[1..], "\n" + Normal(t));
    }
  }

  lemma NormalStep(p: string, s: string)
    requires p != "" && p[0] != '\r'
    ensures Normal(p + s) == [p[0]] + Normal(p[1..] + s)
  {
    assert (p + s)[1..] == p[1..] + s;
    if LineEnd(p + s) > 0 {
      NormalEnd(p + s);
    } else {
      NormalChar(p + s);
    }
  }

  // ---- Bindings ---------------------------------------------------------------------------------------

  /** What is digested: a deletion is marked so that it cannot be taken for any text. */
  function Payload(content: Option<string>): string {
    if content.None? then "\0deleted" else "\U{01}text\0" + Normal(content.value)
  }

  /** Paths are recognised by their identity, which on some systems ignores case; no two paths may share one. */
  predicate Injective(identity: string -> string, paths: set<string>) {
    forall p, q :: p in paths && q in paths && identity(p) == identity(q) ==> p == q
  }

  function DigestsOf(hash: string -> string, identity: string -> string, after: After, paths: set<string>):
    map<string, string>
    requires paths <= after.Keys && Injective(identity, paths)
  {
    map p | p in paths :: identity(p) := hash(Payload(after[p]))
  }

  /** The binding of what a candidate leaves behind, for a given hash in hexadecimal; none if two paths are the same. */
  function BindingOf(hash: string -> string, identity: string -> string, after: After): Option<Binding> {
    if Injective(identity, after.Keys) then
      Some(Binding(BINDING_ALGORITHM, DigestsOf(hash, identity, after, after.Keys)))
    else None
  }

  lemma DigestAdded(hash: string -> string, identity: string -> string, after: After, paths: set<string>, p: string)
    requires paths <= after.Keys && Injective(identity, paths) && p in after && p !in paths
    requires identity(p) !in DigestsOf(hash, identity, after, paths)
    ensures Injective(identity, paths + {p})
    ensures DigestsOf(hash, identity, after, paths + {p})
         == DigestsOf(hash, identity, after, paths)[identity(p) := hash(Payload(after[p]))]
  {
    forall q | q in paths ensures identity(q) != identity(p) {
      assert identity(q) in DigestsOf(hash, identity, after, paths);
    }
  }

  /** Digests path by path, and gives up on a path whose identity is already bound. */
  method Bind(hash: string -> string, identity: string -> string, after: After) returns (binding: Option<Binding>)
    ensures binding == BindingOf(hash, identity, after)
  {
    var files: map<string, string> := map[];
    ghost var bound: set<string> := {};
    var rest := after.Keys;
    while rest != {}
      invariant rest <= after.Keys && bound == after.Keys - rest
      invariant Injective(identity, bound) && files == DigestsOf(hash, identity, after, bound)
      decreases rest
    {
      var p :| p in rest;
      rest := rest - {p};
      if identity(p) in files {
        return None;
      }
      DigestAdded(hash, identity, after, bound, p);
      bound := bound + {p};
      files := files[identity(p) := hash(Payload(after[p]))];
    }
    assert bound == after.Keys;
    return Some(Binding(BINDING_ALGORITHM, files));
  }

  /** The hash tells apart what the two candidates leave at the paths they share. */
  ghost predicate Distinguishes(hash: string -> string, identity: string -> string, a: After, b: After) {
    forall p, q :: p in a && q in b && identity(p) == identity(q) && hash(Payload(a[p])) == hash(Payload(b[q])) ==>
      Payload(a[p]) == Payload(b[q])
  }

  lemma {:induction false} NormalHasNoReturns(s: string)
    ensures '\r' !in Normal(s)
    decreases |s|
  {
    if s != "" {
      if LineEnd(s) > 0 {
        NormalEnd(s);
        NormalHasNoReturns(s[LineEnd(s)..]);
      } else {
        NormalChar(s);
        NormalHasNoReturns(s[1..]);
      }
    }
  }

  /** Normalizing twice changes nothing more. */
  lemma NormalIsIdempotent(s: string)
    ensures Normal(Normal(s)) == Normal(s)
  {
    NormalHasNoReturns(s);
    NormalEnds(Normal(s), "");
  }

  /** Both deletions, or both texts with the same lines. */
  predicate SameContent(a: Option<string>, b: Option<string>) {
    (a.None? && b.None?) || (a.Some? && b.Some? && LinesOf(a.value) == LinesOf(b.value))
  }

  lemma PayloadIsExact(a: Option<string>, b: Option<string>)
    ensures Payload(a) == Payload(b) <==> SameContent(a, b)
  {
    var tag := "\U{01}text\0";
    if a.Some? && b.Some? {
      NormalIsLines(a.value, b.value);
    }
    if a.Some? && b.Some? && Payload(a) == Payload(b) {
      assert Normal(a.value) == Payload(a)[|tag|..];
      assert Normal(b.value) == Payload(b)[|tag|..];
    } else if a.Some? {
      assert Payload(a)[0] == '\U{01}';
    } else if b.Some? {
      assert Payload(b)[0] == '\U{01}';
    }
  }

  /** What is bound is found again: a row that stores the binding of a candidate binds that candidate. */
  lemma BoundIsRead(hash: string -> string, identity: string -> string, after: After, r: Row)
    requires after != map[] && Injective(identity, after.Keys)
    requires forall s :: |hash(s)| == 64 && forall i :: 0 <= i < 64 ==> hash(s)[i] in "0123456789abcdef"
    requires r.content.Object? && r.content.candidate == BindingOf(hash, identity, after)
    ensures Gate.CandidateBinding(r) == BindingOf(hash, identity, after)
  {
    var files := DigestsOf(hash, identity, after, after.Keys);
    var p :| p in after;
    assert identity(p) in files;
    forall i | i in files ensures IsDigest(files[i]) {
      var q :| q in after && identity(q) == i;
      assert files[i] == hash(Payload(after[q]));
    }
  }

  /** `f` holds the digest of every path under its identity, and nothing else. */
  ghost predicate Digests(hash: string -> string, identity: string -> string, a: After, f: map<string, string>) {
    && (forall p :: p in a ==> identity(p) in f && f[identity(p)] == hash(Payload(a[p])))
    && forall i :: i in f ==> exists p :: p in a && identity(p) == i
  }

  ghost predicate Part(f: map<string, string>, g: map<string, string>) {
    forall i :: i in f ==> i in g && f[i] == g[i]
  }

  /** The path is a path of the candidate, with this content. */
  ghost predicate Leaves(identity: string -> string, b: After, i: string, content: Option<string>) {
    exists q :: q in b && identity(q) == i && SameContent(content, b[q])
  }

  /** Every path of the one is a path of the other, with the same content. */
  ghost predicate Within(identity: string -> string, a: After, b: After) {
    forall p :: p in a ==> Leaves(identity, b, identity(p), a[p])
  }

  lemma LeavesIff(hash: string -> string, identity: string -> string, a: After, b: After, f: map<string, string>,
                  p: string)
    requires Distinguishes(hash, identity, a, b) && Digests(hash, identity, b, f) && p in a
    ensures Leaves(identity, b, identity(p), a[p])
      <==> identity(p) in f && f[identity(p)] == hash(Payload(a[p]))
  {
    if identity(p) in f {
      var q :| q in b && identity(q) == identity(p);
      PayloadIsExact(a[p], b[q]);
    }
    if q :| q in b && identity(q) == identity(p) && SameContent(a[p], b[q]) {
      PayloadIsExact(a[p], b[q]);
    }
  }

  lemma WithinIff(hash: string -> string, identity: string -> string, a: After, b: After, fa: map<string, string>,
                  fb: map<string, string>)
    requires Distinguishes(hash, identity, a, b)
    requires Digests(hash, identity, a, fa) && Digests(hash, identity, b, fb)
    ensures Within(identity, a, b) <==> Part(fa, fb)
  {
    forall p | p in a
      ensures Leaves(identity, b, identity(p), a[p]) <==> identity(p) in fb && fb[identity(p)] == fa[identity(p)]
    {
      LeavesIff(hash, identity, a, b, fb, p);
    }
    if Within(identity, a, b) {
      forall i | i in fa ensures i in fb && fa[i] == fb[i] {
        var p :| p in a && identity(p) == i;
        assert Leaves(identity, b, identity(p), a[p]);
      }
    }
  }

  lemma DigestsAreBound(hash: string -> string, identity: string -> string, a: After)
    requires Injective(identity, a.Keys)
    ensures Digests(hash, identity, a, DigestsOf(hash, identity, a, a.Keys))
  {
    var f := DigestsOf(hash, identity, a, a.Keys);
    forall p | p in a ensures identity(p) in f && f[identity(p)] == hash(Payload(a[p])) {
    }
  }

  lemma SameMaps(f: map<string, string>, g: map<string, string>)
    ensures f == g <==> Part(f, g) && Part(g, f)
  {
  }

  /**
   A candidate has a binding exactly when no two of its paths are the same path; two such candidates have the same
   binding exactly when they touch the same paths and leave the same content up to line ends.
   */
  lemma BindingIdentifies(hash: string -> string, identity: string -> string, a: After, b: After)
    requires Distinguishes(hash, identity, a, b)
    ensures BindingOf(hash, identity, a).Some? <==> Injective(identity, a.Keys)
    ensures Injective(identity, a.Keys) && Injective(identity, b.Keys) ==>
      (BindingOf(hash, identity, a) == BindingOf(hash, identity, b)
       <==> Within(identity, a, b) && Within(identity, b, a))
  {
    if Injective(identity, a.Keys) && Injective(identity, b.Keys) {
      BoundAlikeIff(hash, identity, a, b);
    }
  }

  lemma BoundAlikeIff(hash: string -> string, identity: string -> string, a: After, b: After)
    requires Distinguishes(hash, identity, a, b) && Injective(identity, a.Keys) && Injective(identity, b.Keys)
    ensures DigestsOf(hash, identity, a, a.Keys) == DigestsOf(hash, identity, b, b.Keys)
      <==> Within(identity, a, b) && Within(identity, b, a)
  {
    DigestsAreBound(hash, identity, a);
    DigestsAreBound(hash, identity, b);
    DistinguishesBack(hash, identity, a, b);
    var fa, fb := DigestsOf(hash, identity, a, a.Keys), DigestsOf(hash, identity, b, b.Keys);
    assert Within(identity, a, b) <==> Part(fa, fb) by {
      WithinIff(hash, identity, a, b, fa, fb);
    }
    assert Within(identity, b, a) <==> Part(fb, fa) by {
      WithinIff(hash, identity, b, a, fb, fa);
    }
    SameMaps(fa, fb);
  }

  lemma DistinguishesBack(hash: string -> string, identity: string -> string, a: After, b: After)
    requires Distinguishes(hash, identity, a, b)
    ensures Distinguishes(hash, identity, b, a)
  {
  }
}
