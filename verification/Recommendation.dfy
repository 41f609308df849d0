/**
 Choosing the action to recommend: independent of the order in which the actions were requested.
 */
module Recommendation {
  import opened Refinement

  /** Strings compared character by character, a prefix coming first. */
  predicate Before(a: string, b: string) {
    b != "" && (a == "" || a[0] < b[0] || (a[0] == b[0] && Before(a[1..], b[1..])))
  }

  lemma {:induction false} BeforeIsTotal(a: string, b: string)
    ensures a == b || Before(a, b) || Before(b, a)
    ensures !(Before(a, b) && Before(b, a))
    ensures !Before(a, a)
  {
    if a != "" && b != "" && a[0] == b[0] {
      BeforeIsTotal(a[1..], b[1..]);
      assert a == [a[0]] + a[1..] && b == [b[0]] + b[1..];
    }
    if a != "" {
      BeforeIsTotal(a[1..], a[1..]);
    }
  }

  lemma {:induction false} BeforeIsTransitive(a: string, b: string, c: string)
    requires Before(a, b) && Before(b, c)
    ensures Before(a, c)
  {
    if a != "" && a[0] == b[0] == c[0] {
      BeforeIsTransitive(a[1..], b[1..], c[1..]);
    }
  }

  /** Up to position `k` the two agree, and there `a` holds the smaller character. */
  ghost predicate SmallerAt(a: string, b: string, k: nat) {
    k < |a| && k < |b| && a[..k] == b[..k] && a[k] < b[k]
  }

  /** `a` ends before `b` does, or holds the smaller character at the first position where they differ. */
  ghost predicate DiffersFirst(a: string, b: string) {
    a < b || exists k: nat :: SmallerAt(a, b, k)
  }

  lemma SmallerInTail(a: string, b: string, k: nat)
    requires a != "" && b != "" && a[0] == b[0]
    ensures SmallerAt(a, b, k + 1) <==> SmallerAt(a[1..], b[1..], k)
  {
    if k < |a[1..]| && k < |b[1..]| {
      assert a[..k + 1] == [a[0]] + a[1..][..k] && b[..k + 1] == [b[0]] + b[1..][..k];
      assert a[1..][..k] == a[..k + 1][1..] && b[1..][..k] == b[..k + 1][1..];
    }
  }

  lemma DiffersInTail(a: string, b: string)
    requires a != "" && b != "" && a[0] == b[0]
    ensures DiffersFirst(a, b) <==> DiffersFirst(a[1..], b[1..])
  {
    assert a == [a[0]] + a[1..] && b == [b[0]] + b[1..];
    if k: nat :| SmallerAt(a, b, k) {
      SmallerInTail(a, b, k - 1);
    }
    if k: nat :| SmallerAt(a[1..], b[1..], k) {
      SmallerInTail(a, b, k);
    }
  }

  lemma {:induction false} BeforeIff(a: string, b: string)
    ensures Before(a, b) <==> DiffersFirst(a, b)
  {
    if a != "" && b != "" {
      if a[0] == b[0] {
        BeforeIff(a[1..], b[1..]);
        DiffersInTail(a, b);
      } else {
        assert a[0] < b[0] <==> SmallerAt(a, b, 0);
        assert forall k: nat :: SmallerAt(a, b, k) ==> k == 0 || a[..k][0] == b[..k][0];
      }
    }
  }

  /** Better: more risk-adjusted utility, then less loss, then more benefit, then by patch and at last by id. */
  predicate Better(a: Scored, b: Scored) {
    a.rau > b.rau || (a.rau == b.rau && (
      a.loss < b.loss || (a.loss == b.loss && (
        a.benefit > b.benefit || (a.benefit == b.benefit && (
          Before(a.patchHash, b.patchHash) || (a.patchHash == b.patchHash && Before(a.id, b.id))))))))
  }

  lemma BetterIsTotal(a: Scored, b: Scored)
    ensures a.id != b.id ==> Better(a, b) || Better(b, a)
    ensures !(Better(a, b) && Better(b, a))
  {
    BeforeIsTotal(a.patchHash, b.patchHash);
    BeforeIsTotal(a.id, b.id);
  }

  lemma BetterIsTransitive(a: Scored, b: Scored, c: Scored)
    requires Better(a, b) && Better(b, c)
    ensures Better(a, c)
  {
    if Before(a.patchHash, b.patchHash) && Before(b.patchHash, c.patchHash) {
      BeforeIsTransitive(a.patchHash, b.patchHash, c.patchHash);
    }
    if Before(a.id, b.id) && Before(b.id, c.id) {
      BeforeIsTransitive(a.id, b.id, c.id);
    }
  }

  /**
   `r` is no worse than `s`: no less risk-adjusted utility; at the same utility no more loss; then no less benefit; then
   no later patch; and at last no later id.
   */
  ghost predicate NoWorse(r: Scored, s: Scored) {
    && s.rau <= r.rau
    && (s.rau == r.rau ==> s.loss >= r.loss)
    && (s.rau == r.rau && s.loss == r.loss ==> s.benefit <= r.benefit)
    && (s.rau == r.rau && s.loss == r.loss && s.benefit == r.benefit ==>
          s.patchHash == r.patchHash || DiffersFirst(r.patchHash, s.patchHash))
    && (s.rau == r.rau && s.loss == r.loss && s.benefit == r.benefit && s.patchHash == r.patchHash ==>
          s.id == r.id || DiffersFirst(r.id, s.id))
  }

  lemma NoWorseIff(r: Scored, s: Scored)
    ensures !Better(s, r) <==> NoWorse(r, s)
  {
    BeforeIff(r.patchHash, s.patchHash);
    BeforeIff(s.patchHash, r.patchHash);
    BeforeIff(r.id, s.id);
    BeforeIff(s.id, r.id);
    BeforeIsTotal(r.patchHash, s.patchHash);
    BeforeIsTotal(r.id, s.id);
  }

  /** Who is considered: an action that proceeds, or if none does, one that is no rejection, or if all are, any. */
  predicate InPool(s: Scored, scored: seq<Scored>) {
    && s in scored
    && (s.decision == "proceed"
        || ((forall t <- scored :: t.decision != "proceed")
            && (s.decision != "reject" || forall t <- scored :: t.decision == "reject")))
  }

  ghost predicate IsBest(r: Scored, scored: seq<Scored>) {
    InPool(r, scored) && forall s <- scored :: InPool(s, scored) ==> NoWorse(r, s)
  }

  function Filter(scored: seq<Scored>, keep: Scored -> bool): (r: seq<Scored>)
    ensures forall s :: s in r <==> s in scored && keep(s)
  {
    if scored == [] then []
    else
      assert scored == [scored[0]] + scored[1..];
      (if keep(scored[0]) then [scored[0]] else []) + Filter(scored[1..], keep)
  }

  method LeastOf(pool: seq<Scored>) returns (r: Scored)
    requires pool != []
    ensures r in pool && forall s :: s in pool ==> !Better(s, r)
  {
    r := pool[0];
    BetterIsTotal(r, r);
    for i := 1 to |pool|
      invariant r in pool && forall s <- pool[..i] :: !Better(s, r)
    {
      var s := pool[i];
      BetterIsTotal(s, s);
      BetterIsTotal(s, r);
      if Better(s, r) {
        forall t | t in pool[..i] ensures !Better(t, s) {
          if Better(t, s) {
            BetterIsTransitive(t, s, r);
          }
        }
        r := s;
      }
      assert pool[..i + 1] == pool[..i] + [s];
    }
    assert pool[..|pool|] == pool;
  }

  method Recommended(scored: seq<Scored>) returns (r: Scored)
    requires scored != []
    ensures IsBest(r, scored)
    ensures (exists s <- scored :: s.decision == "proceed") ==> r.decision == "proceed"
    ensures (exists s <- scored :: s.decision != "reject") ==> r.decision != "reject"
  {
    var autonomous := Filter(scored, (s: Scored) => s.decision == "proceed");
    var proceedable := Filter(scored, (s: Scored) => s.decision != "reject");
    assert scored[0] in scored;
    var pool := if autonomous != [] then autonomous else if proceedable != [] then proceedable else scored;
    assert autonomous != [] ==> autonomous[0] in autonomous;
    assert proceedable != [] ==> proceedable[0] in proceedable;
    assert "proceed" != "reject" by {
      assert "proceed"[0] == 'p' && "reject"[0] == 'r';
    }
    r := LeastOf(pool);
    forall s | s in scored && InPool(s, scored) ensures NoWorse(r, s) {
      NoWorseIff(r, s);
    }
  }

  /**
   The recommendation does not depend on the order of the request: with distinct ids, the same actions in any order
   give the same one.
   */
  lemma RecommendationIgnoresOrder(a: seq<Scored>, b: seq<Scored>, r: Scored, q: Scored)
    requires forall s :: s in a <==> s in b
    requires forall s, t :: s in a && t in a && s.id == t.id ==> s == t
    requires IsBest(r, a) && IsBest(q, b)
    ensures r == q
  {
    assert InPool(q, a) && InPool(r, b);
    NoWorseIff(r, q);
    NoWorseIff(q, r);
    BetterIsTotal(r, q);
  }
}
