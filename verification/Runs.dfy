/** Runs of a transition relation: finite chains of steps, and what every step keeps. */
module Runs {

  ghost predicate Took<C>(rel: (C, C) -> bool, t: seq<C>, i: nat) {
    i + 1 < |t| && rel(t[i], t[i + 1])
  }

  ghost predicate IsRun<C>(rel: (C, C) -> bool, t: seq<C>) {
    |t| > 0 && forall i: nat :: i < |t| - 1 ==> Took(rel, t, i)
  }

  /** `b` can be reached from `a`. */
  ghost predicate Leads<C(!new)>(rel: (C, C) -> bool, a: C, b: C) {
    exists t: seq<C> :: IsRun(rel, t) && t[0] == a && t[|t| - 1] == b
  }

  lemma Stays<C(!new)>(rel: (C, C) -> bool, a: C)
    ensures Leads(rel, a, a)
  {
    assert IsRun(rel, [a]);
  }

  lemma Advance<C(!new)>(rel: (C, C) -> bool, a: C, b: C, c: C)
    requires Leads(rel, a, b) && rel(b, c)
    ensures Leads(rel, a, c)
  {
    var t: seq<C> :| IsRun(rel, t) && t[0] == a && t[|t| - 1] == b;
    var u := t + [c];
    forall i: nat | i < |u| - 1
      ensures Took(rel, u, i)
    {
      if i < |t| - 1 {
        assert Took(rel, t, i);
      }
    }
    assert IsRun(rel, u);
  }

  /** What holds at the start and is kept by every step holds wherever a run gets. */
  lemma Invariant<C(!new)>(rel: (C, C) -> bool, inv: C -> bool, a: C, b: C)
    requires inv(a) && Leads(rel, a, b)
    requires forall x, y :: inv(x) && rel(x, y) ==> inv(y)
    ensures inv(b)
  {
    var t: seq<C> :| IsRun(rel, t) && t[0] == a && t[|t| - 1] == b;
    InvariantUpTo(rel, inv, t, |t| - 1);
  }

  lemma {:induction false} InvariantUpTo<C(!new)>(rel: (C, C) -> bool, inv: C -> bool, t: seq<C>, n: nat)
    requires IsRun(rel, t) && n < |t| && inv(t[0])
    requires forall x, y :: inv(x) && rel(x, y) ==> inv(y)
    ensures inv(t[n])
  {
    if n > 0 {
      InvariantUpTo(rel, inv, t, n - 1);
      assert Took(rel, t, n - 1);
    }
  }

  /** `b` is where `k` steps from `a` may get. */
  ghost predicate LeadsIn<C(!new)>(rel: (C, C) -> bool, k: nat, a: C, b: C) {
    if k == 0 then a == b else exists c :: LeadsIn(rel, k - 1, a, c) && rel(c, b)
  }

  /** What holds at the start and moves on with every step holds of where `k` steps get. */
  lemma {:induction false} InvariantIn<C(!new)>(rel: (C, C) -> bool, inv: (nat, C) -> bool, k: nat, a: C, b: C)
    requires inv(0, a) && LeadsIn(rel, k, a, b)
    requires forall j: nat, x, y :: inv(j, x) && rel(x, y) ==> inv(j + 1, y)
    ensures inv(k, b)
  {
    if k > 0 {
      var c :| LeadsIn(rel, k - 1, a, c) && rel(c, b);
      InvariantIn(rel, inv, k - 1, a, c);
    }
  }

  /** A deterministic system that comes to rest comes to rest in one place. */
  lemma RestIsUnique<C(!new)>(rel: (C, C) -> bool, a: C, b: C, c: C)
    requires Leads(rel, a, b) && Leads(rel, a, c)
    requires forall x, y, z :: rel(x, y) && rel(x, z) ==> y == z
    requires rel(b, b) && rel(c, c)
    ensures b == c
  {
    var t: seq<C> :| IsRun(rel, t) && t[0] == a && t[|t| - 1] == b;
    var u: seq<C> :| IsRun(rel, u) && u[0] == a && u[|u| - 1] == c;
    if |t| <= |u| {
      RunsAgree(rel, t, u, |t| - 1);
      RestStays(rel, u, |t| - 1, |u| - 1);
    } else {
      RunsAgree(rel, u, t, |u| - 1);
      RestStays(rel, t, |u| - 1, |t| - 1);
    }
  }

  lemma {:induction false} RunsAgree<C(!new)>(rel: (C, C) -> bool, t: seq<C>, u: seq<C>, n: nat)
    requires IsRun(rel, t) && IsRun(rel, u) && t[0] == u[0] && n < |t| && n < |u|
    requires forall x, y, z :: rel(x, y) && rel(x, z) ==> y == z
    ensures t[n] == u[n]
  {
    if n > 0 {
      RunsAgree(rel, t, u, n - 1);
      assert Took(rel, t, n - 1) && Took(rel, u, n - 1);
    }
  }

  lemma {:induction false} RestStays<C(!new)>(rel: (C, C) -> bool, t: seq<C>, i: nat, n: nat)
    requires IsRun(rel, t) && i <= n < |t| && rel(t[i], t[i])
    requires forall x, y, z :: rel(x, y) && rel(x, z) ==> y == z
    ensures t[n] == t[i]
  {
    if i < n {
      RestStays(rel, t, i, n - 1);
      assert Took(rel, t, n - 1);
    }
  }
}
