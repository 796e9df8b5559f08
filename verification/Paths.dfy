/**
 Paths through a directed graph given by its step relation, and the two questions
 the membership code asks of one: what can be reached, and what lies on a cycle.
 */
module Paths {

  type Step<!T(!new)> = (T, T) -> bool

  /** `p` follows `step` from its first node to its last. */
  ghost predicate IsPath<T(!new)>(step: Step<T>, p: seq<T>)
  {
    && |p| > 0
    && forall j, k :: 0 <= j < |p| && k == j + 1 < |p| ==> step(p[j], p[k])
  }

  ghost predicate PathFrom<T(!new)>(step: Step<T>, a: T, b: T, p: seq<T>)
  {
    IsPath(step, p) && p[0] == a && p[|p| - 1] == b
  }

  /** `b` is `a`, or is some steps away from it. */
  ghost predicate Reach<T(!new)>(step: Step<T>, a: T, b: T)
  {
    exists p :: PathFrom(step, a, b, p)
  }

  /** A path of at least one step leads from `a` back to `a`. */
  ghost predicate OnCycle<T(!new)>(step: Step<T>, a: T)
  {
    exists p :: PathFrom(step, a, a, p) && |p| > 1
  }

  lemma ReachSelf<T(!new)>(step: Step<T>, a: T)
    ensures Reach(step, a, a)
  {
    assert PathFrom(step, a, a, [a]);
  }

  lemma ReachStep<T(!new)>(step: Step<T>, a: T, b: T)
    requires step(a, b)
    ensures Reach(step, a, b)
  {
    assert PathFrom(step, a, b, [a, b]);
  }

  lemma JoinPaths<T(!new)>(step: Step<T>, a: T, b: T, c: T, p: seq<T>, q: seq<T>)
    requires PathFrom(step, a, b, p) && PathFrom(step, b, c, q)
    ensures PathFrom(step, a, c, p + q[1..])
  {
    var r := p + q[1..];
    forall j, k | 0 <= j < |r| && k == j + 1 < |r|
      ensures step(r[j], r[k])
    {
      if k < |p| {
        assert r[j] == p[j] && r[k] == p[k];
      } else {
        assert r[j] == q[k - |p|] && r[k] == q[k - |p| + 1];
      }
    }
  }

  lemma ReachJoin<T(!new)>(step: Step<T>, a: T, b: T, c: T)
    requires Reach(step, a, b) && Reach(step, b, c)
    ensures Reach(step, a, c)
  {
    var p :| PathFrom(step, a, b, p);
    var q :| PathFrom(step, b, c, q);
    JoinPaths(step, a, b, c, p, q);
  }

  lemma ReachThenStep<T(!new)>(step: Step<T>, a: T, b: T, c: T)
    requires Reach(step, a, b) && step(b, c)
    ensures Reach(step, a, c)
  {
    ReachStep(step, b, c);
    ReachJoin(step, a, b, c);
  }

  /** Two different nodes that reach each other are both on a cycle. */
  lemma MutualReachIsCycle<T(!new)>(step: Step<T>, a: T, b: T)
    requires a != b && Reach(step, a, b) && Reach(step, b, a)
    ensures OnCycle(step, a)
  {
    var p :| PathFrom(step, a, b, p);
    var q :| PathFrom(step, b, a, q);
    JoinPaths(step, a, b, a, p, q);
    assert |p| > 1;
  }

  lemma SelfStepIsCycle<T(!new)>(step: Step<T>, a: T)
    requires step(a, a)
    ensures OnCycle(step, a)
  {
    assert PathFrom(step, a, a, [a, a]);
  }

  /** The nodes of a path reach its end, and are reached from its start. */
  lemma PathNodeReach<T(!new)>(step: Step<T>, a: T, b: T, p: seq<T>, k: nat)
    requires PathFrom(step, a, b, p) && k < |p|
    ensures Reach(step, a, p[k]) && Reach(step, p[k], b)
  {
    assert PathFrom(step, a, p[k], p[..k + 1]);
    assert PathFrom(step, p[k], b, p[k..]);
  }

  /** What a closed set of nodes contains, everything reached from it is in too. */
  lemma {:induction false} ClosedUnderReach<T(!new)>(step: Step<T>, inside: iset<T>, a: T, b: T)
    requires a in inside && Reach(step, a, b)
    requires forall x, y :: x in inside && step(x, y) ==> y in inside
    ensures b in inside
  {
    var p :| PathFrom(step, a, b, p);
    for k := 1 to |p|
      invariant forall j :: 0 <= j < k ==> p[j] in inside
    {
      assert step(p[k - 1], p[k]);
    }
  }
}
