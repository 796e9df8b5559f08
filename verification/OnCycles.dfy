/**
 Which groups lie on a membership cycle: Tarjan's strongly connected components
 over the graph of the groups read, keeping the components of more than one node
 and the single nodes that name themselves.
 */
module OnCycles {
  import opened Basics
  import opened Paths

  /** `g[v]` lists the nodes that node `v` points at. */
  type Graph = seq<seq<nat>>

  predicate ValidGraph(g: Graph)
  {
    forall v: nat, j: nat :: v < |g| && 0 <= j < |g[v]| ==> g[v][j] < |g|
  }

  ghost function StepOf(g: Graph): Step<nat>
  {
    (a: nat, b: nat) => a < |g| && b in g[a]
  }

  // ----- the state of the walk, as a value

  /** `idx` is the visiting order, -1 for a node not visited yet. */
  datatype Walk = Walk(idx: seq<int>, stack: seq<nat>, on: seq<bool>, counter: nat)

  ghost predicate Visited(s: Walk, v: nat)
  {
    v < |s.idx| && s.idx[v] >= 0
  }

  /** Visited, and popped off the stack with its whole component. */
  ghost predicate Done(s: Walk, v: nat)
  {
    Visited(s, v) && v !in s.stack
  }

  ghost predicate Shape(g: Graph, s: Walk)
  {
    && ValidGraph(g)
    && |s.idx| == |g| == |s.on|
    && (forall v: nat :: v < |g| ==> s.idx[v] < s.counter)
    && (forall k: nat :: k < |s.stack| ==> Visited(s, s.stack[k]))
    && (forall j: nat, k: nat :: j < k < |s.stack| ==> s.idx[s.stack[j]] < s.idx[s.stack[k]])
  }

  /** `v` reaches a node that is still being walked and is no newer than it. */
  ghost predicate Anchored(g: Graph, s: Walk, open: set<nat>, v: nat)
    requires |s.idx| == |g|
  {
    Visited(s, v) &&
    exists y: nat :: y in open && Visited(s, y) && s.idx[y] <= s.idx[v] && Reach(StepOf(g), v, y)
  }

  /** What holds between any two steps of the walk; `open` is the chain of calls to connect. */
  ghost predicate Inv(g: Graph, s: Walk, open: set<nat>)
  {
    && Shape(g, s)
    && (forall v: nat :: v in open ==> v in s.stack)
    && (forall v: nat, w: nat :: Done(s, v) && w in g[v] ==> Done(s, w))
    && (forall v: nat, w: nat :: Visited(s, v) && v !in open && w in g[v] ==> Visited(s, w))
    && (forall x: nat, y: nat :: x in open && y in s.stack && s.idx[x] <= s.idx[y] ==> Reach(StepOf(g), x, y))
    && (forall x: nat {:trigger Anchored(g, s, open, x)} :: x in s.stack ==> Anchored(g, s, open, x))
    && (forall v: nat :: v < |g| ==> (s.on[v] <==> Done(s, v) && OnCycle(StepOf(g), v)))
  }

  ghost predicate Extends(s: Walk, t: Walk)
  {
    && |s.idx| == |t.idx|
    && s.stack <= t.stack
    && s.counter <= t.counter
    && (forall v: nat :: Visited(s, v) ==> t.idx[v] == s.idx[v])
    && (forall v: nat :: Visited(t, v) && !Visited(s, v) ==> t.idx[v] >= s.counter)
    && (forall v: nat :: Done(s, v) ==> Done(t, v))
  }

  lemma ExtendsTrans(s: Walk, t: Walk, u: Walk)
    requires Extends(s, t) && Extends(t, u)
    ensures Extends(s, u)
  {
  }

  /** Every edge from the stack above `k` to the stack below `base` is accounted for by `low`. */
  ghost predicate Covers(g: Graph, s: Walk, k: nat, base: nat, low: int)
    requires Shape(g, s) && base <= |s.stack|
  {
    forall i: nat, y: nat :: k <= i < |s.stack| && y in g[s.stack[i]] && y in s.stack[..base] ==> low <= s.idx[y]
  }

  /** `low` is the number of a node on the stack that `v` reaches. */
  ghost predicate Attained(g: Graph, s: Walk, v: nat, low: int)
    requires Shape(g, s)
  {
    exists z: nat :: z in s.stack && s.idx[z] == low && Reach(StepOf(g), v, z)
  }

  // ----- the steps of the walk

  function Opened(s: Walk, v: nat): Walk
    requires v < |s.idx|
  {
    s.(idx := s.idx[v := s.counter], stack := s.stack + [v], counter := s.counter + 1)
  }

  lemma OpenShape(g: Graph, s: Walk, v: nat)
    requires Shape(g, s) && v < |g| && s.idx[v] < 0
    ensures Shape(g, Opened(s, v)) && Extends(s, Opened(s, v))
    ensures forall x: nat :: x in Opened(s, v).stack <==> x in s.stack || x == v
    ensures forall x: nat :: Visited(Opened(s, v), x) <==> Visited(s, x) || x == v
    ensures forall x: nat :: Done(Opened(s, v), x) <==> Done(s, x)
  {
    var t := Opened(s, v);
    assert t.stack[|s.stack|] == v;
    assert forall x: nat :: x in t.stack <==> x in s.stack || x == v;
  }

  lemma OpenAnchors(g: Graph, s: Walk, open: set<nat>, v: nat, x: nat)
    requires Shape(g, s) && v < |g| && s.idx[v] < 0
    requires x == v || Anchored(g, s, open, x)
    ensures Anchored(g, Opened(s, v), open + {v}, x)
  {
    var t := Opened(s, v);
    if x == v {
      ReachSelf(StepOf(g), v);
      assert v in open + {v} && Visited(t, v);
    } else {
      var y: nat :| y in open && Visited(s, y) && s.idx[y] <= s.idx[x] && Reach(StepOf(g), x, y);
      assert y in open + {v} && Visited(t, y);
    }
  }

  lemma OpenKeeps(g: Graph, s: Walk, open: set<nat>, v: nat)
    requires Inv(g, s, open) && v < |g| && s.idx[v] < 0
    requires forall y: nat :: y in open ==> Reach(StepOf(g), y, v)
    ensures Inv(g, Opened(s, v), open + {v})
  {
    var t := Opened(s, v);
    OpenShape(g, s, v);
    ReachSelf(StepOf(g), v);
    forall x: nat {:trigger Anchored(g, t, open + {v}, x)} | x in t.stack
      ensures Anchored(g, t, open + {v}, x)
    {
      assert x == v || Anchored(g, s, open, x);
      OpenAnchors(g, s, open, v, x);
    }
  }

  /** Leaving a node on the stack: it reaches an older node there, so its component is not complete. */
  lemma LeaveKeeps(g: Graph, s: Walk, open: set<nat>, v: nat, low: int)
    requires Inv(g, s, open + {v}) && v !in open
    requires forall w: nat :: w in g[v] ==> Visited(s, w)
    requires Attained(g, s, v, low) && low < s.idx[v]
    ensures Inv(g, s, open)
  {
    var step := StepOf(g);
    var z: nat :| z in s.stack && s.idx[z] == low && Reach(step, v, z);
    assert Anchored(g, s, open + {v}, z);
    var older: nat :| older in open + {v} && Visited(s, older) && s.idx[older] <= low && Reach(step, z, older);
    assert older in open;
    ReachJoin(step, v, z, older);
    forall x: nat {:trigger Anchored(g, s, open, x)} | x in s.stack
      ensures Anchored(g, s, open, x)
    {
      assert Anchored(g, s, open + {v}, x);
      var y: nat :| y in open + {v} && Visited(s, y) && s.idx[y] <= s.idx[x] && Reach(step, x, y);
      if y == v {
        ReachJoin(step, x, v, older);
        assert older in open && s.idx[older] <= s.idx[x];
      }
    }
  }

  /** What is on the stack from `v` up, when nothing there points below `v`. */
  ghost predicate Sealed(g: Graph, s: Walk, open: set<nat>, base: nat)
  {
    && base < |s.stack|
    && s.stack[base] !in open
    && Inv(g, s, open + {s.stack[base]})
    && (forall y: nat :: y in open ==> y in s.stack[..base])
    && (forall w: nat :: w in g[s.stack[base]] ==> Visited(s, w))
    && Covers(g, s, base, base, s.idx[s.stack[base]])
  }

  lemma StackSplit(g: Graph, s: Walk, base: nat, x: nat)
    requires Shape(g, s) && base < |s.stack|
    ensures x in s.stack <==> x in s.stack[..base] || x in s.stack[base..]
    ensures x in s.stack[..base] ==> x !in s.stack[base..] && s.idx[x] < s.idx[s.stack[base]]
    ensures x in s.stack[base..] ==> Visited(s, x) && s.idx[s.stack[base]] <= s.idx[x]
  {
    assert s.stack == s.stack[..base] + s.stack[base..];
    if x in s.stack[..base] {
      var i: nat :| i < base && s.stack[i] == x;
    }
    if x in s.stack[base..] {
      var j: nat :| base <= j < |s.stack| && s.stack[j] == x;
    }
  }

  /** The stack from `base` up, with what is done, has no edge out. */
  lemma SealedIsClosed(g: Graph, s: Walk, open: set<nat>, base: nat, x: nat, y: nat)
    requires Sealed(g, s, open, base)
    requires (x in s.stack[base..] || Done(s, x)) && StepOf(g)(x, y)
    ensures y in s.stack[base..] || Done(s, y)
  {
    StackSplit(g, s, base, x);
    StackSplit(g, s, base, y);
    if x in s.stack[base..] {
      var i: nat :| base <= i < |s.stack| && s.stack[i] == x;
      assert Visited(s, y);
    }
  }

  ghost function Above(s: Walk, base: nat): iset<nat>
    requires base <= |s.stack|
  {
    iset x: nat | x in s.stack[base..] || Done(s, x)
  }

  lemma SealedReaches(g: Graph, s: Walk, open: set<nat>, base: nat, x: nat, y: nat)
    requires Sealed(g, s, open, base)
    requires x in s.stack[base..] && Reach(StepOf(g), x, y)
    ensures y in s.stack[base..] || Done(s, y)
  {
    forall a: nat, b: nat | a in Above(s, base) && StepOf(g)(a, b)
      ensures b in Above(s, base)
    {
      SealedIsClosed(g, s, open, base, a, b);
    }
    ClosedUnderReach(StepOf(g), Above(s, base), x, y);
  }

  /** Everything from `v` up the stack reaches `v` and is reached by it. */
  lemma SealedIsOneComponent(g: Graph, s: Walk, open: set<nat>, base: nat, x: nat)
    requires Sealed(g, s, open, base) && x in s.stack[base..]
    ensures Reach(StepOf(g), x, s.stack[base]) && Reach(StepOf(g), s.stack[base], x)
  {
    var v := s.stack[base];
    StackSplit(g, s, base, x);
    assert Anchored(g, s, open + {v}, x);
    var y: nat :| y in open + {v} && Visited(s, y) && s.idx[y] <= s.idx[x] && Reach(StepOf(g), x, y);
    if y != v {
      SealedReaches(g, s, open, base, x, y);
      StackSplit(g, s, base, y);
      assert false;
    }
  }

  /** A done node reaches only done nodes. */
  lemma DoneReachesDone(g: Graph, s: Walk, open: set<nat>, x: nat, y: nat)
    requires Inv(g, s, open) && Done(s, x) && Reach(StepOf(g), x, y)
    ensures Done(s, y)
  {
    var inside := iset a: nat | Done(s, a);
    ClosedUnderReach(StepOf(g), inside, x, y);
  }

  /** Which nodes of the component popped are on a cycle: all of them, or none. */
  lemma SealedCycles(g: Graph, s: Walk, open: set<nat>, base: nat, x: nat)
    requires Sealed(g, s, open, base) && x in s.stack[base..]
    ensures OnCycle(StepOf(g), x) <==> |s.stack| - base > 1 || s.stack[base] in g[s.stack[base]]
  {
    var v := s.stack[base];
    var step := StepOf(g);
    if |s.stack| - base > 1 {
      var other := if x == v then s.stack[base + 1] else v;
      assert other in s.stack[base..] by { assert s.stack[base..][if x == v then 1 else 0] == other; }
      SealedIsOneComponent(g, s, open, base, x);
      SealedIsOneComponent(g, s, open, base, other);
      ReachJoin(step, x, v, other);
      ReachJoin(step, other, v, x);
      MutualReachIsCycle(step, x, other);
    } else {
      assert s.stack[base..] == [v];
      if v in g[v] {
        SelfStepIsCycle(step, v);
      }
      if OnCycle(step, v) {
        var p :| PathFrom(step, v, v, p) && |p| > 1;
        var w := p[1];
        assert step(p[0], p[1]);
        PathNodeReach(step, v, v, p, 1);
        SealedReaches(g, s, open, base, v, w);
        if Done(s, w) {
          DoneReachesDone(g, s, open + {v}, w, v);
          assert false;
        }
      }
    }
  }

  /** The state once the component from `base` up is popped and marked. */
  ghost predicate Popped(s: Walk, t: Walk, base: nat, cyclic: bool)
    requires base <= |s.stack|
  {
    && t.idx == s.idx && t.counter == s.counter
    && t.stack == s.stack[..base]
    && |t.on| == |s.on|
    && (forall v: nat :: v < |s.on| ==> (t.on[v] <==> s.on[v] || (cyclic && v in s.stack[base..])))
  }

  lemma PopKeeps(g: Graph, s: Walk, open: set<nat>, base: nat, t: Walk)
    requires Sealed(g, s, open, base)
    requires Popped(s, t, base, |s.stack| - base > 1 || s.stack[base] in g[s.stack[base]])
    ensures Inv(g, t, open)
    ensures forall v: nat :: Done(t, v) <==> Done(s, v) || v in s.stack[base..]
  {
    var step := StepOf(g);
    var top := s.stack[base];
    forall v: nat
      ensures v in s.stack <==> v in s.stack[..base] || v in s.stack[base..]
      ensures v in s.stack[..base] ==> v !in s.stack[base..] && s.idx[v] < s.idx[top]
      ensures v in s.stack[base..] ==> Visited(s, v) && s.idx[top] <= s.idx[v]
    {
      StackSplit(g, s, base, v);
    }
    assert forall v: nat :: Visited(t, v) <==> Visited(s, v);
    forall v: nat, w: nat | Done(t, v) && w in g[v]
      ensures Done(t, w)
    {
      SealedIsClosed(g, s, open, base, v, w);
    }
    forall x: nat {:trigger Anchored(g, t, open, x)} | x in t.stack
      ensures Anchored(g, t, open, x)
    {
      assert Anchored(g, s, open + {top}, x);
      var y: nat :| y in open + {top} && Visited(s, y) && s.idx[y] <= s.idx[x] && Reach(step, x, y);
      assert y in open && Visited(t, y);
    }
    forall v: nat | v < |g|
      ensures t.on[v] <==> Done(t, v) && OnCycle(step, v)
    {
      if v in s.stack[base..] {
        SealedCycles(g, s, open, base, v);
      }
    }
  }

  // ----- what connect knows while it looks at a node's edges

  /** `v` opened at `base`, its first `j` edges looked at, `low` the least number found. */
  ghost predicate Looked(g: Graph, s: Walk, base: nat, v: nat, j: nat, low: int)
  {
    && Shape(g, s)
    && base < |s.stack| && s.stack[base] == v && j <= |g[v]|
    && low <= s.idx[v]
    && Attained(g, s, v, low)
    && Covers(g, s, base + 1, base, low)
    && EdgesSeen(g, s, base, v, j, low)
  }

  /** The first `j` edges of `v` lead to visited nodes, and below `base` to none older than `low`. */
  ghost predicate EdgesSeen(g: Graph, s: Walk, base: nat, v: nat, j: nat, low: int)
    requires Shape(g, s) && base <= |s.stack| && v < |g| && j <= |g[v]|
  {
    forall i: nat :: i < j ==> Visited(s, g[v][i]) && (g[v][i] in s.stack[..base] ==> low <= s.idx[g[v][i]])
  }

  /** What connect(v) leaves: `v` on the stack with an older node in reach, or its component gone. */
  ghost predicate Settled(g: Graph, s: Walk, t: Walk, v: nat, low: int)
  {
    && Shape(g, t) && Extends(s, t) && Visited(t, v)
    && Covers(g, t, |s.stack|, |s.stack|, low)
    && if t.stack == s.stack then low == t.idx[v]
       else |s.stack| < |t.stack| && t.stack[|s.stack|] == v && low < t.idx[v] && Attained(g, t, v, low)
  }

  lemma LookStart(g: Graph, s: Walk, v: nat)
    requires Shape(g, s) && v < |g| && s.idx[v] < 0
    ensures Looked(g, Opened(s, v), |s.stack|, v, 0, s.counter)
  {
    OpenShape(g, s, v);
    ReachSelf(StepOf(g), v);
    assert Opened(s, v).stack[|s.stack|] == v;
  }

  lemma AttainedLater(g: Graph, s: Walk, t: Walk, v: nat, low: int)
    requires Shape(g, s) && Shape(g, t) && Extends(s, t) && Attained(g, s, v, low)
    ensures Attained(g, t, v, low)
  {
    var z: nat :| z in s.stack && s.idx[z] == low && Reach(StepOf(g), v, z);
    var i: nat :| i < |s.stack| && s.stack[i] == z;
    assert t.stack[i] == z;
  }

  lemma AttainedThrough(g: Graph, s: Walk, v: nat, w: nat, low: int)
    requires Shape(g, s) && Attained(g, s, w, low) && StepOf(g)(v, w)
    ensures Attained(g, s, v, low)
  {
    var z: nat :| z in s.stack && s.idx[z] == low && Reach(StepOf(g), w, z);
    ReachStep(StepOf(g), v, w);
    ReachJoin(StepOf(g), v, w, z);
  }

  lemma InPrefix(s: Walk, t: Walk, base: nat, y: nat)
    requires Extends(s, t) && base <= |s.stack| <= |t.stack|
    ensures t.stack[..base] == s.stack[..base]
    ensures y in t.stack[..base] ==> y in s.stack && y in t.stack[..|s.stack|]
  {
    if y in t.stack[..base] {
      var k: nat :| k < base && t.stack[k] == y;
      assert s.stack[k] == y && t.stack[..|s.stack|][k] == y;
    }
  }

  lemma CoversLater(g: Graph, s: Walk, t: Walk, base: nat, low: int, lowW: int)
    requires Shape(g, s) && Shape(g, t) && Extends(s, t) && base < |s.stack|
    requires Covers(g, s, base + 1, base, low) && Covers(g, t, |s.stack|, |s.stack|, lowW)
    ensures Covers(g, t, base + 1, base, Min(low, lowW))
  {
    forall i: nat, y: nat | base + 1 <= i < |t.stack| && y in g[t.stack[i]] && y in t.stack[..base]
      ensures Min(low, lowW) <= t.idx[y]
    {
      InPrefix(s, t, base, y);
      if i < |s.stack| {
        assert t.stack[i] == s.stack[i] && t.idx[y] == s.idx[y];
      }
    }
  }

  lemma EdgesLater(g: Graph, s: Walk, t: Walk, base: nat, v: nat, j: nat, low: int, lowW: int)
    requires Shape(g, s) && Shape(g, t) && Extends(s, t) && base < |s.stack| && v < |g| && j < |g[v]|
    requires EdgesSeen(g, s, base, v, j, low)
    requires !Visited(s, g[v][j]) && Visited(t, g[v][j])
    ensures EdgesSeen(g, t, base, v, j + 1, Min(low, lowW))
  {
    forall i: nat | i < j + 1
      ensures Visited(t, g[v][i]) && (g[v][i] in t.stack[..base] ==> Min(low, lowW) <= t.idx[g[v][i]])
    {
      InPrefix(s, t, base, g[v][i]);
    }
  }

  /** An edge to a node not visited before, once connect has been there. */
  lemma LookInto(g: Graph, s: Walk, t: Walk, base: nat, v: nat, j: nat, low: int, lowW: int)
    requires Looked(g, s, base, v, j, low) && j < |g[v]|
    requires !Visited(s, g[v][j]) && Settled(g, s, t, g[v][j], lowW)
    ensures Looked(g, t, base, v, j + 1, Min(low, lowW))
  {
    var w := g[v][j];
    assert t.stack[base] == v;
    AttainedLater(g, s, t, v, low);
    if t.stack != s.stack {
      AttainedThrough(g, t, v, w, lowW);
    }
    CoversLater(g, s, t, base, low, lowW);
    EdgesLater(g, s, t, base, v, j, low, lowW);
  }

  /** An edge to a node visited before: only one still on the stack lowers the number. */
  lemma LookBack(g: Graph, s: Walk, base: nat, v: nat, j: nat, low: int)
    requires Looked(g, s, base, v, j, low) && j < |g[v]| && Visited(s, g[v][j])
    ensures Looked(g, s, base, v, j + 1, if g[v][j] in s.stack then Min(low, s.idx[g[v][j]]) else low)
  {
    var w := g[v][j];
    if w in s.stack {
      ReachStep(StepOf(g), v, w);
      assert Attained(g, s, v, s.idx[w]);
    } else {
      StackSplit(g, s, base, w);
    }
  }

  /** All edges looked at and none leads below: what is above can be popped. */
  lemma LookedAll(g: Graph, s: Walk, open: set<nat>, base: nat, v: nat)
    requires Inv(g, s, open + {v}) && v !in open && v < |g|
    requires && Looked(g, s, base, v, |g[v]|, s.idx[v])
    requires forall y: nat :: y in open ==> y in s.stack[..base]
    ensures Sealed(g, s, open, base)
  {
    assert forall y: nat :: y in g[v] ==> exists k: nat :: k < |g[v]| && g[v][k] == y;
  }

  lemma SettleLeft(g: Graph, s: Walk, t: Walk, v: nat, low: int)
    requires Shape(g, s) && Extends(s, t)
    requires v < |g| && v < |t.idx| && Looked(g, t, |s.stack|, v, |g[v]|, low) && low < t.idx[v]
    ensures Settled(g, s, t, v, low)
  {
    forall i: nat, y: nat | |s.stack| <= i < |t.stack| && y in g[t.stack[i]] && y in t.stack[..|s.stack|]
      ensures low <= t.idx[y]
    {
      if i == |s.stack| {
        var k: nat :| k < |g[v]| && g[v][k] == y;
      }
    }
  }

  lemma SettlePopped(g: Graph, s: Walk, t: Walk, u: Walk, v: nat)
    requires Shape(g, s) && Extends(s, t) && Shape(g, u)
    requires |s.stack| < |t.stack| && t.stack[|s.stack|] == v && Visited(t, v)
    requires u.idx == t.idx && u.counter == t.counter && u.stack == t.stack[..|s.stack|]
    ensures Settled(g, s, u, v, t.idx[v])
  {
    assert u.stack == s.stack;
  }

  lemma ReachFrom(g: Graph, open: set<nat>, v: nat, w: nat)
    requires StepOf(g)(v, w)
    requires forall y: nat :: y in open ==> Reach(StepOf(g), y, v)
    ensures forall y: nat :: y in open + {v} ==> Reach(StepOf(g), y, w)
  {
    forall y: nat | y in open + {v}
      ensures Reach(StepOf(g), y, w)
    {
      ReachSelf(StepOf(g), v);
      ReachThenStep(StepOf(g), y, v, w);
    }
  }

  ghost function Unvisited(idx: seq<int>): set<nat>
  {
    set v: nat | v < |idx| && idx[v] < 0
  }

  lemma NoMoreUnvisited(s: Walk, t: Walk)
    requires Extends(s, t)
    ensures Unvisited(t.idx) < Unvisited(s.idx) || Unvisited(t.idx) == Unvisited(s.idx)
  {
    assert forall v: nat :: Visited(s, v) ==> Visited(t, v);
    assert Unvisited(t.idx) <= Unvisited(s.idx);
  }

  /** The low numbers of nodes visited before are left alone. */
  ghost predicate LowKept(s: Walk, was: seq<int>, low: seq<int>)
  {
    |was| == |low| == |s.idx| && forall u: nat :: u < |low| && s.idx[u] >= 0 ==> low[u] == was[u]
  }

  lemma FewerUnvisited(s: Walk, t: Walk, v: nat)
    requires Extends(s, t) && v < |s.idx| && !Visited(s, v) && Visited(t, v)
    ensures Unvisited(t.idx) < Unvisited(s.idx)
  {
    assert v in Unvisited(s.idx) && v !in Unvisited(t.idx);
  }

  /** The variables that onCycles and its recursive inner function share. */
  class Finder {
    const edges: Graph
    const idx: array<int>
    const low: array<int>
    const onStack: array<bool>
    const on: array<bool>
    var stack: seq<nat>
    var counter: nat

    ghost function State(): Walk
      reads this, idx, on
    {
      Walk(idx[..], stack, on[..], counter)
    }

    ghost predicate Valid(open: set<nat>)
      reads this, idx, low, onStack, on
    {
      && idx != low && onStack != on
      && low.Length == onStack.Length == |edges|
      && Inv(edges, State(), open)
      && (forall w: nat :: w < |edges| ==> (onStack[w] <==> w in stack))
    }

    constructor (g: Graph)
      requires ValidGraph(g)
      ensures edges == g && Valid({})
      ensures fresh(idx) && fresh(low) && fresh(onStack) && fresh(on)
      ensures stack == [] && (forall v: nat :: v < |g| ==> idx[v] == -1)
    {
      edges := g;
      idx, low := new int[|g|](_ => -1), new int[|g|](_ => 0);
      onStack, on := new bool[|g|](_ => false), new bool[|g|](_ => false);
      stack, counter := [], 0;
    }

    /** Numbers `v`, walks what it points at, and pops its component once nothing older is in reach. */
    method Connect(v: nat, ghost open: set<nat>)
      requires Valid(open) && v < |edges| && idx[v] < 0
      requires forall y: nat :: y in open ==> Reach(StepOf(edges), y, v)
      modifies this, idx, low, onStack, on
      ensures Valid(open)
      ensures Settled(edges, old(State()), State(), v, low[v])
      ensures LowKept(old(State()), old(low[..]), low[..])
      decreases Unvisited(idx[..]), 1
    {
      ghost var s0 := State();
      Explore(v, open);
      Close(v, s0, open);
    }

    /** Numbers `v`, puts it on the stack, and walks what it points at. */
    method Explore(v: nat, ghost open: set<nat>)
      requires Valid(open) && v < |edges| && idx[v] < 0
      requires forall y: nat :: y in open ==> Reach(StepOf(edges), y, v)
      modifies this, idx, low, onStack, on
      ensures Valid(open + {v}) && Extends(old(State()), State())
      ensures Looked(edges, State(), |old(stack)|, v, |edges[v]|, low[v])
      ensures LowKept(old(State()), old(low[..]), low[..])
      decreases Unvisited(idx[..]), 0
    {
      ghost var s0 := State();
      Number(v, open);
      FewerUnvisited(s0, State(), v);
      LookAt(v, |s0.stack|, open);
      ExtendsTrans(s0, Opened(s0, v), State());
    }

    /** Gives `v` the next number and puts it on the stack. */
    method Number(v: nat, ghost open: set<nat>)
      requires Valid(open) && v < |edges| && idx[v] < 0
      requires forall y: nat :: y in open ==> Reach(StepOf(edges), y, v)
      modifies this`counter, this`stack, idx, low, onStack
      ensures State() == Opened(old(State()), v) && Valid(open + {v})
      ensures Extends(old(State()), State()) && low[v] == old(counter)
      ensures Looked(edges, State(), |old(stack)|, v, 0, low[v])
      ensures forall u: nat :: u < |edges| && u != v ==> low[u] == old(low[u])
    {
      ghost var s0 := State();
      idx[v], low[v] := counter, counter;
      counter := counter + 1;
      stack := stack + [v];
      onStack[v] := true;
      assert State() == Opened(s0, v);
      OpenShape(edges, s0, v);
      OpenKeeps(edges, s0, open, v);
      LookStart(edges, s0, v);
    }

    /** Leaves `v` on the stack when it reaches an older node there, and else pops its component. */
    method Close(v: nat, ghost s0: Walk, ghost open: set<nat>)
      requires Valid(open + {v}) && Shape(edges, s0) && Extends(s0, State())
      requires v !in open && forall y: nat :: y in open ==> y in s0.stack
      requires Looked(edges, State(), |s0.stack|, v, |edges[v]|, low[v])
      modifies this`stack, onStack, on
      ensures Valid(open) && Settled(edges, s0, State(), v, low[v])
    {
      ghost var s1 := State();
      if low[v] != idx[v] {
        LeaveKeeps(edges, s1, open, v, low[v]);
        SettleLeft(edges, s0, s1, v, low[v]);
      } else {
        LookedAll(edges, s1, open, |s0.stack|, v);
        PopComponent(v, |s0.stack|, open);
        SettlePopped(edges, s0, s1, State(), v);
      }
    }

    /** The loop of connect over the edges of `v`. */
    method LookAt(v: nat, ghost base: nat, ghost open: set<nat>)
      requires Valid(open + {v}) && v < |edges|
      requires Looked(edges, State(), base, v, 0, low[v])
      requires forall y: nat :: y in open ==> Reach(StepOf(edges), y, v)
      modifies this, idx, low, onStack, on
      ensures Valid(open + {v}) && Extends(old(State()), State())
      ensures Looked(edges, State(), base, v, |edges[v]|, low[v])
      ensures forall u: nat :: u < |edges| && u != v && old(idx[u]) >= 0 ==> low[u] == old(low[u])
      decreases Unvisited(idx[..]), 3
    {
      ghost var s0 := State();
      for j := 0 to |edges[v]|
        invariant Valid(open + {v}) && Extends(s0, State())
        invariant Looked(edges, State(), base, v, j, low[v])
        invariant forall u: nat :: u < |edges| && u != v && s0.idx[u] >= 0 ==> low[u] == old(low[u])
      {
        ghost var s := State();
        NoMoreUnvisited(s0, s);
        Look(v, j, base, open);
        ExtendsTrans(s0, s, State());
      }
    }

    /** One edge of `v`. */
    method Look(v: nat, j: nat, ghost base: nat, ghost open: set<nat>)
      requires Valid(open + {v}) && v < |edges| && j < |edges[v]|
      requires Looked(edges, State(), base, v, j, low[v])
      requires forall y: nat :: y in open ==> Reach(StepOf(edges), y, v)
      modifies this, idx, low, onStack, on
      ensures Valid(open + {v}) && Extends(old(State()), State())
      ensures Looked(edges, State(), base, v, j + 1, low[v])
      ensures forall u: nat :: u < |edges| && u != v && old(idx[u]) >= 0 ==> low[u] == old(low[u])
      decreases Unvisited(idx[..]), 2
    {
      ghost var s, lowV := State(), low[v];
      var w := edges[v][j];
      if idx[w] < 0 {
        ReachFrom(edges, open, v, w);
        Connect(w, open + {v});
        ghost var t := State();
        LookInto(edges, s, t, base, v, j, lowV, low[w]);
        low[v] := Min(low[v], low[w]);
        assert State() == t;
      } else {
        LookBack(edges, s, base, v, j, lowV);
        if onStack[w] {
          low[v] := Min(low[v], idx[w]);
        }
        assert State() == s;
      }
    }

    /** Pops the component of `v`, and marks it when it is a cycle. */
    method PopComponent(v: nat, ghost base: nat, ghost open: set<nat>)
      requires Valid(open + {v}) && Sealed(edges, State(), open, base) && stack[base] == v
      modifies this`stack, onStack, on
      ensures Valid(open) && idx[..] == old(idx[..]) && stack == old(stack[..base])
    {
      ghost var s := State();
      var component := Pop(v, base, open);
      var loop := v in edges[v];
      if |component| > 1 || loop {
        Mark(component);
      }
      assert State().stack == s.stack[..base];
      PopKeeps(edges, s, open, base, State());
    }

    /** Takes the stack down to `v`, which is at `base`. */
    method Pop(v: nat, ghost base: nat, ghost open: set<nat>) returns (component: seq<nat>)
      requires Valid(open + {v})
      requires base < |stack| && stack[base] == v
      modifies this`stack, onStack
      ensures stack == old(stack[..base])
      ensures |component| == |old(stack)| - base
      ensures forall w: nat :: w in component <==> w in old(stack[base..])
      ensures forall k: nat :: k < |component| ==> component[k] < |edges|
      ensures forall w: nat :: w < |edges| ==> (onStack[w] <==> w in stack)
    {
      component := [];
      ghost var full := stack;
      while true
        invariant base < |stack| <= |full| && stack == full[..|stack|]
        invariant |component| == |full| - |stack|
        invariant forall k: nat :: k < |component| ==> component[k] < |edges|
        invariant forall w: nat :: w in component <==> w in full[|stack|..]
        invariant forall w: nat :: w < |edges| ==> (onStack[w] <==> w in stack)
        decreases |stack|
      {
        var w := stack[|stack| - 1];
        stack := stack[..|stack| - 1];
        onStack[w] := false;
        component := component + [w];
        if w == v {
          return;
        }
      }
    }

    method Mark(component: seq<nat>)
      requires forall k: nat :: k < |component| ==> component[k] < on.Length
      modifies on
      ensures forall w: nat :: w < on.Length ==> (on[w] <==> old(on[w]) || w in component)
    {
      for k := 0 to |component|
        invariant forall w: nat :: w < on.Length ==> (on[w] <==> old(on[w]) || w in component[..k])
      {
        on[component[k]] := true;
      }
    }
  }

  /** Between two top-level calls nothing is left on the stack. */
  lemma StackEmpties(g: Graph, s: Walk)
    requires Inv(g, s, {})
    ensures s.stack == []
    ensures forall v: nat :: Visited(s, v) ==> (s.on[v] <==> OnCycle(StepOf(g), v))
  {
    var anchored := |s.stack| > 0 && Anchored(g, s, {}, s.stack[0]);
    assert !anchored;
  }

  method Indices(on: array<bool>) returns (out: seq<nat>)
    ensures forall v: nat :: v in out <==> v < on.Length && on[v]
    ensures forall j: nat, k: nat :: j < k < |out| ==> out[j] < out[k]
  {
    out := [];
    for v := 0 to on.Length
      invariant forall u: nat :: u in out <==> u < v && on[u]
      invariant forall j: nat, k: nat :: j < k < |out| ==> out[j] < out[k]
    {
      if on[v] {
        assert forall j: nat :: j < |out| ==> out[j] in out;
        out := out + [v];
      }
    }
  }

  /** Exactly the nodes on a cycle, in ascending order and each once. */
  method OnCycles(edges: Graph) returns (out: seq<nat>)
    requires ValidGraph(edges)
    ensures forall v: nat :: v in out <==> v < |edges| && OnCycle(StepOf(edges), v)
    ensures forall j: nat, k: nat :: j < k < |out| ==> out[j] < out[k]
  {
    var f := new Finder(edges);
    for v := 0 to |edges|
      invariant f.edges == edges && f.Valid({})
      invariant fresh(f) && fresh(f.idx) && fresh(f.low) && fresh(f.onStack) && fresh(f.on)
      invariant forall u: nat :: u < v ==> Visited(f.State(), u)
    {
      ghost var s := f.State();
      if f.idx[v] < 0 {
        f.Connect(v, {});
        ghost var t := f.State();
        assert forall u: nat :: Visited(s, u) ==> Visited(t, u);
        assert Visited(t, v);
      }
    }
    ghost var s := f.State();
    StackEmpties(edges, s);
    assert forall v: nat :: v < |edges| ==> (f.on[v] <==> OnCycle(StepOf(edges), v)) by {
      assert forall v: nat :: v < |edges| ==> Visited(s, v) && s.on[v] == f.on[v];
    }
    out := Indices(f.on);
  }
}
