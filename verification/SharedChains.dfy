/**
 The chains of groups of an expansion as the slices they are stored in: appending to a
 slice writes into its array while there is room, so sibling groups share what one of
 them was given.
 */
module SharedChains {
  import opened Dns

  /** The first `len` cells of an array. */
  datatype Slice = Slice(at: nat, len: nat)

  /** Every array there is, each as long as its capacity. */
  type Heap = seq<seq<Dn>>

  predicate Valid(h: Heap, s: Slice)
  {
    s.at < |h| && s.len <= |h[s.at]|
  }

  function Content(h: Heap, s: Slice): (c: seq<Dn>)
    requires Valid(h, s)
    ensures |c| == s.len
  {
    h[s.at][..s.len]
  }

  /** The capacity of the array that replaces a full one. */
  function Grown(len: nat): nat
  {
    if len == 0 then 1 else 2 * len
  }

  /** The heap and the slice after appending: in place while there is room, else into a larger copy. */
  function AppendHeap(h: Heap, s: Slice, x: Dn): (g: Heap)
    requires Valid(h, s)
    ensures |g| >= |h| && Valid(g, AppendSlice(h, s))
  {
    if s.len < |h[s.at]| then h[s.at := h[s.at][s.len := x]]
    else h + [Content(h, s) + seq(Grown(s.len) - s.len, i => x)]
  }

  function AppendSlice(h: Heap, s: Slice): (t: Slice)
    requires Valid(h, s)
    ensures t.len == s.len + 1
  {
    if s.len < |h[s.at]| then Slice(s.at, s.len + 1) else Slice(|h|, s.len + 1)
  }

  lemma AppendContent(h: Heap, s: Slice, x: Dn)
    requires Valid(h, s)
    ensures Content(AppendHeap(h, s, x), AppendSlice(h, s)) == Content(h, s) + [x]
  {
  }

  // ----- the walk

  /** A group that is walked, and the groups walked from it, in order. */
  datatype Group = Group(dn: Dn, groups: seq<Group>)

  /** The heap after walking the groups, each with its own slice appended to `s`. */
  function Walk(h: Heap, s: Slice, groups: seq<Group>): (g: Heap)
    requires Valid(h, s)
    ensures |h| <= |g| && (forall a: nat :: a < |h| ==> |g[a]| == |h[a]|)
    decreases groups
  {
    if groups == [] then h
    else Walk(WalkOne(h, s, groups[0]), s, groups[1..])
  }

  function WalkOne(h: Heap, s: Slice, group: Group): (g: Heap)
    requires Valid(h, s)
    ensures |h| <= |g| && (forall a: nat :: a < |h| ==> |g[a]| == |h[a]|)
    decreases group
  {
    Walk(AppendHeap(h, s, group.dn), AppendSlice(h, s), group.groups)
  }

  /** A group by the places of it and of the groups above it. */
  predicate IsPlace(groups: seq<Group>, p: seq<nat>)
    decreases |p|
  {
    p == [] || (p[0] < |groups| && IsPlace(groups[p[0]].groups, p[1..]))
  }

  /** The DNs on the way to the group. */
  function Chain(groups: seq<Group>, p: seq<nat>): (c: seq<Dn>)
    requires IsPlace(groups, p)
    ensures |c| == |p|
    decreases |p|
  {
    if p == [] then [] else [groups[p[0]].dn] + Chain(groups[p[0]].groups, p[1..])
  }

  /** The heap when the first `k` of the groups have been walked. */
  function Walked(h: Heap, s: Slice, groups: seq<Group>, k: nat): (g: Heap)
    requires Valid(h, s) && k <= |groups|
    ensures Valid(g, s)
  {
    Walk(h, s, groups[..k])
  }

  /** The slice handed to the group at `p`, which its members keep as their chain. */
  function SliceAt(h: Heap, s: Slice, groups: seq<Group>, p: seq<nat>): Slice
    requires Valid(h, s) && IsPlace(groups, p)
    decreases |p|
  {
    if p == [] then s
    else
      var g := Walked(h, s, groups, p[0]);
      var group := groups[p[0]];
      SliceAt(AppendHeap(g, s, group.dn), AppendSlice(g, s), group.groups, p[1..])
  }

  lemma {:induction false} WalkJoin(h: Heap, s: Slice, a: seq<Group>, b: seq<Group>)
    requires Valid(h, s)
    ensures Walk(h, s, a + b) == Walk(Walk(h, s, a), s, b)
    decreases |a|
  {
    if a == [] {
      assert a + b == b;
    } else {
      assert (a + b)[0] == a[0] && (a + b)[1..] == a[1..] + b;
      WalkJoin(WalkOne(h, s, a[0]), s, a[1..], b);
    }
  }

  // ----- what a walk leaves alone

  /** Arrays other than the slice's, its own below the end of the slice, and all of it when it is full. */
  ghost predicate Leaves(h: Heap, s: Slice, g: Heap)
    requires Valid(h, s)
  {
    && |h| <= |g|
    && (forall a: nat :: a < |h| ==> |g[a]| == |h[a]|)
    && (forall a: nat :: a < |h| && a != s.at ==> g[a] == h[a])
    && g[s.at][..s.len] == h[s.at][..s.len]
    && (s.len == |h[s.at]| ==> g[s.at] == h[s.at])
  }

  lemma LeavesTrans(h: Heap, s: Slice, g: Heap, f: Heap)
    requires Valid(h, s) && Leaves(h, s, g) && Leaves(g, s, f)
    ensures Leaves(h, s, f)
  {
  }

  /** What is left alone by a walk from the appended slice is left alone by the append and the walk. */
  lemma AppendLeaves(h: Heap, s: Slice, x: Dn, f: Heap)
    requires Valid(h, s) && Leaves(AppendHeap(h, s, x), AppendSlice(h, s), f)
    ensures Leaves(h, s, f)
    ensures s.len < |h[s.at]| ==> f[s.at][s.len] == x
  {
    var g, t := AppendHeap(h, s, x), AppendSlice(h, s);
    if s.len < |h[s.at]| {
      assert f[s.at][..t.len] == g[s.at][..t.len];
      assert f[s.at][s.len] == f[s.at][..t.len][s.len];
      assert f[s.at][..s.len] == f[s.at][..t.len][..s.len];
      assert g[s.at][..s.len] == h[s.at][..s.len];
    }
  }

  lemma {:induction false} WalkLeaves(h: Heap, s: Slice, groups: seq<Group>)
    requires Valid(h, s)
    ensures Leaves(h, s, Walk(h, s, groups))
    ensures groups != [] && s.len < |h[s.at]| ==>
      Walk(h, s, groups)[s.at][s.len] == groups[|groups| - 1].dn
    decreases groups
  {
    if groups != [] {
      var g := WalkOne(h, s, groups[0]);
      WalkOneLeaves(h, s, groups[0]);
      WalkLeaves(g, s, groups[1..]);
      LeavesTrans(h, s, g, Walk(g, s, groups[1..]));
    }
  }

  lemma {:induction false} WalkOneLeaves(h: Heap, s: Slice, group: Group)
    requires Valid(h, s)
    ensures Leaves(h, s, WalkOne(h, s, group))
    ensures s.len < |h[s.at]| ==> WalkOne(h, s, group)[s.at][s.len] == group.dn
    decreases group
  {
    WalkLeaves(AppendHeap(h, s, group.dn), AppendSlice(h, s), group.groups);
    AppendLeaves(h, s, group.dn, WalkOne(h, s, group));
  }

  // ----- where a slice is

  /** The capacity of a slice of that length, made by appending one at a time. */
  function CapAt(len: nat): (cap: nat)
    ensures cap >= len
  {
    if len == 0 then 0 else if CapAt(len - 1) >= len then CapAt(len - 1) else Grown(len - 1)
  }

  /** The slice has the capacity it gets by appending. */
  predicate Fits(h: Heap, s: Slice)
  {
    Valid(h, s) && |h[s.at]| == CapAt(s.len)
  }

  lemma AppendFits(h: Heap, s: Slice, x: Dn)
    requires Fits(h, s)
    ensures Fits(AppendHeap(h, s, x), AppendSlice(h, s))
  {
  }

  lemma {:induction false} CapGrows(a: nat, b: nat)
    requires a <= b
    ensures CapAt(a) <= CapAt(b)
  {
    if a < b {
      CapGrows(a, b - 1);
    }
  }

  /** A slice is in the array of one it was made from exactly when there was room for all of it. */
  lemma {:induction false} SliceIs(h: Heap, s: Slice, groups: seq<Group>, p: seq<nat>)
    requires Fits(h, s) && IsPlace(groups, p)
    ensures SliceAt(h, s, groups, p).len == s.len + |p|
    ensures SliceAt(h, s, groups, p).at == s.at <==> s.len + |p| <= CapAt(s.len)
    ensures SliceAt(h, s, groups, p).at != s.at ==> SliceAt(h, s, groups, p).at >= |h|
    decreases |p|
  {
    if p != [] {
      var g := Walked(h, s, groups, p[0]);
      WalkLeaves(h, s, groups[..p[0]]);
      AppendFits(g, s, groups[p[0]].dn);
      SliceIs(AppendHeap(g, s, groups[p[0]].dn), AppendSlice(g, s), groups[p[0]].groups, p[1..]);
      CapGrows(s.len, s.len + 1);
    }
  }

  // ----- which chains are right

  /** No group is walked twice from one group. */
  ghost predicate Distinct(groups: seq<Group>)
    decreases groups
  {
    && (forall i: nat, j: nat :: i < j < |groups| ==> groups[i].dn != groups[j].dn)
    && (forall i: nat :: i < |groups| ==> Distinct(groups[i].groups))
  }

  /**
   Wherever the whole chain fits into the array that its first groups are in, the next
   group on it was the last one walked from there.
   */
  predicate LastWhereShared(len: nat, groups: seq<Group>, p: seq<nat>)
    requires IsPlace(groups, p)
    decreases |p|
  {
    p == [] ||
    ((len + |p| <= CapAt(len) ==> p[0] == |groups| - 1) && LastWhereShared(len + 1, groups[p[0]].groups, p[1..]))
  }

  /** The later groups walked from the same slice leave a chain alone unless they write into its array. */
  lemma AfterSiblings(h: Heap, s: Slice, x: Dn, later: seq<Group>, c: Slice)
    requires Valid(h, s) && Valid(h, c) && c.len > s.len
    requires c.at == s.at ==> h[s.at][s.len] == x
    requires forall i: nat :: i < |later| ==> later[i].dn != x
    ensures var f := Walk(h, s, later);
      Valid(f, c) && (c.at != s.at || later == [] ==> Content(f, c) == Content(h, c))
    ensures c.at == s.at && later != [] ==> Content(Walk(h, s, later), c)[s.len] != x
  {
    WalkLeaves(h, s, later);
  }

  lemma WalkedOneMore(h: Heap, s: Slice, groups: seq<Group>, k: nat)
    requires Valid(h, s) && k < |groups|
    ensures Walk(h, s, groups) == Walk(WalkOne(Walked(h, s, groups, k), s, groups[k]), s, groups[k + 1..])
  {
    assert groups == groups[..k] + groups[k..];
    WalkJoin(h, s, groups[..k], groups[k..]);
    assert groups[k..][0] == groups[k] && groups[k..][1..] == groups[k + 1..];
  }

  /** From the walk of one group to that of its siblings after it. */
  lemma SiblingsAfter(g: Heap, s: Slice, x: Dn, later: seq<Group>, c: Slice, base: seq<Dn>, rest: seq<Dn>, inner: bool)
    requires Valid(g, s) && Valid(g, c) && |base| == s.len < c.len
    requires c.at == s.at ==> g[s.at][s.len] == x
    requires forall i: nat :: i < |later| ==> later[i].dn != x
    requires Content(g, c) == base + [x] + rest <==> inner
    ensures Valid(Walk(g, s, later), c)
    ensures Content(Walk(g, s, later), c) == base + [x] + rest <==> (c.at == s.at ==> later == []) && inner
  {
    AfterSiblings(g, s, x, later, c);
    assert (base + [x] + rest)[s.len] == x;
  }

  /** When the walk is over, the chain a group's members keep is the one they were given exactly then. */
  lemma {:induction false} ChainIsRight(h: Heap, s: Slice, groups: seq<Group>, p: seq<nat>)
    requires Fits(h, s) && IsPlace(groups, p) && Distinct(groups)
    ensures Valid(Walk(h, s, groups), SliceAt(h, s, groups, p))
    ensures Content(Walk(h, s, groups), SliceAt(h, s, groups, p)) == Content(h, s) + Chain(groups, p) <==>
      LastWhereShared(s.len, groups, p)
    decreases |p|
  {
    if p == [] {
      WalkLeaves(h, s, groups);
      assert Content(h, s) + [] == Content(h, s);
    } else {
      var k := p[0];
      var group := groups[k];
      var g := Walked(h, s, groups, k);
      WalkLeaves(h, s, groups[..k]);
      assert Content(g, s) == Content(h, s);
      AppendFits(g, s, group.dn);
      AppendContent(g, s, group.dn);
      ChainIsRight(AppendHeap(g, s, group.dn), AppendSlice(g, s), group.groups, p[1..]);
      ChainStep(h, s, groups, p, g);
    }
  }

  lemma Regroup(a: seq<Dn>, x: Dn, b: seq<Dn>)
    ensures a + [x] + b == a + ([x] + b)
  {
  }

  lemma ChainStep(h: Heap, s: Slice, groups: seq<Group>, p: seq<nat>, g: Heap)
    requires Fits(h, s) && IsPlace(groups, p) && Distinct(groups) && p != []
    requires g == Walked(h, s, groups, p[0]) && |h| <= |g| && Content(g, s) == Content(h, s)
    requires var group := groups[p[0]];
      var c := SliceAt(h, s, groups, p);
      Valid(WalkOne(g, s, group), c) &&
      (Content(WalkOne(g, s, group), c) == Content(h, s) + [group.dn] + Chain(group.groups, p[1..]) <==>
        LastWhereShared(s.len + 1, group.groups, p[1..]))
    ensures Valid(Walk(h, s, groups), SliceAt(h, s, groups, p))
    ensures Content(Walk(h, s, groups), SliceAt(h, s, groups, p)) == Content(h, s) + Chain(groups, p) <==>
      LastWhereShared(s.len, groups, p)
  {
    var k := p[0];
    var group, later := groups[k], groups[k + 1..];
    var c := SliceAt(h, s, groups, p);
    var g2, f := WalkOne(g, s, group), Walk(h, s, groups);
    var base, rest := Content(h, s), Chain(group.groups, p[1..]);
    var inner := LastWhereShared(s.len + 1, group.groups, p[1..]);
    SliceIs(h, s, groups, p);
    WalkOneLeaves(g, s, group);
    WalkedOneMore(h, s, groups, k);
    assert f == Walk(g2, s, later);
    LaterDiffer(groups, k);
    SiblingsAfter(g2, s, group.dn, later, c, base, rest, inner);
    Regroup(base, group.dn, rest);
    LastUnfolds(s.len, groups, p);
    assert [group.dn] + rest == Chain(groups, p);
  }

  lemma LaterDiffer(groups: seq<Group>, k: nat)
    requires Distinct(groups) && k < |groups|
    ensures var later := groups[k + 1..]; forall i: nat :: i < |later| ==> later[i].dn != groups[k].dn
  {
  }

  lemma LastUnfolds(len: nat, groups: seq<Group>, p: seq<nat>)
    requires IsPlace(groups, p) && p != []
    ensures LastWhereShared(len, groups, p) <==>
      (len + |p| <= CapAt(len) ==> groups[p[0] + 1..] == []) && LastWhereShared(len + 1, groups[p[0]].groups, p[1..])
  {
  }

  /** The array a walk begins with, which holds nothing, and the slice of it. */
  const EMPTY: Heap := [[]]
  const NIL := Slice(0, 0)

  /**
   The chain a group's members are reported with is the groups on the way to it exactly
   when, of the groups on the chain that share the array of the whole of it, each was the
   last one walked from the group before.
   */
  lemma ReportedChains(groups: seq<Group>, p: seq<nat>)
    requires IsPlace(groups, p) && Distinct(groups)
    ensures Valid(Walk(EMPTY, NIL, groups), SliceAt(EMPTY, NIL, groups, p))
    ensures Content(Walk(EMPTY, NIL, groups), SliceAt(EMPTY, NIL, groups, p)) == Chain(groups, p) <==>
      LastWhereShared(0, groups, p)
  {
    ChainIsRight(EMPTY, NIL, groups, p);
    assert Content(EMPTY, NIL) + Chain(groups, p) == Chain(groups, p);
  }

  lemma CapTable()
    ensures CapAt(0) == 0 && CapAt(1) == 1 && CapAt(2) == 2 && CapAt(3) == 4 && CapAt(4) == 4
    ensures CapAt(5) == 8 && CapAt(6) == 8 && CapAt(7) == 8 && CapAt(8) == 8
  {
    assert CapAt(0) == 0;
    assert CapAt(1) == 1;
    assert CapAt(2) == 2;
    assert CapAt(3) == 4;
    assert CapAt(4) == 4;
    assert CapAt(5) == 8;
    assert CapAt(6) == 8;
    assert CapAt(7) == 8;
  }

  /** A chain longer than every array its beginnings are in is shared with nobody. */
  lemma {:induction false} NothingShared(len: nat, groups: seq<Group>, p: seq<nat>)
    requires IsPlace(groups, p)
    requires forall k: nat {:trigger CapAt(k)} :: len <= k < len + |p| ==> CapAt(k) < len + |p|
    ensures LastWhereShared(len, groups, p)
    decreases |p|
  {
    if p != [] {
      assert CapAt(len) < len + |p|;
      NothingShared(len + 1, groups[p[0]].groups, p[1..]);
    }
  }

  lemma ShortCaps(n: nat)
    requires n <= 3 || n == 5 || n == 9
    ensures forall k: nat {:trigger CapAt(k)} :: k < n ==> CapAt(k) < n
  {
    CapTable();
    forall k: nat {:trigger CapAt(k)} | k < n
      ensures CapAt(k) < n
    {
      CapGrows(k, n - 1);
    }
  }

  /** Chains of up to three groups, of five and of nine are always right. */
  lemma ShortChainsAreRight(groups: seq<Group>, p: seq<nat>)
    requires IsPlace(groups, p) && Distinct(groups)
    requires |p| <= 3 || |p| == 5 || |p| == 9
    ensures Valid(Walk(EMPTY, NIL, groups), SliceAt(EMPTY, NIL, groups, p))
    ensures Content(Walk(EMPTY, NIL, groups), SliceAt(EMPTY, NIL, groups, p)) == Chain(groups, p)
  {
    ShortCaps(|p|);
    NothingShared(0, groups, p);
    ReportedChains(groups, p);
  }

  /** Four groups deep, a sibling group walked later takes the place of the last group on the chain. */
  lemma SiblingTakesPlace(a: Dn, b: Dn, c: Dn, d: Dn, e: Dn)
    requires d != e
    ensures var groups := [Group(a, [Group(b, [Group(c, [Group(d, []), Group(e, [])])])])];
      IsPlace(groups, [0, 0, 0, 0]) && Distinct(groups)
      && Chain(groups, [0, 0, 0, 0]) == [a, b, c, d] && !LastWhereShared(0, groups, [0, 0, 0, 0])
  {
    var two := [Group(d, []), Group(e, [])];
    var three, four := [Group(c, two)], [Group(b, [Group(c, two)])];
    var groups := [Group(a, four)];
    CapTable();
    assert [0, 0, 0, 0][1..] == [0, 0, 0] && [0, 0, 0][1..] == [0, 0] && [0, 0][1..] == [0] && [0][1..] == [];
    assert IsPlace(two, [0]) && IsPlace(three, [0, 0]) && IsPlace(four, [0, 0, 0]);
    assert Chain(two, [0]) == [d] && Chain(three, [0, 0]) == [c, d] && Chain(four, [0, 0, 0]) == [b, c, d];
    assert !LastWhereShared(3, two, [0]);
    assert !LastWhereShared(2, three, [0, 0]);
    assert !LastWhereShared(1, four, [0, 0, 0]);
    assert Distinct(two);
    assert three[0].groups == two && Distinct(three);
    assert four[0].groups == three && Distinct(four);
  }
}
