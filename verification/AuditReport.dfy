/**
 What the membership audit reports about the groups it read: how many members each
 would keep once the values nobody can find are removed, which groups then hold
 nobody through nesting, and which lie on a membership cycle.
 */
module AuditReport {
  import opened Options
  import opened Dns
  import opened Paths
  import opened OnCycles

  /** A membership value; its key is the DN it names, when it is checked at all. */
  datatype Value = Value(key: Option<Dn>)

  datatype Group = Group(dn: Dn, values: seq<Value>)

  /** What the existence reads found out about one name. */
  datatype Name = Name(belowReferral: bool, found: bool)

  type Names = map<Dn, Name>

  datatype Row = Row(remaining: nat, noPerson: bool)

  /** Every name the groups give was looked at. */
  predicate Checked(groups: seq<Group>, names: Names)
  {
    forall g, v :: g in groups && v in g.values && v.key.Some? ==> v.key.value in names
  }

  /** A value reported as not found, and so not counted as remaining. */
  predicate NotFound(names: Names, v: Value)
    requires v.key.Some? ==> v.key.value in names
  {
    v.key.Some? && !names[v.key.value].belowReferral && !names[v.key.value].found
  }

  predicate ValuesChecked(names: Names, values: seq<Value>)
  {
    forall v :: v in values && v.key.Some? ==> v.key.value in names
  }

  /** The values that are left once those not found are gone. */
  function Kept(names: Names, values: seq<Value>): (kept: seq<Value>)
    requires ValuesChecked(names, values)
    ensures forall v :: v in kept <==> v in values && !NotFound(names, v)
    ensures |kept| <= |values|
  {
    if values == [] then []
    else if NotFound(names, values[0]) then Kept(names, values[1..])
    else [values[0]] + Kept(names, values[1..])
  }

  // ----- the graph of the groups

  ghost predicate IsRead(groups: seq<Group>, v: Value)
  {
    v.key.Some? && exists i: nat :: i < |groups| && groups[i].dn == v.key.value
  }

  /** The group keeps a member that is not one of the groups read. */
  ghost predicate HoldsOther(groups: seq<Group>, names: Names, g: Group)
    requires ValuesChecked(names, g.values)
  {
    exists v :: v in Kept(names, g.values) && !IsRead(groups, v)
  }

  /** The position of each group read; of two with one DN, the later. */
  ghost predicate IsIndex(groups: seq<Group>, index: map<Dn, nat>)
  {
    && (forall d :: d in index ==> index[d] < |groups| && groups[index[d]].dn == d)
    && (forall i: nat :: i < |groups| ==> groups[i].dn in index && i <= index[groups[i].dn])
  }

  method IndexGroups(groups: seq<Group>) returns (index: map<Dn, nat>)
    ensures IsIndex(groups, index)
  {
    index := map[];
    for i := 0 to |groups|
      invariant forall d :: d in index ==> index[d] < i && groups[index[d]].dn == d
      invariant forall k: nat :: k < i ==> groups[k].dn in index && k <= index[groups[k].dn]
    {
      index := index[groups[i].dn := i];
    }
  }

  /** `next` lists the groups that the remaining values among `values` name. */
  ghost predicate IsEdges(index: map<Dn, nat>, names: Names, values: seq<Value>, next: seq<nat>)
  {
    && ValuesChecked(names, values)
    && (forall v :: v in Kept(names, values) && v.key.Some? && v.key.value in index ==> index[v.key.value] in next)
    && (forall j: nat :: j in next ==>
          exists v :: v in Kept(names, values) && v.key.Some? && v.key.value in index && index[v.key.value] == j)
  }

  /** The edges of one group, and whether it keeps something and nothing but groups. */
  method Edges(index: map<Dn, nat>, names: Names, values: seq<Value>) returns (next: seq<nat>, onlyGroups: bool)
    requires ValuesChecked(names, values)
    ensures IsEdges(index, names, values, next)
    ensures onlyGroups <==>
      Kept(names, values) != [] && forall v :: v in Kept(names, values) ==> v.key.Some? && v.key.value in index
  {
    var remaining := |values| - CountNotFound(names, values);
    KeptCount(names, values);
    next, onlyGroups := [], remaining > 0;
    for k := 0 to |values|
      invariant forall v :: v in values[..k] && !NotFound(names, v) && v.key.Some? && v.key.value in index ==>
        index[v.key.value] in next
      invariant forall j: nat :: j in next ==>
        exists v :: v in values[..k] && !NotFound(names, v) && v.key.Some? && v.key.value in index &&
          index[v.key.value] == j
      invariant onlyGroups <==>
        remaining > 0 && forall v :: v in values[..k] && !NotFound(names, v) ==> v.key.Some? && v.key.value in index
    {
      var v := values[k];
      assert values[..k + 1] == values[..k] + [v];
      if NotFound(names, v) {
      } else if v.key.None? || v.key.value !in index {
        onlyGroups := false;
      } else {
        next := next + [index[v.key.value]];
      }
    }
    assert values[..|values|] == values;
  }

  function CountNotFound(names: Names, values: seq<Value>): nat
    requires ValuesChecked(names, values)
  {
    if values == [] then 0
    else (if NotFound(names, values[0]) then 1 else 0) + CountNotFound(names, values[1..])
  }

  /** Every value is either not found or remaining. */
  lemma {:induction false} KeptCount(names: Names, values: seq<Value>)
    requires ValuesChecked(names, values)
    ensures |Kept(names, values)| == |values| - CountNotFound(names, values)
  {
    if values != [] {
      KeptCount(names, values[1..]);
    }
  }

  // ----- groups that hold nobody through nesting

  /** Groups that keep only groups, each of them empty or in `s` again. */
  ghost predicate Stable(edges: Graph, remaining: seq<nat>, onlyGroups: seq<bool>, s: iset<nat>)
    requires ValidGraph(edges) && |remaining| == |onlyGroups| == |edges|
  {
    && (forall i :: i in s ==> i < |edges| && onlyGroups[i])
    && (forall i, j :: i in s && j in edges[i] ==> remaining[j] == 0 || j in s)
  }

  ghost function Flagged(flags: seq<bool>): iset<nat>
  {
    iset i: nat | i < |flags| && flags[i]
  }

  ghost function Trues(flags: seq<bool>): set<nat>
  {
    set i: nat | i < |flags| && flags[i]
  }

  /** The greatest stable set, by taking groups out until nothing changes. */
  method NoPerson(edges: Graph, remaining: seq<nat>, onlyGroups: seq<bool>) returns (noPerson: array<bool>)
    requires ValidGraph(edges) && |remaining| == |onlyGroups| == |edges|
    ensures fresh(noPerson) && noPerson.Length == |edges|
    ensures Stable(edges, remaining, onlyGroups, Flagged(noPerson[..]))
    ensures forall s :: Stable(edges, remaining, onlyGroups, s) ==> s <= Flagged(noPerson[..])
  {
    noPerson := new bool[|edges|](i requires 0 <= i < |onlyGroups| => onlyGroups[i]);
    var changed := true;
    while changed
      invariant forall i: nat :: i < |edges| && noPerson[i] ==> onlyGroups[i]
      invariant forall s :: Stable(edges, remaining, onlyGroups, s) ==> s <= Flagged(noPerson[..])
      invariant !changed ==> Stable(edges, remaining, onlyGroups, Flagged(noPerson[..]))
      decreases Trues(noPerson[..]), changed
    {
      changed := Sweep(edges, remaining, onlyGroups, noPerson);
    }
  }

  /** One pass over the groups. */
  method Sweep(edges: Graph, remaining: seq<nat>, onlyGroups: seq<bool>, noPerson: array<bool>) returns (changed: bool)
    requires ValidGraph(edges) && |remaining| == |onlyGroups| == |edges| == noPerson.Length
    requires forall i: nat :: i < |edges| && noPerson[i] ==> onlyGroups[i]
    requires forall s :: Stable(edges, remaining, onlyGroups, s) ==> s <= Flagged(noPerson[..])
    modifies noPerson
    ensures forall i: nat :: i < |edges| && noPerson[i] ==> onlyGroups[i]
    ensures forall s :: Stable(edges, remaining, onlyGroups, s) ==> s <= Flagged(noPerson[..])
    ensures !changed ==> noPerson[..] == old(noPerson[..])
    ensures !changed ==> Stable(edges, remaining, onlyGroups, Flagged(noPerson[..]))
    ensures changed ==> Trues(noPerson[..]) < Trues(old(noPerson[..]))
  {
    changed := false;
    for i := 0 to |edges|
      invariant forall k: nat :: k < |edges| && noPerson[k] ==> onlyGroups[k] && old(noPerson[k])
      invariant forall s :: Stable(edges, remaining, onlyGroups, s) ==> s <= Flagged(noPerson[..])
      invariant !changed ==> noPerson[..] == old(noPerson[..])
      invariant !changed ==> forall k: nat, j :: k < i && noPerson[k] && j in edges[k] ==>
        remaining[j] == 0 || noPerson[j]
      invariant changed ==> exists k: nat :: k < |edges| && old(noPerson[k]) && !noPerson[k]
    {
      if noPerson[i] {
        for n := 0 to |edges[i]|
          invariant forall m: nat :: m < n ==> remaining[edges[i][m]] == 0 || noPerson[edges[i][m]]
        {
          var j := edges[i][n];
          if remaining[j] > 0 && !noPerson[j] {
            noPerson[i], changed := false, true;
            break;
          }
        }
      }
    }
    if changed {
      ghost var k: nat :| k < |edges| && old(noPerson[k]) && !noPerson[k];
      assert k in Trues(old(noPerson[..])) && k !in Trues(noPerson[..]);
    }
  }

  // ----- the whole report

  /** The graph of the groups read, with what each keeps. */
  ghost predicate IsGraph(groups: seq<Group>, names: Names, edges: Graph, remaining: seq<nat>, onlyGroups: seq<bool>)
    requires Checked(groups, names)
  {
    && |edges| == |remaining| == |onlyGroups| == |groups|
    && ValidGraph(edges)
    && (forall i: nat {:trigger edges[i]} :: i < |groups| ==>
          GroupFacts(groups, names, groups[i], edges[i], remaining[i], onlyGroups[i]))
  }

  ghost predicate GroupFacts(groups: seq<Group>, names: Names, g: Group,
      next: seq<nat>, remaining: nat, onlyGroups: bool)
  {
    && ValuesChecked(names, g.values)
    && remaining == |Kept(names, g.values)|
    && (remaining == 0 ==> next == [])
    && (onlyGroups <==> remaining > 0 && !HoldsOther(groups, names, g))
    && (forall j: nat :: j in next ==> j < |groups|)
  }

  /** What report works out about one group. */
  method GroupRow(groups: seq<Group>, names: Names, index: map<Dn, nat>, g: Group)
    returns (next: seq<nat>, remaining: nat, onlyGroups: bool)
    requires IsIndex(groups, index) && ValuesChecked(names, g.values)
    ensures GroupFacts(groups, names, g, next, remaining, onlyGroups) && IsEdges(index, names, g.values, next)
  {
    next, onlyGroups := Edges(index, names, g.values);
    KeptCount(names, g.values);
    remaining := |g.values| - CountNotFound(names, g.values);
    assert next != [] ==> next[0] in next;
  }

  method BuildRows(remaining: seq<nat>, noPerson: array<bool>) returns (rows: seq<Row>)
    requires |remaining| == noPerson.Length
    ensures |rows| == |remaining| && forall k: nat :: k < |rows| ==> rows[k] == Row(remaining[k], noPerson[k])
  {
    rows := [];
    for i := 0 to |remaining|
      invariant |rows| == i
      invariant forall k: nat :: k < i ==> rows[k] == Row(remaining[k], noPerson[k])
    {
      rows := rows + [Row(remaining[i], noPerson[i])];
    }
  }

  /** Something outside the groups read is reached from `i` through remaining members. */
  ghost predicate ReachesOther(groups: seq<Group>, names: Names, edges: Graph, i: nat)
    requires Checked(groups, names)
  {
    exists j: nat :: j < |groups| && Reach(StepOf(edges), i, j) && HoldsOther(groups, names, groups[j])
  }

  /** A group that is flagged reaches only groups that are flagged or empty. */
  lemma FlaggedReachesNobody(groups: seq<Group>, names: Names, edges: Graph, remaining: seq<nat>,
                             onlyGroups: seq<bool>, s: iset<nat>, i: nat)
    requires Checked(groups, names) && IsGraph(groups, names, edges, remaining, onlyGroups)
    requires Stable(edges, remaining, onlyGroups, s) && i in s
    ensures !ReachesOther(groups, names, edges, i)
  {
    var inside := iset k: nat | k < |edges| && (k in s || remaining[k] == 0);
    forall j: nat | j < |groups| && Reach(StepOf(edges), i, j)
      ensures !HoldsOther(groups, names, groups[j])
    {
      ClosedUnderReach(StepOf(edges), inside, i, j);
      assert GroupFacts(groups, names, groups[j], edges[j], remaining[j], onlyGroups[j]);
    }
  }

  /** The groups that reach nothing outside the groups read are a stable set. */
  lemma NobodyIsStable(groups: seq<Group>, names: Names, edges: Graph, remaining: seq<nat>, onlyGroups: seq<bool>)
    requires Checked(groups, names) && IsGraph(groups, names, edges, remaining, onlyGroups)
    ensures Stable(edges, remaining, onlyGroups,
              iset i: nat | i < |groups| && remaining[i] > 0 && !ReachesOther(groups, names, edges, i))
  {
    var s := iset i: nat | i < |groups| && remaining[i] > 0 && !ReachesOther(groups, names, edges, i);
    forall i: nat | i in s
      ensures onlyGroups[i]
    {
      ReachSelf(StepOf(edges), i);
      assert GroupFacts(groups, names, groups[i], edges[i], remaining[i], onlyGroups[i]);
    }
    forall i: nat, j: nat | i in s && j in edges[i]
      ensures remaining[j] == 0 || j in s
    {
      forall k: nat | k < |groups| && Reach(StepOf(edges), j, k)
        ensures !HoldsOther(groups, names, groups[k])
      {
        ReachStep(StepOf(edges), i, j);
        ReachJoin(StepOf(edges), i, j, k);
      }
    }
  }

  /** The greatest stable set, said without a fixpoint. */
  lemma NoPersonMeansNobodyReached(groups: seq<Group>, names: Names, edges: Graph, remaining: seq<nat>,
                                   onlyGroups: seq<bool>, s: iset<nat>, i: nat)
    requires Checked(groups, names) && IsGraph(groups, names, edges, remaining, onlyGroups)
    requires Stable(edges, remaining, onlyGroups, s)
    requires forall t :: Stable(edges, remaining, onlyGroups, t) ==> t <= s
    requires i < |groups|
    ensures i in s <==> remaining[i] > 0 && !ReachesOther(groups, names, edges, i)
  {
    assert GroupFacts(groups, names, groups[i], edges[i], remaining[i], onlyGroups[i]);
    if i in s {
      FlaggedReachesNobody(groups, names, edges, remaining, onlyGroups, s, i);
    }
    NobodyIsStable(groups, names, edges, remaining, onlyGroups);
  }

  /** The remaining members of each group, as edges between the groups read. */
  ghost predicate MembershipEdges(groups: seq<Group>, names: Names, edges: Graph)
    requires Checked(groups, names) && |edges| == |groups|
  {
    exists index :: IsIndex(groups, index) &&
      forall i: nat {:trigger edges[i]} :: i < |groups| ==> IsEdges(index, names, groups[i].values, edges[i])
  }

  lemma RowsGiveGraph(groups: seq<Group>, names: Names, edges: Graph, remaining: seq<nat>, onlyGroups: seq<bool>)
    requires Checked(groups, names) && |edges| == |remaining| == |onlyGroups| == |groups|
    requires forall k: nat {:trigger edges[k]} :: k < |groups| ==>
      GroupFacts(groups, names, groups[k], edges[k], remaining[k], onlyGroups[k])
    ensures IsGraph(groups, names, edges, remaining, onlyGroups)
  {
    forall v: nat, j: nat | v < |edges| && j < |edges[v]|
      ensures edges[v][j] < |edges|
    {
      assert edges[v][j] in edges[v];
    }
  }

  method BuildGraph(groups: seq<Group>, names: Names)
    returns (edges: Graph, remaining: seq<nat>, onlyGroups: seq<bool>)
    requires Checked(groups, names)
    ensures IsGraph(groups, names, edges, remaining, onlyGroups)
    ensures MembershipEdges(groups, names, edges)
  {
    var index := IndexGroups(groups);
    edges, remaining, onlyGroups := [], [], [];
    for i := 0 to |groups|
      invariant |edges| == |remaining| == |onlyGroups| == i
      invariant forall k: nat {:trigger edges[k]} :: k < i ==>
        GroupFacts(groups, names, groups[k], edges[k], remaining[k], onlyGroups[k])
      invariant forall k: nat {:trigger edges[k]} :: k < i ==> IsEdges(index, names, groups[k].values, edges[k])
    {
      assert groups[i] in groups;
      var n, r, only := GroupRow(groups, names, index, groups[i]);
      edges, remaining, onlyGroups := edges + [n], remaining + [r], onlyGroups + [only];
    }
    RowsGiveGraph(groups, names, edges, remaining, onlyGroups);
  }

  ghost predicate IsReport(groups: seq<Group>, names: Names, rows: seq<Row>, cycles: seq<nat>, edges: Graph)
    requires Checked(groups, names)
  {
    && |rows| == |groups| == |edges| && MembershipEdges(groups, names, edges)
    && (forall i: nat :: i < |groups| ==>
          ValuesChecked(names, groups[i].values) && rows[i].remaining == |Kept(names, groups[i].values)|)
    && (forall i: nat :: i < |groups| ==>
          (rows[i].noPerson <==> rows[i].remaining > 0 && !ReachesOther(groups, names, edges, i)))
    && (forall i: nat :: i in cycles <==> i < |groups| && OnCycle(StepOf(edges), i))
    && (forall j: nat, k: nat :: j < k < |cycles| ==> cycles[j] < cycles[k])
  }

  /**
   The rows of the report: what each group keeps, and whether it names nobody through
   nesting; and the positions of the groups on a cycle of remaining memberships.
   */
  method Report(groups: seq<Group>, names: Names) returns (rows: seq<Row>, cycles: seq<nat>, edges: Graph)
    requires Checked(groups, names)
    ensures IsReport(groups, names, rows, cycles, edges)
  {
    var next, remaining, onlyGroups := BuildGraph(groups, names);
    edges := next;
    var noPerson := NoPerson(next, remaining, onlyGroups);
    rows := BuildRows(remaining, noPerson);
    forall i: nat | i < |groups|
      ensures ValuesChecked(names, groups[i].values) && rows[i].remaining == |Kept(names, groups[i].values)|
      ensures rows[i].noPerson <==> rows[i].remaining > 0 && !ReachesOther(groups, names, edges, i)
    {
      assert GroupFacts(groups, names, groups[i], edges[i], remaining[i], onlyGroups[i]);
      NoPersonMeansNobodyReached(groups, names, edges, remaining, onlyGroups, Flagged(noPerson[..]), i);
    }
    cycles := OnCycles.OnCycles(next);
  }
}
