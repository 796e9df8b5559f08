/**
 What an audit says, in terms of the groups' values as they were read: which names it looks
 for, what it says remains of a group, and when a group holds nobody through nesting.
 */
module AuditValues {
  import opened Basics
  import opened Options
  import opened Dns
  import opened Paths
  import opened Paging
  import opened AuditReport
  import opened AuditServer
  import opened AuditSearch
  import opened Audit
  import OnCycles

  /** The value is a DN that the answer reports as not found. */
  predicate ReportedMissing(names: Names, v: Option<Dn>)
  {
    v.Some? && v.value in names && !names[v.value].belowReferral && !names[v.value].found
  }

  ghost predicate InSomeContext(contexts: seq<Dn>, n: Dn)
  {
    exists c :: c in contexts && HasSuffix(n, c)
  }

  /** Some group names the DN. */
  ghost predicate GivenBy(all: seq<RawGroup>, n: Dn)
  {
    exists g :: g in all && Some(n) in g.values
  }

  lemma ContextIs(contexts: seq<Dn>, n: Dn)
    ensures InContext(contexts, n) <==> InSomeContext(contexts, n)
  {
    if InSomeContext(contexts, n) {
      var c :| c in contexts && HasSuffix(n, c);
      var i: nat :| i < |contexts| && contexts[i] == c;
    }
  }

  lemma MentionedIs(contexts: seq<Dn>, g: RawGroup, n: Dn)
    ensures Mentions(Classify(contexts, g), n) <==> Some(n) in g.values && InSomeContext(contexts, n)
  {
    ContextIs(contexts, n);
    var values := Classify(contexts, g).values;
    if Some(n) in g.values && InSomeContext(contexts, n) {
      var k: nat :| k < |g.values| && g.values[k] == Some(n);
      assert values[k] == Value(Some(n));
    }
    if Mentions(Classify(contexts, g), n) {
      var k: nat :| k < |values| && values[k] == Value(Some(n));
      assert g.values[k] == Some(n);
    }
  }

  lemma NamedIsGiven(contexts: seq<Dn>, all: seq<RawGroup>, n: Dn)
    ensures NamedByGroup(Classified(contexts, all), n) <==> InSomeContext(contexts, n) && GivenBy(all, n)
  {
    var groups := Classified(contexts, all);
    if NamedByGroup(groups, n) {
      var g :| g in groups && Mentions(g, n);
      var i: nat :| i < |groups| && groups[i] == g;
      MentionedIs(contexts, all[i], n);
      assert all[i] in all;
    }
    if InSomeContext(contexts, n) && GivenBy(all, n) {
      var g :| g in all && Some(n) in g.values;
      var i: nat :| i < |all| && all[i] == g;
      MentionedIs(contexts, all[i], n);
      assert groups[i] in groups;
    }
  }

  /** An audit looks for exactly the DNs that some group names and that are in some naming context. */
  lemma NamesAreGiven(s: Server, contexts: seq<Dn>, groupSearch: Pager<RawGroup>, base: Dn, limit: nat,
      all: seq<RawGroup>, audit: Audit, trail: Trail, n: Dn)
    requires IsAudit(s, contexts, groupSearch, base, limit, all, audit, trail)
    ensures n in audit.names <==>
      (exists c :: c in contexts && HasSuffix(n, c)) && (exists g :: g in all && Some(n) in g.values)
  {
    NamesOfAre(audit.groups);
    NamedIsGiven(contexts, all, n);
  }

  /** The names looked for, and the groups with the values that are checked, as the report gets them. */
  ghost predicate Prepared(contexts: seq<Dn>, all: seq<RawGroup>, groups: seq<Group>, names: Names)
  {
    && groups == Classified(contexts, all) && Checked(groups, names)
    && forall n :: n in names <==> InSomeContext(contexts, n) && GivenBy(all, n)
  }

  lemma IsPrepared(s: Server, contexts: seq<Dn>, groupSearch: Pager<RawGroup>, base: Dn, limit: nat,
      all: seq<RawGroup>, audit: Audit, trail: Trail)
    requires IsAudit(s, contexts, groupSearch, base, limit, all, audit, trail)
    ensures Prepared(contexts, all, audit.groups, audit.names)
    ensures IsReport(audit.groups, audit.names, audit.rows, audit.cycles, trail.edges)
  {
    forall n
      ensures n in audit.names <==> InSomeContext(contexts, n) && GivenBy(all, n)
    {
      NamesAreGiven(s, contexts, groupSearch, base, limit, all, audit, trail, n);
    }
  }

  /** A value of a group, as the report knows it. */
  lemma ValueIs(contexts: seq<Dn>, all: seq<RawGroup>, groups: seq<Group>, names: Names, i: nat, k: nat)
    requires Prepared(contexts, all, groups, names) && i < |all| && k < |all[i].values|
    ensures |groups| == |all| && groups[i].dn == all[i].dn && |groups[i].values| == |all[i].values|
    ensures ValuesChecked(names, groups[i].values)
    ensures var v, raw := groups[i].values[k], all[i].values[k];
      && (v.key.Some? <==> raw.Some? && raw.value in names) && (v.key.Some? ==> v.key == raw)
      && (v.key.Some? ==> v.key.value in names) && (NotFound(names, v) <==> ReportedMissing(names, raw))
  {
    assert groups[i] == Classify(contexts, all[i]) && groups[i] in groups;
    assert groups[i].values[k] in groups[i].values;
    var raw := all[i].values[k];
    if raw.Some? {
      ContextIs(contexts, raw.value);
      assert all[i] in all && raw in all[i].values;
    }
  }

  lemma {:induction false} NotFoundPlaces(names: Names, values: seq<Value>, raw: seq<Option<Dn>>)
    requires ValuesChecked(names, values) && |values| == |raw|
    requires forall k: nat :: k < |values| ==> (NotFound(names, values[k]) <==> ReportedMissing(names, raw[k]))
    ensures CountNotFound(names, values) == |Places(raw, (v: Option<Dn>) => ReportedMissing(names, v))|
  {
    if values != [] {
      NotFoundPlaces(names, values[1..], raw[1..]);
      PlacesFirst(raw, (v: Option<Dn>) => ReportedMissing(names, v));
    }
  }

  /** What is said to remain of a group is its values less those that are reported as not found. */
  lemma RemainingIs(s: Server, contexts: seq<Dn>, groupSearch: Pager<RawGroup>, base: Dn, limit: nat,
      all: seq<RawGroup>, audit: Audit, trail: Trail, i: nat)
    requires IsAudit(s, contexts, groupSearch, base, limit, all, audit, trail) && i < |all|
    ensures |audit.rows| == |all|
    ensures audit.rows[i].remaining ==
      |all[i].values| - |Places(all[i].values, (v: Option<Dn>) => ReportedMissing(audit.names, v))|
  {
    IsPrepared(s, contexts, groupSearch, base, limit, all, audit, trail);
    RowRemains(contexts, all, audit.groups, audit.names, i);
  }

  lemma RowRemains(contexts: seq<Dn>, all: seq<RawGroup>, groups: seq<Group>, names: Names, i: nat)
    requires Prepared(contexts, all, groups, names) && i < |all|
    ensures |groups| == |all| && ValuesChecked(names, groups[i].values)
    ensures |Kept(names, groups[i].values)| ==
      |all[i].values| - |Places(all[i].values, (v: Option<Dn>) => ReportedMissing(names, v))|
  {
    var values := groups[i].values;
    assert groups[i] == Classify(contexts, all[i]) && groups[i] in groups;
    forall k: nat | k < |values|
      ensures NotFound(names, values[k]) <==> ReportedMissing(names, all[i].values[k])
    {
      ValueIs(contexts, all, groups, names, i, k);
    }
    NotFoundPlaces(names, values, all[i].values);
    KeptCount(names, values);
  }

  /** The `k`th value of the group remains, and is the DN of the `j`th group. */
  predicate LeadsTo(all: seq<RawGroup>, names: Names, i: nat, k: nat, j: nat)
    requires i < |all| && j < |all| && k < |all[i].values|
  {
    all[i].values[k] == Some(all[j].dn) && all[j].dn in names && !ReportedMissing(names, all[i].values[k])
  }

  predicate IsLastOf(all: seq<RawGroup>, j: nat)
    requires j < |all|
  {
    forall m: nat :: j < m < |all| ==> all[m].dn != all[j].dn
  }

  /** The graph of the report: from a group to each group that a remaining value of it names. */
  lemma EdgesAre(s: Server, contexts: seq<Dn>, groupSearch: Pager<RawGroup>, base: Dn, limit: nat,
      all: seq<RawGroup>, audit: Audit, trail: Trail, i: nat, j: nat)
    requires IsAudit(s, contexts, groupSearch, base, limit, all, audit, trail) && i < |all|
    ensures |trail.edges| == |all|
    ensures j in trail.edges[i] <==>
      j < |all| && IsLastOf(all, j) && exists k: nat :: k < |all[i].values| && LeadsTo(all, audit.names, i, k, j)
  {
    IsPrepared(s, contexts, groupSearch, base, limit, all, audit, trail);
    var groups, names, edges := audit.groups, audit.names, trail.edges;
    var index :| IsIndex(groups, index) &&
      forall m: nat {:trigger edges[m]} :: m < |groups| ==> IsEdges(index, names, groups[m].values, edges[m]);
    EdgeIs(contexts, all, groups, names, index, edges[i], i, j);
  }

  lemma EdgeIs(contexts: seq<Dn>, all: seq<RawGroup>, groups: seq<Group>, names: Names, index: map<Dn, nat>,
      next: seq<nat>, i: nat, j: nat)
    requires Prepared(contexts, all, groups, names) && IsIndex(groups, index) && i < |all|
    requires |groups| == |all| && IsEdges(index, names, groups[i].values, next)
    ensures j in next <==>
      j < |all| && IsLastOf(all, j) && exists k: nat :: k < |all[i].values| && LeadsTo(all, names, i, k, j)
  {
    if j in next {
      EdgeLeads(contexts, all, groups, names, index, next, i, j);
    }
    if j < |all| && IsLastOf(all, j) && exists k: nat :: k < |all[i].values| && LeadsTo(all, names, i, k, j) {
      var k: nat :| k < |all[i].values| && LeadsTo(all, names, i, k, j);
      LeadsIsEdge(contexts, all, groups, names, index, next, i, j, k);
    }
  }

  /** The index finds the last group of that DN. */
  lemma IndexIsLast(contexts: seq<Dn>, all: seq<RawGroup>, index: map<Dn, nat>, j: nat)
    requires IsIndex(Classified(contexts, all), index) && j < |all|
    ensures all[j].dn in index && (IsLastOf(all, j) <==> index[all[j].dn] == j)
  {
    SameDns(contexts, all);
    assert Classified(contexts, all)[j].dn == all[j].dn;
    var last := index[all[j].dn];
    assert all[last].dn == all[j].dn;
    if last == j {
      forall m: nat | j < m < |all|
        ensures all[m].dn != all[j].dn
      {
        assert Classified(contexts, all)[m].dn == all[m].dn;
      }
    }
  }

  lemma EdgeLeads(contexts: seq<Dn>, all: seq<RawGroup>, groups: seq<Group>, names: Names, index: map<Dn, nat>,
      next: seq<nat>, i: nat, j: nat)
    requires Prepared(contexts, all, groups, names) && IsIndex(groups, index) && i < |all|
    requires |groups| == |all| && IsEdges(index, names, groups[i].values, next) && j in next
    ensures j < |all| && IsLastOf(all, j) && exists k: nat :: k < |all[i].values| && LeadsTo(all, names, i, k, j)
  {
    var v :| v in Kept(names, groups[i].values) && v.key.Some? && v.key.value in index && index[v.key.value] == j;
    assert v in groups[i].values && !NotFound(names, v);
    var k: nat :| k < |groups[i].values| && groups[i].values[k] == v;
    assert groups[i] == Classify(contexts, all[i]);
    ValueIs(contexts, all, groups, names, i, k);
    SameDns(contexts, all);
    IndexIsLast(contexts, all, index, j);
    assert LeadsTo(all, names, i, k, j);
  }

  lemma LeadsIsEdge(contexts: seq<Dn>, all: seq<RawGroup>, groups: seq<Group>, names: Names, index: map<Dn, nat>,
      next: seq<nat>, i: nat, j: nat, k: nat)
    requires Prepared(contexts, all, groups, names) && IsIndex(groups, index) && i < |all| && j < |all|
    requires |groups| == |all| && IsEdges(index, names, groups[i].values, next) && IsLastOf(all, j)
    requires k < |all[i].values| && LeadsTo(all, names, i, k, j)
    ensures j in next
  {
    ValueIs(contexts, all, groups, names, i, k);
    IndexIsLast(contexts, all, index, j);
    var v := groups[i].values[k];
    assert v in groups[i].values && v in Kept(names, groups[i].values);
  }

  lemma SameDns(contexts: seq<Dn>, all: seq<RawGroup>)
    ensures forall m: nat :: m < |all| ==> Classified(contexts, all)[m].dn == all[m].dn
  {
  }

  /** A value of the group remains that is the DN of no group. */
  ghost predicate KeepsOther(all: seq<RawGroup>, names: Names, j: nat)
    requires j < |all|
  {
    exists k: nat :: k < |all[j].values| && !ReportedMissing(names, all[j].values[k])
      && forall m: nat :: m < |all| ==> !LeadsTo(all, names, j, k, m)
  }

  /**
   A group is said to hold nobody through nesting exactly when something remains of it and,
   from it through remaining members, only groups are reached that keep nothing but groups.
   */
  lemma NoPersonIs(s: Server, contexts: seq<Dn>, groupSearch: Pager<RawGroup>, base: Dn, limit: nat,
      all: seq<RawGroup>, audit: Audit, trail: Trail, i: nat)
    requires IsAudit(s, contexts, groupSearch, base, limit, all, audit, trail) && i < |all|
    ensures |audit.rows| == |all| == |trail.edges|
    ensures audit.rows[i].noPerson <==>
      audit.rows[i].remaining > 0 &&
      forall j: nat :: j < |all| && Reach(OnCycles.StepOf(trail.edges), i, j) ==> !KeepsOther(all, audit.names, j)
  {
    IsPrepared(s, contexts, groupSearch, base, limit, all, audit, trail);
    forall j: nat | j < |all|
      ensures HoldsOther(audit.groups, audit.names, audit.groups[j]) <==> KeepsOther(all, audit.names, j)
    {
      KeepsOtherIs(contexts, all, audit.groups, audit.names, j);
    }
    assert ReachesOther(audit.groups, audit.names, trail.edges, i) <==>
      exists j: nat :: j < |all| && Reach(OnCycles.StepOf(trail.edges), i, j) && KeepsOther(all, audit.names, j);
  }

  lemma KeepsOtherIs(contexts: seq<Dn>, all: seq<RawGroup>, groups: seq<Group>, names: Names, j: nat)
    requires Prepared(contexts, all, groups, names) && j < |all|
    ensures |groups| == |all| && ValuesChecked(names, groups[j].values)
    ensures HoldsOther(groups, names, groups[j]) <==> KeepsOther(all, names, j)
  {
    assert groups[j] == Classify(contexts, all[j]) && groups[j] in groups;
    var values := groups[j].values;
    if KeepsOther(all, names, j) {
      var k: nat :| k < |all[j].values| && !ReportedMissing(names, all[j].values[k])
        && forall m: nat :: m < |all| ==> !LeadsTo(all, names, j, k, m);
      OtherValue(contexts, all, groups, names, j, k);
      assert values[k] in Kept(names, values);
    }
    if HoldsOther(groups, names, groups[j]) {
      var v :| v in Kept(names, values) && !IsRead(groups, v);
      var k: nat :| k < |values| && values[k] == v;
      OtherValue(contexts, all, groups, names, j, k);
    }
  }

  lemma OtherValue(contexts: seq<Dn>, all: seq<RawGroup>, groups: seq<Group>, names: Names, j: nat, k: nat)
    requires Prepared(contexts, all, groups, names) && j < |all| && k < |all[j].values|
    ensures |groups| == |all| && |groups[j].values| == |all[j].values| && ValuesChecked(names, groups[j].values)
    ensures groups[j].values[k] in Kept(names, groups[j].values) <==> !ReportedMissing(names, all[j].values[k])
    ensures !ReportedMissing(names, all[j].values[k]) ==>
      (IsRead(groups, groups[j].values[k]) <==> exists m: nat :: m < |all| && LeadsTo(all, names, j, k, m))
  {
    ValueIs(contexts, all, groups, names, j, k);
    SameDns(contexts, all);
    var v := groups[j].values[k];
    assert v in groups[j].values;
    if !ReportedMissing(names, all[j].values[k]) && IsRead(groups, v) {
      var m: nat :| m < |groups| && groups[m].dn == v.key.value;
      assert LeadsTo(all, names, j, k, m);
    }
  }
}
