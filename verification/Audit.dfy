/**
 The membership audit as a whole: what its answer says of every name, which names it
 leaves unchecked and why, and when it is refused.
 */
module Audit {
  import opened Basics
  import opened Options
  import opened Dns
  import opened Paging
  import opened NarrowBases
  import opened AuditReport
  import opened AuditServer
  import opened AuditSearch
  import OnCycles

  datatype Audit = Audit(groups: seq<Group>, names: Names, below: seq<Note>, rows: seq<Row>, cycles: seq<nat>)

  /**
   How an audit came about, or how far it came: the edges of its report, the names in the
   order they were collected, what the search for groups recorded, what was recorded before
   the first check, and the names that were to be checked.
   */
  datatype Trail = Trail(edges: OnCycles.Graph, order: seq<Dn>, grouped: seq<Note>, noted: seq<Note>, pending: seq<Dn>)

  const NO_TRAIL := Trail([], [], [], [], [])

  /** Why an audit is refused by a server that fails nothing and limits nothing. */
  ghost predicate Refusable(s: Server, contexts: seq<Dn>, groupSearch: Pager<RawGroup>, base: Dn, limit: nat,
      all: seq<RawGroup>, e: Error, trail: Trail)
  {
    match e
    case TooManyGroups => |all| > limit
    case TooMuchToRead => |all| > MAX_READ || NamesRefused(s, contexts, groupSearch, base, limit, all, trail)
    case NotThere => GroupsEndIn(groupSearch, limit, NoSuchObject)
    case Elsewhere(url, matched) => GroupsEndIn(groupSearch, limit, Referral(url, matched))
    case Incomplete => false
    case Upstream => false
  }

  /** The search for groups ends with this answer. */
  ghost predicate GroupsEndIn(groupSearch: Pager<RawGroup>, limit: nat, last: Answer<RawGroup>)
  {
    exists n: nat :: LastIs(groupSearch, GroupPlan(limit), n, last)
  }

  /** The names of the groups that are to be looked for cannot be, within what is left to read. */
  ghost predicate NamesRefused(s: Server, contexts: seq<Dn>, groupSearch: Pager<RawGroup>, base: Dn, limit: nat,
      all: seq<RawGroup>, trail: Trail)
  {
    && |all| <= limit && |all| <= MAX_READ && IsTrail(s, contexts, groupSearch, base, limit, all, trail)
    && TooMuchPending(s, contexts, trail.pending, |all|)
  }

  /** What comes before the checks: the names, what is recorded, and the names this does not mark. */
  ghost predicate IsTrail(s: Server, contexts: seq<Dn>, groupSearch: Pager<RawGroup>, base: Dn, limit: nat,
      all: seq<RawGroup>, trail: Trail)
  {
    && trail.order == NamesOf(Classified(contexts, all))
    && GroupsHeard(groupSearch, base, limit, trail.grouped)
    && IsPending(s, contexts, trail.order, trail.grouped, trail.noted, trail.pending)
  }

  /** What the search for groups recorded: the references of all its pages, and nothing else. */
  ghost predicate GroupsHeard(groupSearch: Pager<RawGroup>, base: Dn, limit: nat, grouped: seq<Note>)
  {
    exists last: Answer<RawGroup> :: last.Page? && HeardUntil(groupSearch, GroupPlan(limit), base, [], grouped, last)
  }

  /**
   What an audit says: all the groups; exactly the names they give; for each whether it is
   marked, which is decided by what was recorded and that by what was answered; for each
   not marked, whether the server holds it; and the report on these.
   */
  ghost predicate IsAudit(s: Server, contexts: seq<Dn>, groupSearch: Pager<RawGroup>, base: Dn, limit: nat,
      all: seq<RawGroup>, audit: Audit, trail: Trail)
  {
    && |all| <= limit && |all| <= 50000 && IsTrail(s, contexts, groupSearch, base, limit, all, trail)
    && audit.groups == Classified(contexts, all) && Checked(audit.groups, audit.names)
    && IsFoundOut(s, contexts, trail.order, |all|, trail.grouped, trail.noted, trail.pending, audit.names, audit.below)
    && IsReport(audit.groups, audit.names, audit.rows, audit.cycles, trail.edges)
  }

  method AuditMembers(s: Server, contexts: seq<Dn>, groupSearch: Pager<RawGroup>, base: Dn, limit: nat,
                      ghost all: seq<RawGroup>)
    returns (r: Result<Audit>, trail: Trail)
    requires Truthful(s) && WellFormed(s, contexts) && Pages(groupSearch, all) && Patient(groupSearch)
    ensures r.Ok? ==> IsAudit(s, contexts, groupSearch, base, limit, all, r.value, trail)
    ensures r.Err? && Willing(s) && Answers(groupSearch) ==>
      Refusable(s, contexts, groupSearch, base, limit, all, r.error, trail)
    ensures r.Err? && r.error.Incomplete? ==>
      LimitSaid(s) || exists last :: GroupsEndIn(groupSearch, limit, last) && StopsEarly(last)
    ensures r.Err? && r.error.Upstream? ==> FailureSaid(s) || GroupsEndIn(groupSearch, limit, Failure)
  {
    var a := new MemberAuditor(contexts);
    var read, last := a.ReadGroups(groupSearch, base, limit, all);
    if read.Err? {
      EndsInLast(groupSearch, GroupPlan(limit), base, [], a.below, last);
      assert GroupsEndIn(groupSearch, limit, last);
      return Err(read.error), NO_TRAIL;
    }
    r, trail := AuditGroups(a, s, read.value, groupSearch, base, limit, all);
  }

  /** The audit of the groups read: their names, the checks, and the report. */
  method AuditGroups(a: MemberAuditor, s: Server, groups: seq<Group>, ghost groupSearch: Pager<RawGroup>,
                     ghost base: Dn, limit: nat, ghost all: seq<RawGroup>)
    returns (r: Result<Audit>, trail: Trail)
    requires Truthful(s) && WellFormed(s, a.contexts) && |all| <= limit && groups == Classified(a.contexts, all)
    requires a.names == map[] && a.entries == |all| <= MAX_READ && GroupsHeard(groupSearch, base, limit, a.below)
    modifies a
    ensures r.Ok? ==> IsAudit(s, a.contexts, groupSearch, base, limit, all, r.value, trail)
    ensures r.Err? ==> HasReason(s, r.error)
    ensures r.Err? && Willing(s) ==>
      r.error.TooMuchToRead? && NamesRefused(s, a.contexts, groupSearch, base, limit, all, trail)
  {
    var grouped := a.below;
    var order := a.CollectNames(groups);
    NamesInContext(a.contexts, all);
    NamesOfAre(groups);
    var err, noted, pending := a.FindOut(s, order);
    if err.Some? {
      return Err(err.value), Trail([], order, grouped, noted, pending);
    }
    NamesAreChecked(groups, a.names);
    var rows, cycles, edges := Report(groups, a.names);
    return Ok(Audit(groups, a.names, a.below, rows, cycles)), Trail(edges, order, grouped, noted, pending);
  }

  lemma NamesAreChecked(groups: seq<Group>, names: Names)
    requires forall n :: n in names <==> n in NamesOf(groups)
    ensures Checked(groups, names)
  {
    NamesOfAre(groups);
    forall g, v | g in groups && v in g.values && v.key.Some?
      ensures v.key.value in names
    {
      assert v == Value(Some(v.key.value)) && Mentions(g, v.key.value);
    }
  }

  lemma NamesInContext(contexts: seq<Dn>, all: seq<RawGroup>)
    ensures forall n :: n in NamesOf(Classified(contexts, all)) ==> InContext(contexts, n)
  {
    NamesOfAre(Classified(contexts, all));
    forall n | n in NamesOf(Classified(contexts, all))
      ensures InContext(contexts, n)
    {
      NamedInContext(contexts, all, n);
    }
  }

  lemma NamedInContext(contexts: seq<Dn>, all: seq<RawGroup>, n: Dn)
    requires NamedByGroup(Classified(contexts, all), n)
    ensures InContext(contexts, n)
  {
    var g :| g in Classified(contexts, all) && Mentions(g, n);
  }

  // ----- made or refused, but not either

  lemma LastOnce<T(!new)>(p: Pager<T>, q: Asks, m: nat, n: nat)
    requires IsLast(p, q, m) && IsLast(p, q, n)
    ensures m == n
  {
    EndsAfter(p, q, m + 1, n);
    EndsAfter(p, q, n + 1, m);
  }

  lemma HeardOnce<T(!new)>(p: Pager<T>, q: Asks, base: Dn, before: seq<Note>,
      a: seq<Note>, last: Answer<T>, b: seq<Note>, other: Answer<T>)
    requires HeardUntil(p, q, base, before, a, last) && HeardUntil(p, q, base, before, b, other)
    ensures a == b && last == other
  {
    var m: nat :| LastIs(p, q, m, last) && a == before + Heard(p, q, base, m + 1);
    var n: nat :| LastIs(p, q, n, other) && b == before + Heard(p, q, base, n + 1);
    LastOnce(p, q, m, n);
  }

  lemma EndsInLast<T(!new)>(p: Pager<T>, q: Asks, base: Dn, before: seq<Note>, after: seq<Note>, last: Answer<T>)
    requires HeardUntil(p, q, base, before, after, last)
    ensures exists n: nat :: LastIs(p, q, n, last)
    ensures forall n: nat, other :: LastIs(p, q, n, other) ==> other == last
  {
    var m: nat :| LastIs(p, q, m, last) && after == before + Heard(p, q, base, m + 1);
    forall n: nat, other | LastIs(p, q, n, other)
      ensures other == last
    {
      LastOnce(p, q, m, n);
    }
  }

  lemma GroupedOnce(groupSearch: Pager<RawGroup>, base: Dn, limit: nat, a: seq<Note>, b: seq<Note>)
    requires GroupsHeard(groupSearch, base, limit, a) && GroupsHeard(groupSearch, base, limit, b)
    ensures a == b
  {
    var last :| HeardUntil(groupSearch, GroupPlan(limit), base, [], a, last);
    var other :| HeardUntil(groupSearch, GroupPlan(limit), base, [], b, other);
    HeardOnce(groupSearch, GroupPlan(limit), base, [], a, last, b, other);
  }

  /** The answers decide what is recorded and which names are to be looked for. */
  lemma OneTrail(s: Server, contexts: seq<Dn>, groupSearch: Pager<RawGroup>, base: Dn, limit: nat,
      all: seq<RawGroup>, a: Trail, b: Trail)
    requires IsTrail(s, contexts, groupSearch, base, limit, all, a)
    requires IsTrail(s, contexts, groupSearch, base, limit, all, b)
    ensures a.order == b.order && a.grouped == b.grouped && a.noted == b.noted && a.pending == b.pending
  {
    GroupedOnce(groupSearch, base, limit, a.grouped, b.grouped);
  }

  /** So where an audit can be made there is no reason to refuse it, and its refusals say exactly when it cannot. */
  lemma NeverBoth(s: Server, contexts: seq<Dn>, groupSearch: Pager<RawGroup>, base: Dn, limit: nat,
      all: seq<RawGroup>, audit: Audit, trail: Trail, e: Error, other: Trail)
    requires IsAudit(s, contexts, groupSearch, base, limit, all, audit, trail)
    ensures !Refusable(s, contexts, groupSearch, base, limit, all, e, other)
  {
    if NamesRefused(s, contexts, groupSearch, base, limit, all, other) {
      OneTrail(s, contexts, groupSearch, base, limit, all, trail, other);
    }
    forall last | GroupsEndIn(groupSearch, limit, last)
      ensures last.Page?
    {
      EndsInPage(groupSearch, base, limit, trail.grouped, last);
    }
  }

  lemma EndsInPage(groupSearch: Pager<RawGroup>, base: Dn, limit: nat, grouped: seq<Note>, last: Answer<RawGroup>)
    requires GroupsHeard(groupSearch, base, limit, grouped) && GroupsEndIn(groupSearch, limit, last)
    ensures last.Page?
  {
    var page: Answer<RawGroup> :| page.Page? && HeardUntil(groupSearch, GroupPlan(limit), base, [], grouped, page);
    EndsInLast(groupSearch, GroupPlan(limit), base, [], grouped, page);
  }

  lemma GroupsAdd(groupSearch: Pager<RawGroup>, base: Dn, limit: nat, grouped: seq<Note>)
    requires GroupsHeard(groupSearch, base, limit, grouped)
    ensures Adds([], grouped, PageReferrals(groupSearch, base))
  {
    var last :| HeardUntil(groupSearch, GroupPlan(limit), base, [], grouped, last);
    HeardUntilAdds(groupSearch, GroupPlan(limit), base, [], grouped, last);
  }

  // ----- why a referral is recorded

  /** The audit was given this referral, by one of its searches or reads. */
  ghost predicate HasCause(s: Server, contexts: seq<Dn>, groupSearch: Pager<RawGroup>, base: Dn, names: Names, d: Note)
  {
    || FromPage(groupSearch, base, d)
    || (exists n :: n in names && s.definesReferral && FromObject(s, contexts, n, d))
    || (exists n :: n in names && d in ReadReferrals(s.read(n), n))
    || (exists b: Base :: ForSomeName(contexts, names, b.dn) && d in BaseReferrals(s, b))
  }

  /** Such a base lies between one of the names and its context. */
  ghost predicate ForSomeName(contexts: seq<Dn>, names: Names, b: Dn)
  {
    exists n :: n in names && Between(contexts, n, b)
  }

  /** Whatever an audit records, it was told. */
  lemma RecordsHaveCause(s: Server, contexts: seq<Dn>, groupSearch: Pager<RawGroup>, base: Dn, limit: nat,
      all: seq<RawGroup>, audit: Audit, trail: Trail, d: Note)
    requires IsAudit(s, contexts, groupSearch, base, limit, all, audit, trail) && d in audit.below
    ensures HasCause(s, contexts, groupSearch, base, audit.names, d)
  {
    var k: nat :| k < |audit.below| && audit.below[k] == d;
    NotedFirst(s, contexts, trail.pending, |all|, trail.noted, audit.below);
    NamesOfAre(audit.groups);
    UnmarkedAre(trail.order, trail.noted);
    if k < |trail.noted| {
      assert trail.noted[k] == d;
      NotedHasCause(s, contexts, groupSearch, base, limit, trail.order, trail.grouped, d, audit.names);
    } else if |trail.pending| <= DIRECT_READS {
      ReadsHaveCause(s, trail.pending, |trail.pending|, d);
    } else {
      SearchesHaveCause(s, contexts, trail.pending, |all|, trail.noted, audit.below, k, audit.names);
    }
  }

  lemma NotedHasCause(s: Server, contexts: seq<Dn>, groupSearch: Pager<RawGroup>, base: Dn, limit: nat,
      order: seq<Dn>, grouped: seq<Note>, d: Note, names: Names)
    requires GroupsHeard(groupSearch, base, limit, grouped) && forall n :: n in order ==> n in names
    requires d in grouped + ObjectNotes(s, contexts, order)
    ensures HasCause(s, contexts, groupSearch, base, names, d)
  {
    if d in grouped {
      GroupsAdd(groupSearch, base, limit, grouped);
    } else {
      ObjectNotesAre(s, contexts, order, d);
    }
  }

  lemma SearchesHaveCause(s: Server, contexts: seq<Dn>, pending: seq<Dn>, entries: nat, noted: seq<Note>,
      below: seq<Note>, k: nat, names: Names)
    requires SearchAdds(s, contexts, pending, entries, noted, below) && |noted| <= k < |below|
    requires forall n :: n in pending ==> n in names
    ensures exists b: Base :: ForSomeName(contexts, names, b.dn) && below[k] in BaseReferrals(s, b)
  {
    var bases := Bases(pending, contexts);
    HeardBasesAdd(s, bases, |bases|, entries, noted, below);
    assert FromBases(s, bases, below[k]);
    var i: nat :| i < |bases| && below[k] in BaseReferrals(s, bases[i]);
    BasesNarrowed(pending, contexts);
    assert IsFor(pending, contexts, bases[i].dn);
    assert ForSomeName(contexts, names, bases[i].dn);
  }

  lemma {:induction false} ReadsHaveCause(s: Server, order: seq<Dn>, k: nat, d: Note)
    requires k <= |order| && d in ReadsRecord(s, order, k)
    ensures exists n :: n in order && d in ReadReferrals(s.read(n), n)
  {
    if d in ReadsRecord(s, order, k - 1) {
      ReadsHaveCause(s, order, k - 1, d);
    } else {
      assert order[k - 1] in order;
    }
  }

  /** The server gives no referral, in whatever way. */
  ghost predicate NoReferrals(s: Server, groupSearch: Pager<RawGroup>)
  {
    && (forall b :: RefersNowhere(s.search(b))) && RefersNowhere(groupSearch)
    && (forall c {:trigger s.references(c)} :: s.references(c) == [])
    && (forall d :: !s.read(d).Referred?)
  }

  ghost predicate RefersNowhere<T(!new)>(p: Pager<T>)
  {
    && (forall a :: Says(p, a) && a.Page? ==> a.references == [])
    && (forall url, matched :: !Says(p, Referral(url, matched)))
  }

  /** Without referrals every name is checked, and found exactly when the server holds it. */
  lemma EveryNameChecked(s: Server, contexts: seq<Dn>, groupSearch: Pager<RawGroup>, base: Dn, limit: nat,
      all: seq<RawGroup>, audit: Audit, trail: Trail)
    requires IsAudit(s, contexts, groupSearch, base, limit, all, audit, trail) && NoReferrals(s, groupSearch)
    ensures audit.below == []
    ensures forall n :: n in audit.names ==> audit.names[n] == Name(false, n in s.held)
  {
    NothingRecorded(s, contexts, groupSearch, base, limit, all, audit, trail);
    forall n | n in audit.names
      ensures audit.names[n] == Name(false, n in s.held)
    {
      NothingMarks(s, trail.pending, n);
    }
  }

  lemma NothingRecorded(s: Server, contexts: seq<Dn>, groupSearch: Pager<RawGroup>, base: Dn, limit: nat,
      all: seq<RawGroup>, audit: Audit, trail: Trail)
    requires IsAudit(s, contexts, groupSearch, base, limit, all, audit, trail) && NoReferrals(s, groupSearch)
    ensures audit.below == [] && trail.noted == []
  {
    forall d
      ensures d !in audit.below
    {
      NoCause(s, contexts, groupSearch, base, audit.names, d);
      if d in audit.below {
        RecordsHaveCause(s, contexts, groupSearch, base, limit, all, audit, trail, d);
      }
    }
    SomethingIn(audit.below);
    NotedFirst(s, contexts, trail.pending, |all|, trail.noted, audit.below);
  }

  /** What was recorded before the checks is still there after them. */
  lemma NotedFirst(s: Server, contexts: seq<Dn>, pending: seq<Dn>, entries: nat, noted: seq<Note>, below: seq<Note>)
    requires Recorded(s, contexts, pending, entries, noted, below)
    ensures noted <= below
  {
    if |pending| > DIRECT_READS {
      var bases := Bases(pending, contexts);
      HeardBasesAdd(s, bases, |bases|, entries, noted, below);
    }
  }

  lemma NothingMarks(s: Server, pending: seq<Dn>, n: Dn)
    requires !s.read(n).Referred?
    ensures !MarkedBy(s, pending, [], [], n)
  {
  }

  lemma NoCause(s: Server, contexts: seq<Dn>, groupSearch: Pager<RawGroup>, base: Dn, names: Names, d: Note)
    requires NoReferrals(s, groupSearch)
    ensures !HasCause(s, contexts, groupSearch, base, names, d)
  {
    forall b: Base
      ensures d !in BaseReferrals(s, b)
    {
      assert RefersNowhere(s.search(b));
    }
  }

  // ----- which names are reported not found

  /** Some reference that came back from the contexts in use is recorded at or above `n`. */
  ghost predicate UnderObject(s: Server, contexts: seq<Dn>, order: seq<Dn>, n: Dn)
  {
    exists d: Note :: FromObjects(s, contexts, order, d) && HasSuffix(n, d.at)
  }

  /** No reference that comes with the groups or from a context is an empty text. */
  ghost predicate NoBlanks(s: Server, groupSearch: Pager<RawGroup>)
  {
    && (forall c, u :: u in s.references(c) ==> !u.Blank?)
    && (forall a, u :: Says(groupSearch, a) && a.Page? && u in a.references ==> !u.Blank?)
  }

  /**
   A name is left unchecked from the start exactly when the first reference at or above it is
   no empty text, those that came with the groups first and then those from the contexts in
   use; and where none is empty, exactly when there is one.
   */
  lemma MarkedBeforeReading(s: Server, contexts: seq<Dn>, groupSearch: Pager<RawGroup>, base: Dn, limit: nat,
      all: seq<RawGroup>, audit: Audit, trail: Trail, n: Dn)
    requires IsAudit(s, contexts, groupSearch, base, limit, all, audit, trail)
    ensures Marks(trail.noted, n) <==>
      Marks(trail.grouped, n) || (!Covers(trail.grouped, n) && Marks(ObjectNotes(s, contexts, trail.order), n))
    ensures NoBlanks(s, groupSearch) ==>
      (Marks(trail.noted, n) <==> Covers(trail.grouped, n) || UnderObject(s, contexts, trail.order, n))
  {
    MarksSplit(trail.grouped, ObjectNotes(s, contexts, trail.order), n);
    CoveredByObjects(s, contexts, trail.order, n);
    if NoBlanks(s, groupSearch) {
      AllNotedLabelled(s, contexts, groupSearch, base, limit, trail.order, trail.grouped, trail.noted);
      AllLabelled(trail.noted, n);
    }
  }

  lemma CoveredByObjects(s: Server, contexts: seq<Dn>, order: seq<Dn>, n: Dn)
    ensures Covers(ObjectNotes(s, contexts, order), n) <==> UnderObject(s, contexts, order, n)
  {
    var notes := ObjectNotes(s, contexts, order);
    if Covers(notes, n) {
      var k: nat :| k < |notes| && HasSuffix(n, notes[k].at);
      ObjectNotesAre(s, contexts, order, notes[k]);
    }
    if UnderObject(s, contexts, order, n) {
      var d: Note :| FromObjects(s, contexts, order, d) && HasSuffix(n, d.at);
      ObjectNotesAre(s, contexts, order, d);
      var k: nat :| k < |notes| && notes[k] == d;
    }
  }

  lemma AllNotedLabelled(s: Server, contexts: seq<Dn>, groupSearch: Pager<RawGroup>, base: Dn, limit: nat,
      order: seq<Dn>, grouped: seq<Note>, noted: seq<Note>)
    requires GroupsHeard(groupSearch, base, limit, grouped) && NoBlanks(s, groupSearch)
    requires noted == grouped + ObjectNotes(s, contexts, order)
    ensures forall k: nat :: k < |noted| ==> noted[k].labelled
  {
    GroupsAdd(groupSearch, base, limit, grouped);
    forall k: nat | k < |noted|
      ensures noted[k].labelled
    {
      if k < |grouped| {
        assert grouped[k] in PageReferrals(groupSearch, base);
      } else {
        assert noted[k] in ObjectNotes(s, contexts, order);
        ObjectNotesAre(s, contexts, order, noted[k]);
      }
    }
  }

  /** A name is reported not found exactly when the server does not hold it and nothing marks it. */
  lemma NotFoundIff(s: Server, contexts: seq<Dn>, groupSearch: Pager<RawGroup>, base: Dn, limit: nat,
      all: seq<RawGroup>, audit: Audit, trail: Trail, n: Dn)
    requires IsAudit(s, contexts, groupSearch, base, limit, all, audit, trail) && n in audit.names
    ensures NotFound(audit.names, Value(Some(n))) <==>
      n !in s.held && !MarkedBy(s, trail.pending, trail.noted, audit.below, n)
  {
  }

  /** Below a referral the server says "no such object": it refers no read and no search. */
  ghost predicate Silent(s: Server)
  {
    (forall b :: RefersNowhere(s.search(b))) && forall d :: !s.read(d).Referred?
  }

  /**
   Of a silent server, a name is reported not found exactly when it is not held and of the
   references that came with the groups, and then from the contexts in use, the first at or
   above it is an empty text, or there is none: its being below a referral object does not
   help where the URL names another DN.
   */
  lemma SilentNotFoundIff(s: Server, contexts: seq<Dn>, groupSearch: Pager<RawGroup>, base: Dn, limit: nat,
      all: seq<RawGroup>, audit: Audit, trail: Trail, n: Dn)
    requires IsAudit(s, contexts, groupSearch, base, limit, all, audit, trail) && n in audit.names && Silent(s)
    ensures NotFound(audit.names, Value(Some(n))) <==>
      n !in s.held && !Marks(trail.grouped + ObjectNotes(s, contexts, trail.order), n)
  {
    SilentMarks(s, contexts, trail.pending, |all|, trail.noted, audit.below, n);
    NotFoundIff(s, contexts, groupSearch, base, limit, all, audit, trail, n);
  }

  lemma SilentMarks(s: Server, contexts: seq<Dn>, pending: seq<Dn>, entries: nat,
      noted: seq<Note>, below: seq<Note>, n: Dn)
    requires Silent(s) && Recorded(s, contexts, pending, entries, noted, below)
    ensures MarkedBy(s, pending, noted, below, n) <==> Marks(noted, n)
  {
    if |pending| > DIRECT_READS {
      SilentSearches(s, contexts, pending, entries, noted, below);
    }
  }

  lemma SilentSearches(s: Server, contexts: seq<Dn>, pending: seq<Dn>, entries: nat,
      noted: seq<Note>, below: seq<Note>)
    requires Silent(s) && SearchAdds(s, contexts, pending, entries, noted, below)
    ensures below == noted
  {
    var bases := Bases(pending, contexts);
    HeardBasesAdd(s, bases, |bases|, entries, noted, below);
    NoSearchReferrals(s, bases);
    AddsSome(noted, below, SearchReferrals(s, bases));
  }

  lemma NoSearchReferrals(s: Server, bases: seq<Base>)
    requires Silent(s)
    ensures SearchReferrals(s, bases) == iset{}
  {
    forall k: nat | k < |bases|
      ensures BaseReferrals(s, bases[k]) == iset{}
    {
      assert RefersNowhere(s.search(bases[k]));
    }
  }

  /** What is recorded when the `i`th name is about to be read. */
  ghost function BeforeRead(s: Server, trail: Trail, i: nat): seq<Note>
    requires i <= |trail.pending|
  {
    trail.noted + ReadsRecord(s, trail.pending, i)
  }

  /**
   A name whose own read the server refers is reported not found exactly when what is recorded
   before does not mark it, and its own referrals do not or come too late: something recorded
   before is at or above it.
   */
  lemma ReferredNotFoundIff(s: Server, contexts: seq<Dn>, groupSearch: Pager<RawGroup>, base: Dn, limit: nat,
      all: seq<RawGroup>, audit: Audit, trail: Trail, i: nat)
    requires IsAudit(s, contexts, groupSearch, base, limit, all, audit, trail)
    requires i < |trail.pending| <= 200 && s.read(trail.pending[i]).Referred?
    ensures trail.pending[i] in audit.names
    ensures NotFound(audit.names, Value(Some(trail.pending[i]))) <==>
      trail.pending[i] !in s.held && UnmarkedByRead(s, BeforeRead(s, trail, i), trail.pending[i])
  {
    var n := trail.pending[i];
    NamesOfAre(audit.groups);
    UnmarkedAre(trail.order, trail.noted);
    assert n in trail.pending;
    ReferredMarkIff(s, trail.noted, trail.pending, i);
    NotFoundIff(s, contexts, groupSearch, base, limit, all, audit, trail, n);
  }

  /** Nothing recorded before the name is read marks it nor, where that does not cover it, do its own referrals. */
  ghost predicate UnmarkedByRead(s: Server, before: seq<Note>, n: Dn)
  {
    !Marks(before, n) && (Covers(before, n) || !Marks(ReadReferrals(s.read(n), n), n))
  }

  lemma ReferredMarkIff(s: Server, noted: seq<Note>, pending: seq<Dn>, i: nat)
    requires NoDuplicates(pending) && i < |pending| && s.read(pending[i]).Referred? && !Marks(noted, pending[i])
    ensures ReadMark(s, noted, pending, |pending|, pending[i]) <==>
      !UnmarkedByRead(s, noted + ReadsRecord(s, pending, i), pending[i])
  {
    var n, before := pending[i], noted + ReadsRecord(s, pending, i);
    RecordMore(s, pending, i, noted, before);
    MarksSplit(before, ReadReferrals(s.read(n), n), n);
    ReadOnce(s, noted, pending, i);
  }

  /** A referral without a URL and without a DN matched marks nothing. */
  lemma BlankMarksNothing(s: Server, before: seq<Note>, n: Dn)
    requires s.read(n) == Referred([], Blank)
    ensures UnmarkedByRead(s, before, n) <==> !Marks(before, n)
  {
    var own := ReadReferrals(s.read(n), n);
    assert own == [Note(n, false)];
  }

  lemma ReadOnce(s: Server, noted: seq<Note>, pending: seq<Dn>, i: nat)
    requires NoDuplicates(pending) && i < |pending| && s.read(pending[i]).Referred?
    ensures ReadMark(s, noted, pending, |pending|, pending[i]) <==>
      Marks(noted + ReadsRecord(s, pending, i + 1), pending[i])
  {
  }

  /** Every referral's URL names a DN at or above the referral object, when it names one. */
  ghost predicate UrlsCover(s: Server)
  {
    forall r :: r in s.referrals && s.urlOf(r).To? ==> HasSuffix(r, s.urlOf(r).dn)
  }

  /**
   A value reported as not found names no entry the server holds, nor, where URLs cover and no
   reference is an empty text, one below a referral.
   */
  lemma NotFoundMeansNotHeld(s: Server, contexts: seq<Dn>, groupSearch: Pager<RawGroup>, base: Dn, limit: nat,
      all: seq<RawGroup>, audit: Audit, trail: Trail, n: Dn)
    requires Truthful(s) && WellFormed(s, contexts)
    requires IsAudit(s, contexts, groupSearch, base, limit, all, audit, trail) && n in audit.names
    requires NotFound(audit.names, Value(Some(n)))
    ensures n !in s.held
    ensures UrlsCover(s) && NoBlanks(s, groupSearch) ==> !BelowReferral(s, n)
  {
    NotFoundIff(s, contexts, groupSearch, base, limit, all, audit, trail, n);
    MarkedBeforeReading(s, contexts, groupSearch, base, limit, all, audit, trail, n);
    if UrlsCover(s) && BelowReferral(s, n) {
      NamesInContext(contexts, all);
      CoveredByUrl(s, contexts, trail.order, n);
    }
  }

  /** Where URLs cover their referral objects, a name below one is under what is recorded for it. */
  lemma CoveredByUrl(s: Server, contexts: seq<Dn>, order: seq<Dn>, n: Dn)
    requires Truthful(s) && WellFormed(s, contexts) && UrlsCover(s)
    requires n in order && InContext(contexts, n) && BelowReferral(s, n)
    ensures UnderObject(s, contexts, order, n)
  {
    var r :| r in s.referrals && HasSuffix(n, r);
    var c := Context(contexts, n);
    InContextHasOne(contexts, n);
    var k: nat :| k < |contexts| && contexts[k] == c;
    if |r| < |c| {
      SuffixesNest(n, c, r);
      assert false;
    }
    SuffixesNest(n, r, c);
    assert TruthfulReferences(s, c);
    var note := NoteOf(s.urlOf(r), Blank, c);
    SuffixTrans(n, r, note.at);
    var i: nat :| i < |s.references(c)| && s.references(c)[i] == s.urlOf(r);
    assert Notes(s.references(c), Blank, c)[i] == note;
    assert FromObject(s, contexts, n, note);
  }

  // ----- names below a referral that are reported not found

  const CONTEXT: Dn := ["c"]
  const GROUP: Dn := ["g", "c"]
  const OBJECT: Dn := ["r", "c"]
  const MEMBER: Dn := ["m", "r", "c"]
  const ELSEWHERE: Dn := ["elsewhere"]

  /** A server that answers with everything in one page. */
  function Whole<T>(all: seq<T>): Pager<T>
  {
    (round: nat, pos: nat, want: Want) => Page(if pos <= |all| then all[pos..] else [], [], None, false)
  }

  lemma WholePages<T(!new)>(all: seq<T>)
    ensures Pages(Whole(all), all) && Patient(Whole(all)) && Answers(Whole(all)) && RefersNowhere(Whole(all))
    ensures !Says(Whole(all), NoSuchObject)
  {
    var p := Whole(all);
    forall round: nat, pos: nat, want: Want
      ensures p(round, pos, want) == Page(if pos <= |all| then all[pos..] else [], [], None, false)
    {
    }
    LateIsPatient(p, 0);
  }

  /** Which of two DNs are in the scope of a search. */
  function InScopeOf(b: Base, c: Dn, g: Dn): (listing: seq<Dn>)
    ensures forall d :: d in listing <==> (d == c || d == g) && InScope(d, b)
  {
    if InScope(c, b) then if InScope(g, b) then [c, g] else [c]
    else if InScope(g, b) then [g]
    else []
  }

  function HeldUnder(b: Base): seq<Dn>
  {
    InScopeOf(b, CONTEXT, GROUP)
  }

  /** One context, one group in it, and one referral object, with what its URL comes to and how names are read. */
  function ReferringServer(url: Reference, answer: ReadAnswer): Server
  {
    Server(iset{CONTEXT, GROUP}, iset{OBJECT}, d => url, true,
      b => Whole(HeldUnder(b)), b => HeldUnder(b),
      c => Whole([url]), c => [url],
      d => if d == CONTEXT || d == GROUP then Present else answer)
  }

  const ONE_GROUP: seq<RawGroup> := [RawGroup(GROUP, [Some(MEMBER)])]

  /** A server that holds two entries and answers every search with those in its scope. */
  lemma TwoEntries(s: Server, b: Base, c: Dn, g: Dn)
    requires s.held == iset{c, g} && s.search(b) == Whole(InScopeOf(b, c, g)) && s.listing(b) == InScopeOf(b, c, g)
    ensures TruthfulSearch(s, b) && Answers(s.search(b))
  {
    WholePages(InScopeOf(b, c, g));
  }

  lemma ReferringSearches(url: Reference, answer: ReadAnswer, b: Base)
    ensures TruthfulSearch(ReferringServer(url, answer), b) && Answers(ReferringServer(url, answer).search(b))
  {
    TwoEntries(ReferringServer(url, answer), b, CONTEXT, GROUP);
  }

  lemma ReferringObjects(url: Reference, answer: ReadAnswer, c: Dn)
    ensures TruthfulReferences(ReferringServer(url, answer), c) && WillingReferences(ReferringServer(url, answer), c)
  {
    WholePages([url]);
  }

  lemma ReferringIsWellFormed(url: Reference, answer: ReadAnswer)
    ensures WellFormed(ReferringServer(url, answer), [CONTEXT])
  {
    assert CONTEXT == ["c"] && Parent(GROUP) == CONTEXT && |OBJECT| == 2 && GROUP != OBJECT;
    assert !HasSuffix(GROUP, OBJECT) && !HasSuffix(CONTEXT, OBJECT);
  }

  lemma ReferringIsServer(url: Reference, answer: ReadAnswer)
    requires answer.Absent? || answer.Referred?
    ensures Truthful(ReferringServer(url, answer)) && WellFormed(ReferringServer(url, answer), [CONTEXT])
    ensures Willing(ReferringServer(url, answer))
  {
    var s := ReferringServer(url, answer);
    ReferringIsWellFormed(url, answer);
    forall b
      ensures TruthfulSearch(s, b) && Answers(s.search(b))
    {
      ReferringSearches(url, answer, b);
    }
    forall c
      ensures TruthfulReferences(s, c) && WillingReferences(s, c)
    {
      ReferringObjects(url, answer, c);
    }
  }

  /** What an audit of one name has before it reads it: the one reference, and the name unless that marks it. */
  ghost predicate BeforeName(url: Reference, c: Dn, n: Dn, trail: Trail)
  {
    && trail.grouped == [] && trail.order == [n] && trail.noted == [NoteOf(url, Blank, c)]
    && trail.pending == if Marks(trail.noted, n) then [] else [n]
  }

  ghost predicate BeforeMember(url: Reference, trail: Trail)
  {
    BeforeName(url, CONTEXT, MEMBER, trail)
  }

  lemma MemberIsNamed()
    ensures Classified([CONTEXT], ONE_GROUP) == [Group(GROUP, [Value(Some(MEMBER))])]
    ensures NamesOf(Classified([CONTEXT], ONE_GROUP)) == [MEMBER]
  {
    assert HasSuffix(MEMBER, CONTEXT);
    assert InContext([CONTEXT], MEMBER) by {
      assert HasSuffix(MEMBER, [CONTEXT][0]);
    }
    assert Classify([CONTEXT], ONE_GROUP[0]).values == [Value(Some(MEMBER))];
    var groups := Classified([CONTEXT], ONE_GROUP);
    assert |groups| == 1 && groups[0] == Classify([CONTEXT], ONE_GROUP[0]);
    assert groups == [Group(GROUP, [Value(Some(MEMBER))])];
    assert NamesIn(groups[0].values, []) == [MEMBER];
  }

  lemma NothingGrouped(grouped: seq<Note>)
    requires GroupsHeard(Whole(ONE_GROUP), CONTEXT, 1, grouped)
    ensures grouped == []
  {
    WholePages(ONE_GROUP);
    GroupsAdd(Whole(ONE_GROUP), CONTEXT, 1, grouped);
    assert PageReferrals(Whole(ONE_GROUP), CONTEXT) == iset{};
    AddsSome([], grouped, PageReferrals(Whole(ONE_GROUP), CONTEXT));
  }

  lemma OneName(s: Server, contexts: seq<Dn>, n: Dn, c: Dn, url: Reference, noted: seq<Note>)
    requires Context(contexts, n) == c && c in contexts && s.definesReferral && s.references(c) == [url]
    ensures ObjectNotes(s, contexts, [n]) == [NoteOf(url, Blank, c)]
    ensures Unmarked([n], noted) == if Marks(noted, n) then [] else [n]
  {
    assert [n][..0] == [] && Used(contexts, []) == [] && Unmarked([], noted) == [];
    assert Used(contexts, [n]) == [c];
    assert [c][..0] == [] && NotesOf(s, []) == [];
    assert Notes([url], Blank, c) == [NoteOf(url, Blank, c)];
  }

  /** As it is when the groups give one name, and its context one reference. */
  lemma TrailOfOne(s: Server, contexts: seq<Dn>, groupSearch: Pager<RawGroup>, base: Dn, limit: nat,
      all: seq<RawGroup>, trail: Trail, n: Dn, c: Dn, url: Reference)
    requires IsTrail(s, contexts, groupSearch, base, limit, all, trail) && trail.grouped == []
    requires NamesOf(Classified(contexts, all)) == [n]
    requires Context(contexts, n) == c && c in contexts && s.definesReferral && s.references(c) == [url]
    ensures BeforeName(url, c, n, trail)
  {
    OneName(s, contexts, n, c, url, trail.noted);
  }

  lemma MemberTrail(url: Reference, answer: ReadAnswer, trail: Trail)
    requires IsTrail(ReferringServer(url, answer), [CONTEXT], Whole(ONE_GROUP), CONTEXT, 1, ONE_GROUP, trail)
    ensures BeforeMember(url, trail)
  {
    NothingGrouped(trail.grouped);
    OneReference(url, answer);
    MemberTrailFrom(url, ReferringServer(url, answer), trail);
  }

  lemma MemberTrailFrom(url: Reference, s: Server, trail: Trail)
    requires s.definesReferral && s.references(CONTEXT) == [url] && trail.grouped == []
    requires IsTrail(s, [CONTEXT], Whole(ONE_GROUP), CONTEXT, 1, ONE_GROUP, trail)
    ensures BeforeMember(url, trail)
  {
    MemberIsNamed();
    MemberInContext();
    TrailOfOne(s, [CONTEXT], Whole(ONE_GROUP), CONTEXT, 1, ONE_GROUP, trail, MEMBER, CONTEXT, url);
  }

  lemma OneReference(url: Reference, answer: ReadAnswer)
    ensures ReferringServer(url, answer).definesReferral && ReferringServer(url, answer).references(CONTEXT) == [url]
  {
  }

  lemma MemberInContext()
    ensures Context([CONTEXT], MEMBER) == CONTEXT
  {
    assert HasSuffix(MEMBER, [CONTEXT][0]);
  }

  lemma ReadsMember(url: Reference, answer: ReadAnswer)
    ensures ReferringServer(url, answer).read(MEMBER) == answer
    ensures MEMBER !in ReferringServer(url, answer).held
  {
    assert |MEMBER| == 3 && |GROUP| == 2 && |CONTEXT| == 1;
  }

  /** Every audit of that group is an audit of its one member. */
  ghost predicate IsMemberAudit(s: Server, audit: Audit, trail: Trail)
  {
    IsAudit(s, [CONTEXT], Whole(ONE_GROUP), CONTEXT, 1, ONE_GROUP, audit, trail)
  }

  /** It reports the member as not found exactly when neither the reference marks it nor its own read does. */
  lemma MemberNotFoundIff(url: Reference, answer: ReadAnswer, s: Server, audit: Audit, trail: Trail)
    requires answer.Absent? || answer.Referred?
    requires s == ReferringServer(url, answer) && IsMemberAudit(s, audit, trail)
    ensures MEMBER in audit.names
    ensures NotFound(audit.names, Value(Some(MEMBER))) <==> UnmarkedByRead(s, [NoteOf(url, Blank, CONTEXT)], MEMBER)
  {
    MemberTrail(url, answer, trail);
    ReadsMember(url, answer);
    assert MEMBER in trail.order;
    if Marks(trail.noted, MEMBER) || answer.Absent? {
      NotFoundIff(s, [CONTEXT], Whole(ONE_GROUP), CONTEXT, 1, ONE_GROUP, audit, trail, MEMBER);
    } else {
      OnlyOneRead(s, [CONTEXT], Whole(ONE_GROUP), CONTEXT, 1, ONE_GROUP, audit, trail, MEMBER);
    }
  }

  /** As for a name that is the only one to be read. */
  lemma OnlyOneRead(s: Server, contexts: seq<Dn>, groupSearch: Pager<RawGroup>, base: Dn, limit: nat,
      all: seq<RawGroup>, audit: Audit, trail: Trail, n: Dn)
    requires IsAudit(s, contexts, groupSearch, base, limit, all, audit, trail)
    requires trail.pending == [n] && s.read(n).Referred? && n in audit.names && n !in s.held
    ensures NotFound(audit.names, Value(Some(n))) <==> UnmarkedByRead(s, trail.noted, n)
  {
    assert trail.pending[0] == n && BeforeRead(s, trail, 0) == trail.noted;
    ReferredNotFoundIff(s, contexts, groupSearch, base, limit, all, audit, trail, 0);
  }

  /** Such a server is truthful and willing, and there is no reason to refuse an audit of it. */
  lemma MemberNotRefused(url: Reference, answer: ReadAnswer, e: Error, trail: Trail)
    requires answer.Absent? || answer.Referred?
    ensures Truthful(ReferringServer(url, answer)) && WellFormed(ReferringServer(url, answer), [CONTEXT])
    ensures Willing(ReferringServer(url, answer))
    ensures Pages(Whole(ONE_GROUP), ONE_GROUP) && Patient(Whole(ONE_GROUP)) && Answers(Whole(ONE_GROUP))
    ensures !Refusable(ReferringServer(url, answer), [CONTEXT], Whole(ONE_GROUP), CONTEXT, 1, ONE_GROUP, e, trail)
  {
    ReferringIsServer(url, answer);
    WholePages(ONE_GROUP);
    NoReasonToRefuse(url, answer, e, trail);
  }

  lemma NoReasonToRefuse(url: Reference, answer: ReadAnswer, e: Error, trail: Trail)
    ensures !Refusable(ReferringServer(url, answer), [CONTEXT], Whole(ONE_GROUP), CONTEXT, 1, ONE_GROUP, e, trail)
  {
    var s := ReferringServer(url, answer);
    if NamesRefused(s, [CONTEXT], Whole(ONE_GROUP), CONTEXT, 1, ONE_GROUP, trail) {
      MemberTrail(url, answer, trail);
    }
    forall last | GroupsEndIn(Whole(ONE_GROUP), 1, last)
      ensures last.Page?
    {
      var n: nat :| LastIs(Whole(ONE_GROUP), GroupPlan(1), n, last);
    }
  }

  /**
   A server whose referral's URL names another DN, and that answers "no such object" below the
   referral object: every audit reports the member as not found.
   */
  lemma ElsewhereNotFound(audit: Audit, trail: Trail)
    requires IsMemberAudit(ReferringServer(To(ELSEWHERE), Absent), audit, trail)
    ensures BelowReferral(ReferringServer(To(ELSEWHERE), Absent), MEMBER)
    ensures MEMBER in audit.names && NotFound(audit.names, Value(Some(MEMBER)))
  {
    var s := ReferringServer(To(ELSEWHERE), Absent);
    assert HasSuffix(MEMBER, OBJECT);
    MemberNotFoundIff(To(ELSEWHERE), Absent, s, audit, trail);
    NotMarkedElsewhere(To(ELSEWHERE));
    ReadsMember(To(ELSEWHERE), Absent);
  }

  /** The reference of the referral object does not mark the member when it is empty or names a DN not above it. */
  lemma NotMarkedElsewhere(url: Reference)
    requires url.Blank? || url == To(ELSEWHERE)
    ensures !Marks([NoteOf(url, Blank, CONTEXT)], MEMBER)
  {
    assert MEMBER[|MEMBER| - 1] == "c" && ELSEWHERE[0] == "elsewhere";
  }

  /**
   A server that refers the read of the member with neither a URL nor a DN matched, and whose
   referral object's URL is empty or names another DN: every audit reports the member as not
   found, though it was referred.
   */
  lemma BlankNotFound(url: Reference, audit: Audit, trail: Trail)
    requires url.Blank? || url == To(ELSEWHERE)
    requires IsMemberAudit(ReferringServer(url, Referred([], Blank)), audit, trail)
    ensures BelowReferral(ReferringServer(url, Referred([], Blank)), MEMBER)
    ensures MEMBER in audit.names && NotFound(audit.names, Value(Some(MEMBER)))
  {
    var s := ReferringServer(url, Referred([], Blank));
    assert HasSuffix(MEMBER, OBJECT);
    MemberNotFoundIff(url, Referred([], Blank), s, audit, trail);
    NotMarkedElsewhere(url);
    ReadsMember(url, Referred([], Blank));
    BlankMarksNothing(s, [NoteOf(url, Blank, CONTEXT)], MEMBER);
  }
}
