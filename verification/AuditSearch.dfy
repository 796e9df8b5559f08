/**
 How the membership audit finds out which of the names it collected exist: paged
 searches that are read whole or refused, one read a name or a few searches under
 common ancestors, and referrals, below which nothing is checked.
 */
module AuditSearch {
  import opened Basics
  import opened Options
  import opened Dns
  import opened Paging
  import opened NarrowBases
  import opened AuditReport
  import opened AuditServer

  class MemberAuditor {
    const contexts: seq<Dn>
    var below: seq<Note>
    var entries: nat
    var names: Names

    constructor (contexts: seq<Dn>)
      ensures this.contexts == contexts && below == [] && entries == 0 && names == map[]
    {
      this.contexts, below, entries, names := contexts, [], 0, map[];
    }

    /** Records a referral: the DN it stands for, and whether it can be called by its URL or by what it matched. */
    method NoteReferral(url: Reference, matched: Reference, base: Dn)
      modifies this`below
      ensures below == old(below) + [NoteOf(url, matched, base)]
    {
      var labelled := if url.Blank? then !matched.Blank? else true;
      match url {
        case To(at) => below := below + [Note(at, labelled)];
        case _ => below := below + [Note(if matched.To? then matched.dn else base, labelled)];
      }
    }

    method NoteReferences(urls: seq<Reference>, matched: Reference, base: Dn)
      modifies this`below
      ensures below == old(below) + Notes(urls, matched, base)
    {
      for i := 0 to |urls|
        invariant below == old(below) + Notes(urls, matched, base)[..i]
      {
        NoteReferral(urls[i], matched, base);
      }
    }

    /** Asks for one page and records what it refers to. */
    method HearPage<T(!new)>(p: Pager<T>, ghost q: Asks, base: Dn, round: nat, count: nat, want: Want,
        ghost before: seq<Note>, ghost n: nat, ghost all: seq<T>)
      returns (a: Answer<T>)
      requires Pages(p, all) && count <= |all| && count < q.stop && want == WantOf(q, count)
      requires Midway(p, q, base, before, below, round, count, n)
      modifies this`below, this`entries
      ensures a.Page? ==> PageOf(all, count, a)
      ensures Answers(p) ==> Answered(a)
      ensures entries == old(entries) + if a.Page? then |a.entries| else 0
      ensures GoesOn(a, count, q) ==> Midway(p, q, base, before, below, round + 1, count + |a.entries|, n)
      ensures !GoesOn(a, count, q) ==> HeardUntil(p, q, base, before, below, a)
    {
      a := p(round, count, want);
      OneMoreAnswer(p, q, base, before, below, round, count, n, a);
      if a.Page? {
        NoteReferences(a.references, Blank, base);
        entries := entries + |a.entries|;
      }
    }

    /** Reads a search to its end, or to `most` entries, and refuses anything less. */
    method Search<T(!new)>(p: Pager<T>, base: Dn, most: nat, ghost all: seq<T>)
      returns (r: Result<seq<T>>, ghost last: Answer<T>)
      requires Pages(p, all) && Patient(p) && most >= 1 && entries <= MAX_READ
      modifies this`below, this`entries
      ensures HeardUntil(p, SearchPlan(most, old(entries)), base, old(below), below, last)
      ensures SearchResult(p, all, most, old(entries), entries, r, last)
    {
      ghost var q := SearchPlan(most, entries);
      assert Ends(p, q);
      ghost var n := Begun(p, q, base, below);
      var got: seq<T>, cookie: nat, round: nat := [], 0, 0;
      while true
        invariant cookie == |got| <= |all| && got == all[..|got|] && |got| < q.stop
        invariant entries == old(entries) + |got| <= MAX_READ
        invariant Midway(p, q, base, old(below), below, round, |got|, n)
        decreases n - round
      {
        var a, done;
        a, got, done := SearchPage(p, base, round, cookie, got, most, all, old(entries), old(below), n);
        if done.Some? {
          return done.value, a;
        }
        cookie, round := a.cookie.value, round + 1;
      }
    }

    /** Reads one page of a search, after `got`; says what the search gives when that was the last. */
    method SearchPage<T(!new)>(p: Pager<T>, base: Dn, round: nat, cookie: nat, got: seq<T>, most: nat,
        ghost all: seq<T>, ghost start: nat, ghost before: seq<Note>, ghost n: nat)
      returns (a: Answer<T>, more: seq<T>, done: Option<Result<seq<T>>>)
      requires Pages(p, all) && cookie == |got| <= |all| && got == all[..|got|]
      requires most >= 1 && entries == start + |got| <= MAX_READ && |got| < SearchPlan(most, start).stop
      requires Midway(p, SearchPlan(most, start), base, before, below, round, |got|, n)
      modifies this`below, this`entries
      ensures done.Some? ==> HeardUntil(p, SearchPlan(most, start), base, before, below, a)
      ensures done.Some? ==> SearchResult(p, all, most, start, entries, done.value, a)
      ensures done.None? ==> a.Page? && a.cookie == Some(|more|) && |more| <= |all| && more == all[..|more|]
      ensures done.None? ==> entries == start + |more| <= MAX_READ && |more| < SearchPlan(most, start).stop
      ensures done.None? ==> Midway(p, SearchPlan(most, start), base, before, below, round + 1, |more|, n)
    {
      ghost var q := SearchPlan(most, start);
      var want: Want := Min(most - |got|, Min(MAX_PAGE, MAX_READ + 1 - entries));
      a := HearPage(p, q, base, round, cookie, want, before, n, all);
      more := got;
      if a.Page? {
        LongerPrefix(all, got, a.entries);
        more := got + a.entries;
      }
      done := Judge(p, a, more, entries, most, all, start);
      assert done.None? ==> GoesOn(a, |got|, q);
    }

    /** Whether the search goes on after this answer, and what it gives when it does not. */
    method Judge<T(!new)>(ghost p: Pager<T>, a: Answer<T>, got: seq<T>, read: nat, most: nat,
        ghost all: seq<T>, ghost before: nat)
      returns (done: Option<Result<seq<T>>>)
      requires Answers(p) ==> Answered(a)
      requires |got| <= |all| && got == all[..|got|] && read == before + |got| && before <= MAX_READ && most >= 1
      requires a.Page? ==> |a.entries| <= |got| && PageOf(all, |got| - |a.entries|, a)
      requires !a.Page? ==> read <= MAX_READ
      ensures done.Some? ==> SearchResult(p, all, most, before, read, done.value, a)
      ensures done.None? <==> a.Page? && a.cookie.Some? && |got| < Min(most, MAX_READ + 1 - before)
    {
      match a {
        case ServerLimit => return Some(Err(Incomplete));
        case Failure => return Some(Err(Upstream));
        case NoSuchObject => return Some(Err(NotThere));
        case Referral(url, matched) => return Some(Err(Elsewhere(url, matched)));
        case Page(page, references, next, truncated) =>
          if read > MAX_READ {
            return Some(Err(TooMuchToRead));
          }
          if |got| >= most {
            return Some(Ok(got));
          }
          if next.None? {
            if truncated {
              return Some(Err(Incomplete));
            }
            return Some(Ok(got));
          }
          return None;
      }
    }

    /** A name is marked with what the first recorded referral at or above it is called by, if with anything. */
    method MarkBelow(n: Dn)
      requires n in names
      modifies this`names
      ensures names == old(names)[n := Marked(old(names[n]), below, n)]
    {
      if names[n].belowReferral {
        return;
      }
      for i := 0 to |below|
        invariant names == old(names)
        invariant forall k: nat :: k < i ==> !HasSuffix(n, below[k].at)
      {
        if HasSuffix(n, below[i].at) {
          assert FirstAbove(below, n, i);
          names := names[n := names[n].(belowReferral := below[i].labelled)];
          return;
        }
      }
    }

    /** The referrals a read was answered with, or the place it matched. */
    method NoteReferred(urls: seq<Reference>, matched: Reference, n: Dn)
      modifies this`below
      ensures below == old(below) + ReadReferrals(Referred(urls, matched), n)
    {
      if |urls| == 0 {
        NoteReferral(Blank, matched, n);
        return;
      }
      NoteReferences(urls, matched, n);
    }

    /** Reads one name. */
    method ReadOne(s: Server, n: Dn) returns (err: Option<Error>)
      requires n in names
      modifies this
      ensures err == Some(Incomplete) <==> s.read(n).ReadLimit?
      ensures err == Some(Upstream) <==> s.read(n).ReadFailure?
      ensures err.Some? ==> err.value.Incomplete? || err.value.Upstream?
      ensures below == old(below) + ReadReferrals(s.read(n), n)
      ensures names.Keys == old(names).Keys
      ensures err.None? ==> names == old(names)[n := AfterReading(s.read(n), old(names[n]), below, n)]
    {
      err := None;
      match s.read(n) {
        case Present =>
          names := names[n := names[n].(found := true)];
          entries := entries + 1;
        case Absent =>
        case Referred(urls, matched) =>
          NoteReferred(urls, matched, n);
          MarkBelow(n);
        case ReadLimit => err := Some(Incomplete);
        case ReadFailure => err := Some(Upstream);
      }
    }

    /** Reads every name on its own. */
    method ReadEach(s: Server, order: seq<Dn>) returns (err: Option<Error>)
      requires Truthful(s)
      requires forall n :: n in order ==> n in names && !names[n].found
      modifies this
      ensures names.Keys == old(names).Keys
      ensures err.None? ==> below == old(below) + ReadsRecord(s, order, |order|)
      ensures err.None? ==> ReadMarks(s, old(names), names, old(below), order, |order|)
      ensures err.None? ==> FoundIn(s, names, order)
      ensures err.Some? ==> HasReason(s, err.value)
      ensures Willing(s) ==> err.None?
    {
      for i := 0 to |order|
        invariant below == old(below) + ReadsRecord(s, order, i)
        invariant ReadMarks(s, old(names), names, old(below), order, i)
        invariant FoundSoFar(s, names, order, i)
      {
        ghost var now := names;
        RecordMore(s, order, i, old(below), below);
        err := ReadOne(s, order[i]);
        if err.Some? {
          return;
        }
        MarkStep(s, old(names), now, names, old(below), order, i);
        FoundStep(s, now, names, order, i, below);
      }
      AllRead(s, names, order);
      return None;
    }

    /** Looks for the names under their common ancestors. */
    method SearchUnder(s: Server, order: seq<Dn>) returns (err: Option<Error>)
      requires Truthful(s) && WellFormed(s, contexts) && entries <= MAX_READ
      requires forall n :: n in order ==> n in names && !names[n].found && n != [] && InContext(contexts, n)
      modifies this
      ensures names.Keys == old(names).Keys
      ensures err.None? ==> SearchAdds(s, contexts, order, old(entries), old(below), below)
      ensures err.None? ==> AllMarked(old(names), names, below, order)
      ensures err.None? ==> FoundIn(s, names, order)
      ensures err.Some? ==> HasReason(s, err.value)
      ensures Willing(s) && err.Some? ==>
        err.value.TooMuchToRead? && TooMuchListed(s, Bases(order, contexts), old(entries))
    {
      var bases := Narrow(order, contexts);
      err := SearchIn(s, order, bases);
    }

    /** Looks for the names by these searches. */
    method SearchIn(s: Server, order: seq<Dn>, bases: seq<Base>) returns (err: Option<Error>)
      requires Truthful(s) && WellFormed(s, contexts) && entries <= MAX_READ && Narrowed(order, contexts, bases)
      requires forall n :: n in order ==> n in names && !names[n].found && n != [] && InContext(contexts, n)
      modifies this
      ensures names.Keys == old(names).Keys
      ensures err.None? ==> HeardBases(s, bases, |bases|, old(entries), old(below), below)
      ensures err.None? ==> !TooMuchListed(s, bases, old(entries))
      ensures err.None? ==> AllMarked(old(names), names, below, order) && FoundIn(s, names, order)
      ensures err.Some? ==> BasesRefused(s, bases, err.value, old(entries)) && HasReason(s, err.value)
    {
      var found;
      err, found := SearchBases(s, order, bases);
      if err.Some? {
        return;
      }
      AllSearched(s, contexts, order, bases, found);
      Settle(s, order, found);
    }

    method SearchBases(s: Server, order: seq<Dn>, bases: seq<Base>) returns (err: Option<Error>, found: set<Dn>)
      requires Truthful(s) && WellFormed(s, contexts) && entries <= MAX_READ
      requires forall n :: n in order ==> InContext(contexts, n)
      requires forall k: nat {:trigger IsFor(order, contexts, bases[k].dn)} :: k < |bases| ==>
        IsFor(order, contexts, bases[k].dn)
      modifies this`below, this`entries
      ensures err.None? ==> HeardBases(s, bases, |bases|, old(entries), old(below), below)
      ensures err.None? ==> !TooMuchListed(s, bases, old(entries))
      ensures err.None? ==> forall d :: d in found ==> d in s.held
      ensures err.None? ==> SearchedFirst(s, bases, |bases|, found)
      ensures err.Some? ==> BasesRefused(s, bases, err.value, old(entries)) && HasReason(s, err.value)
    {
      found := {};
      err := None;
      for i := 0 to |bases|
        invariant err.None? && SearchedTo(s, bases, i, old(entries), entries, old(below), below, found)
      {
        err, found := SearchNext(s, order, bases, i, found, old(entries), old(below));
        if err.Some? {
          return;
        }
      }
    }

    /** The next of them. */
    method SearchNext(s: Server, order: seq<Dn>, bases: seq<Base>, i: nat, found: set<Dn>,
        ghost start: nat, ghost before: seq<Note>)
      returns (err: Option<Error>, more: set<Dn>)
      requires Truthful(s) && WellFormed(s, contexts) && forall n :: n in order ==> InContext(contexts, n)
      requires i < |bases| && IsFor(order, contexts, bases[i].dn)
      requires SearchedTo(s, bases, i, start, entries, before, below, found)
      modifies this`below, this`entries
      ensures err.None? ==> SearchedTo(s, bases, i + 1, start, entries, before, below, more)
      ensures err.Some? ==> BasesRefused(s, bases, err.value, start) && HasReason(s, err.value)
    {
      ghost var now, below0 := entries, below;
      err, more := SearchBase(s, order, bases[i]);
      if err.Some? {
        RefusedAtBase(s, bases, i, err.value, now, start);
        return;
      }
      assert HeardOneMore(s, bases, i + 1, start, before, below0, below);
      MoreFound(s, bases, i, found, more);
      more := found + more;
    }

    /** One of those searches; a base that is gone, or that a referral stands for, has nothing below it. */
    method SearchBase(s: Server, order: seq<Dn>, b: Base) returns (err: Option<Error>, some: set<Dn>)
      requires Truthful(s) && WellFormed(s, contexts) && entries <= MAX_READ
      requires IsFor(order, contexts, b.dn) && forall n :: n in order ==> InContext(contexts, n)
      modifies this`below, this`entries
      ensures err.None? ==> HeardBase(s, b, old(entries), old(below), below)
      ensures err.None? ==> SearchedUnder(s, b, some) && forall d :: d in some ==> d in s.held
      ensures err.None? ==> entries == old(entries) + Size(s, b) <= MAX_READ
      ensures err.Some? ==> BaseRefused(s, b, err.value, old(entries)) && HasReason(s, err.value)
    {
      assert TruthfulSearch(s, b) && (Willing(s) ==> Answers(s.search(b)));
      some := {};
      ghost var before := entries;
      var r, last := Search(s.search(b), b.dn, MAX_READ + 1, s.listing(b));
      assert HeardThen(s, b, before, old(below), below, last);
      LastSaid(s.search(b), SearchPlan(MAX_READ + 1, before), b.dn, old(below), below, last);
      match r {
        case Ok(got) =>
          some := set d | d in got;
        case Err(NotThere) =>
          NothingUnderMissing(s, contexts, order, b.dn);
          NothingListed(s, b);
        case Err(Elsewhere(url, matched)) =>
          NoteReferral(url, matched, b.dn);
          NothingUnderReferral(s, contexts, b.dn);
          NothingListed(s, b);
        case Err(e) =>
          return Some(e), some;
      }
      return None, some;
    }

    method Settle(ghost s: Server, order: seq<Dn>, found: set<Dn>)
      requires forall n :: n in order ==> n in names && (n in found <==> n in s.held)
      modifies this`names
      ensures AllMarked(old(names), names, below, order) && FoundIn(s, names, order)
    {
      for i := 0 to |order|
        invariant AllMarked(old(names), names, below, order[..i])
        invariant FoundIn(s, names, order[..i])
      {
        assert order[..i + 1] == order[..i] + [order[i]];
        MarkBelow(order[i]);
        names := names[order[i] := names[order[i]].(found := order[i] in found)];
      }
      assert order[..|order|] == order;
    }

    /** Asks each naming context the names are in for its referral objects. */
    method FindReferrals(s: Server, order: seq<Dn>) returns (err: Option<Error>)
      requires Truthful(s)
      modifies this`below
      ensures err.None? ==> below == old(below) + ObjectNotes(s, contexts, order)
      ensures err.Some? ==> HasReason(s, err.value)
      ensures Willing(s) ==> err.None?
    {
      if !s.definesReferral {
        return None;
      }
      var used := UsedContexts(order);
      for i := 0 to |used|
        invariant below == old(below) + NotesOf(s, used[..i])
      {
        assert TruthfulReferences(s, used[i]);
        assert Willing(s) ==> WillingReferences(s, used[i]);
        err := ReferencesOf(s.findReferrals(used[i]), used[i], s.references(used[i]));
        if err.Some? {
          return;
        }
        NotesMore(s, used, i, old(below));
      }
      assert used[..|used|] == used;
      return None;
    }

    method UsedContexts(order: seq<Dn>) returns (used: seq<Dn>)
      ensures used == Used(contexts, order)
    {
      used := [];
      for i := 0 to |order|
        invariant used == Used(contexts, order[..i])
      {
        assert order[..i + 1][..i] == order[..i];
        var c := ContextOf(contexts, order[i]);
        if c in contexts && c !in used {
          used := used + [c];
        }
      }
      assert order[..|order|] == order;
    }

    /** One of those searches, read to its end. */
    method ReferencesOf(p: Pager<Reference>, c: Dn, ghost all: seq<Reference>)
      returns (err: Option<Error>)
      requires Pages(p, all) && Patient(p)
      modifies this`below
      ensures err.None? ==> below == old(below) + Notes(all, Blank, c)
      ensures err == Some(Incomplete) ==> exists a :: Says(p, a) && StopsEarly(a)
      ensures err == Some(Upstream) ==> exists a :: Says(p, a) && !a.Page? && !a.ServerLimit?
      ensures err.Some? ==> err.value.Incomplete? || err.value.Upstream?
      ensures err.Some? && Answers(p) && !Says(p, NoSuchObject) ==>
        exists url, matched :: Says(p, Referral(url, matched))
    {
      ghost var q := ReferencesPlan(|all|);
      assert Ends(p, q);
      ghost var n: nat :| Asking(p, q, n).None?;
      var cookie: nat, round: nat := 0, 0;
      EndsAfter(p, q, n, round);
      while true
        invariant cookie <= |all| && below == old(below) + Notes(all[..cookie], Blank, c)
        invariant Asking(p, q, round) == Some(cookie) && round < n
        decreases n - round
      {
        var a := NotePage(p, c, round, cookie, n, all, old(below));
        if a.ServerLimit? {
          return Some(Incomplete);
        } else if !a.Page? {
          return Some(Upstream);
        }
        if a.cookie.None? {
          if a.truncated {
            return Some(Incomplete);
          }
          assert all[..|all|] == all;
          return None;
        }
        cookie, round := a.cookie.value, round + 1;
      }
    }

    /** Asks for one page of references and records them. */
    method NotePage(p: Pager<Reference>, c: Dn, round: nat, cookie: nat,
        ghost n: nat, ghost all: seq<Reference>, ghost before: seq<Note>)
      returns (a: Answer<Reference>)
      requires Pages(p, all) && cookie <= |all| && below == before + Notes(all[..cookie], Blank, c)
      requires Asking(p, ReferencesPlan(|all|), round) == Some(cookie) && Asking(p, ReferencesPlan(|all|), n).None?
      modifies this`below
      ensures Says(p, a) && (Answers(p) ==> Answered(a))
      ensures a.Page? ==> PageOf(all, cookie, a) && below == before + Notes(all[..cookie + |a.entries|], Blank, c)
      ensures a.Page? && a.cookie.Some? ==> Asking(p, ReferencesPlan(|all|), round + 1) == a.cookie && round + 1 < n
    {
      a := p(round, cookie, MAX_PAGE);
      ReferencesAnswer(p, all, round, cookie, n, a);
      if a.Page? {
        MoreNotes(all, cookie, a.entries, c, before);
        NoteReferences(a.entries, Blank, c);
      }
    }

    /** Reads every group below the base, or refuses when there are more than `limit`. */
    method ReadGroups(p: Pager<RawGroup>, base: Dn, limit: nat, ghost all: seq<RawGroup>)
      returns (r: Result<seq<Group>>, ghost last: Answer<RawGroup>)
      requires Pages(p, all) && Patient(p) && entries <= MAX_READ
      modifies this`below, this`entries
      ensures HeardUntil(p, SearchPlan(limit + 1, old(entries)), base, old(below), below, last)
      ensures r.Ok? ==> |all| <= limit && r.value == Classified(contexts, all) && entries <= MAX_READ
      ensures r.Ok? ==> entries == old(entries) + |all| && last.Page?
      ensures r.Err? && r.error.TooManyGroups? ==> |all| > limit
      ensures r.Err? && r.error.TooMuchToRead? ==> old(entries) + |all| > MAX_READ
      ensures r.Err? && r.error.NotThere? ==> last.NoSuchObject?
      ensures r.Err? && r.error.Elsewhere? ==> last == Referral(r.error.url, r.error.matched)
      ensures r.Err? && (r.error.Incomplete? || r.error.Upstream?) ==> !Answers(p)
      ensures r.Err? && r.error.Incomplete? ==> StopsEarly(last)
      ensures r.Err? && r.error.Upstream? ==> last.Failure?
    {
      var got;
      got, last := Search(p, base, limit + 1, all);
      if got.Err? {
        return Err(got.error), last;
      }
      if |got.value| > limit {
        return Err(TooManyGroups), last;
      }
      var groups: seq<Group> := [];
      for i := 0 to |got.value|
        invariant groups == Classified(contexts, got.value[..i])
      {
        assert got.value[..i + 1][..i] == got.value[..i];
        groups := groups + [Classify(contexts, got.value[i])];
      }
      assert got.value[..|got.value|] == got.value;
      return Ok(groups), last;
    }

    /** The names the groups give, each once, none of them looked for yet. */
    method CollectNames(groups: seq<Group>) returns (order: seq<Dn>)
      requires names == map[]
      modifies this`names
      ensures order == NamesOf(groups) && Listing(names, order)
    {
      order := [];
      for i := 0 to |groups|
        invariant order == NamesOf(groups[..i]) && Listing(names, order)
      {
        assert groups[..i + 1][..i] == groups[..i];
        order := CollectFrom(groups[i], order);
      }
      assert groups[..|groups|] == groups;
    }

    method CollectFrom(g: Group, order: seq<Dn>) returns (more: seq<Dn>)
      requires Listing(names, order)
      modifies this`names
      ensures more == NamesIn(g.values, order) && Listing(names, more)
    {
      more := order;
      for k := 0 to |g.values|
        invariant more == NamesIn(g.values[..k], order) && Listing(names, more)
      {
        assert g.values[..k + 1][..k] == g.values[..k];
        var v := g.values[k];
        if v.key.Some? && v.key.value !in names {
          names := names[v.key.value := Name(false, false)];
          more := more + [v.key.value];
        }
      }
      assert g.values[..|g.values|] == g.values;
    }

    /** Marks the names that a recorded referral marks; the others are to be looked for. */
    method MarkAll(order: seq<Dn>) returns (pending: seq<Dn>)
      requires Listing(names, order)
      modifies this`names
      ensures names.Keys == old(names).Keys
      ensures forall n :: n in names ==> names[n] == Name(Marks(below, n), false)
      ensures pending == Unmarked(order, below)
    {
      for i := 0 to |order|
        invariant names.Keys == old(names).Keys
        invariant forall n :: n in names ==> names[n] == Name(n in order[..i] && Marks(below, n), false)
      {
        assert order[..i + 1] == order[..i] + [order[i]];
        MarkBelow(order[i]);
      }
      assert order[..|order|] == order;
      pending := [];
      for i := 0 to |order|
        invariant pending == Unmarked(order[..i], below)
      {
        assert order[..i + 1][..i] == order[..i];
        if !names[order[i]].belowReferral {
          pending := pending + [order[i]];
        }
      }
    }

    /** Whichever way the names are looked for, each is found exactly when the server holds it. */
    method CheckNames(s: Server, pending: seq<Dn>) returns (err: Option<Error>)
      requires Truthful(s) && WellFormed(s, contexts) && entries <= MAX_READ
      requires forall n :: n in pending ==> n in names && !names[n].found && n != [] && InContext(contexts, n)
      modifies this
      ensures names.Keys == old(names).Keys
      ensures err.None? ==> Recorded(s, contexts, pending, old(entries), old(below), below)
      ensures err.None? ==> MarksAre(s, old(names), names, pending, old(below), below)
      ensures err.None? ==> FoundIn(s, names, pending)
      ensures err.Some? ==> HasReason(s, err.value)
      ensures Willing(s) && err.Some? ==>
        err.value.TooMuchToRead? && TooMuchPending(s, contexts, pending, old(entries))
    {
      if |pending| <= DIRECT_READS {
        err := ReadEach(s, pending);
      } else {
        err := SearchUnder(s, pending);
      }
    }

    /** From the referral objects to the last existence check; says what was recorded before any check. */
    method FindOut(s: Server, order: seq<Dn>) returns (err: Option<Error>, noted: seq<Note>, pending: seq<Dn>)
      requires Truthful(s) && WellFormed(s, contexts) && entries <= MAX_READ
      requires Listing(names, order) && NoDuplicates(order) && forall n :: n in order ==> InContext(contexts, n)
      modifies this
      ensures names.Keys == old(names).Keys
      ensures err.None? ==> IsFoundOut(s, contexts, order, old(entries), old(below), noted, pending, names, below)
      ensures err.Some? ==> HasReason(s, err.value)
      ensures Willing(s) && err.Some? ==>
        err.value.TooMuchToRead? && TooMuchPending(s, contexts, pending, old(entries))
      ensures Willing(s) ==> IsPending(s, contexts, order, old(below), noted, pending)
    {
      pending := [];
      err := FindReferrals(s, order);
      noted := below;
      if err.Some? {
        return;
      }
      pending := MarkAll(order);
      ghost var marked := names;
      PendingInContext(s, contexts, order, noted);
      err := CheckNames(s, pending);
      if err.None? {
        AllFoundOut(s, contexts, order, old(entries), old(below), noted, pending, marked, names, below);
      }
    }
  }

  /** The first `k` searches were made: what they recorded, how much was read, and what they found. */
  ghost predicate SearchedTo(s: Server, bases: seq<Base>, k: nat, start: nat, entries: nat,
      before: seq<Note>, below: seq<Note>, found: set<Dn>)
    requires k <= |bases|
  {
    && entries == start + Listed(s, bases, k) <= MAX_READ
    && HeardBases(s, bases, k, start, before, below)
    && (forall d :: d in found ==> d in s.held)
    && SearchedFirst(s, bases, k, found)
  }

  ghost predicate BasesRefused(s: Server, bases: seq<Base>, e: Error, entries: nat)
  {
    Willing(s) ==> e.TooMuchToRead? && entries + Listed(s, bases, |bases|) > MAX_READ
  }

  lemma RefusedAtBase(s: Server, bases: seq<Base>, i: nat, e: Error, now: nat, entries: nat)
    requires i < |bases| && BaseRefused(s, bases[i], e, now) && now == entries + Listed(s, bases, i)
    ensures BasesRefused(s, bases, e, entries)
  {
    ListedGrows(s, bases, i + 1, |bases|);
  }

  lemma {:induction false} ListedGrows(s: Server, bases: seq<Base>, k: nat, n: nat)
    requires k <= n <= |bases|
    ensures Listed(s, bases, k) <= Listed(s, bases, n)
  {
    if k < n {
      ListedGrows(s, bases, k, n - 1);
    }
  }

  /** There are more than 200 of these names, and they cannot be searched for within what is left to read. */
  ghost predicate TooMuchPending(s: Server, contexts: seq<Dn>, pending: seq<Dn>, entries: nat)
  {
    |pending| > DIRECT_READS && TooMuchListed(s, Bases(pending, contexts), entries)
  }

  /** The names that are to be looked for, and what was recorded before that. */
  ghost predicate IsPending(s: Server, contexts: seq<Dn>, order: seq<Dn>, grouped: seq<Note>,
      noted: seq<Note>, pending: seq<Dn>)
  {
    noted == grouped + ObjectNotes(s, contexts, order) && pending == Unmarked(order, noted)
  }

  /** These are the names known of, with nothing known about them yet. */
  ghost predicate Listing(names: Names, order: seq<Dn>)
  {
    (forall n :: n in order <==> n in names) && forall n :: n in names ==> names[n] == Name(false, false)
  }

  lemma PendingInContext(s: Server, contexts: seq<Dn>, order: seq<Dn>, noted: seq<Note>)
    requires WellFormed(s, contexts) && NoDuplicates(order) && forall n :: n in order ==> InContext(contexts, n)
    ensures forall n :: n in Unmarked(order, noted) ==> n in order && n != [] && !Marks(noted, n)
  {
    UnmarkedAre(order, noted);
    forall n | n in order
      ensures n != []
    {
      InContextHasOne(contexts, n);
    }
  }

  lemma NothingListed(s: Server, b: Base)
    requires TruthfulSearch(s, b) && forall d :: HasSuffix(d, b.dn) ==> d !in s.held
    ensures Size(s, b) == 0
  {
    SomethingIn(s.listing(b));
  }

  lemma MoreNotes(all: seq<Reference>, count: nat, page: seq<Reference>, c: Dn, before: seq<Note>)
    requires count + |page| <= |all| && page == all[count..count + |page|]
    ensures before + Notes(all[..count], Blank, c) + Notes(page, Blank, c) ==
      before + Notes(all[..count + |page|], Blank, c)
  {
  }

  // ----- why the searches answer for every name

  /** What the searches so far found is right about the names in the scope of `b`. */
  ghost predicate SearchedUnder(s: Server, b: Base, found: set<Dn>)
  {
    forall n :: InScope(n, b) && n in s.held ==> n in found
  }

  ghost predicate SearchedFirst(s: Server, bases: seq<Base>, n: nat, found: set<Dn>)
    requires n <= |bases|
  {
    forall k: nat {:trigger SearchedUnder(s, bases[k], found)} :: k < n ==> SearchedUnder(s, bases[k], found)
  }

  lemma MoreFound(s: Server, bases: seq<Base>, n: nat, found: set<Dn>, some: set<Dn>)
    requires n < |bases| && SearchedUnder(s, bases[n], some)
    requires forall d :: d in found || d in some ==> d in s.held
    requires SearchedFirst(s, bases, n, found)
    ensures SearchedFirst(s, bases, n + 1, found + some)
  {
    forall k: nat {:trigger SearchedUnder(s, bases[k], found + some)} | k < n + 1
      ensures SearchedUnder(s, bases[k], found + some)
    {
      assert k < n ==> SearchedUnder(s, bases[k], found);
    }
  }

  lemma AllSearched(s: Server, contexts: seq<Dn>, order: seq<Dn>, bases: seq<Base>, found: set<Dn>)
    requires Narrowed(order, contexts, bases)
    requires SearchedFirst(s, bases, |bases|, found)
    ensures forall n :: n in order && n != [] && n in s.held ==> n in found
  {
    forall n | n in order && n != [] && n in s.held
      ensures n in found
    {
      assert InSomeScope(bases, n);
      var k: nat :| k < |bases| && InScope(n, bases[k]);
      assert SearchedUnder(s, bases[k], found);
    }
  }

  /** A base for names in a context is in a context itself. */
  lemma BaseInContext(contexts: seq<Dn>, order: seq<Dn>, b: Dn) returns (c: nat)
    requires IsFor(order, contexts, b)
    requires forall k: nat :: k < |contexts| ==> contexts[k] != []
    requires forall n :: n in order ==> InContext(contexts, n)
    ensures c < |contexts| && HasSuffix(b, contexts[c])
  {
    var n :| n in order && Between(contexts, n, b);
    assert InContext(contexts, n);
    var k: nat :| k < |contexts| && HasSuffix(n, contexts[k]);
    assert Context(contexts, n) in contexts;
    c :| c < |contexts| && contexts[c] == Context(contexts, n);
  }

  /** Where the base is gone, so is everything below it. */
  lemma {:induction false} MissingBase(s: Server, contexts: seq<Dn>, c: nat, b: Dn, d: Dn)
    requires WellFormed(s, contexts) && c < |contexts| && HasSuffix(b, contexts[c])
    requires b !in s.held && HasSuffix(d, b)
    ensures d !in s.held
    decreases |d|
  {
    if d != b {
      SuffixTrans(d, b, contexts[c]);
      ParentStaysBelow(d, b);
      MissingBase(s, contexts, c, b, Parent(d));
    }
  }

  lemma NothingUnderMissing(s: Server, contexts: seq<Dn>, order: seq<Dn>, b: Dn)
    requires WellFormed(s, contexts) && IsFor(order, contexts, b) && b !in s.held
    requires forall n :: n in order ==> InContext(contexts, n)
    ensures forall d :: HasSuffix(d, b) ==> d !in s.held
  {
    var c := BaseInContext(contexts, order, b);
    forall d | HasSuffix(d, b)
      ensures d !in s.held
    {
      MissingBase(s, contexts, c, b, d);
    }
  }

  lemma NothingUnderReferral(s: Server, contexts: seq<Dn>, b: Dn)
    requires WellFormed(s, contexts) && BelowReferral(s, b)
    ensures forall d :: HasSuffix(d, b) ==> d !in s.held
  {
    var r :| r in s.referrals && HasSuffix(b, r);
    forall d | HasSuffix(d, b)
      ensures d !in s.held
    {
      SuffixTrans(d, b, r);
    }
  }

  ghost function Marked(name: Name, below: seq<Note>, n: Dn): Name
  {
    name.(belowReferral := name.belowReferral || Marks(below, n))
  }

  /** What is known of a name after it was read. */
  ghost function AfterReading(a: ReadAnswer, name: Name, below: seq<Note>, n: Dn): Name
  {
    match a
    case Present => name.(found := true)
    case Referred(_, _) => Marked(name, below, n)
    case _ => name
  }

  /** One of the first `k` reads, of `n`, was referred, and what is recorded by then marks `n`. */
  ghost predicate ReadMark(s: Server, noted: seq<Note>, order: seq<Dn>, k: nat, n: Dn)
    requires k <= |order|
  {
    s.read(n).Referred? &&
    exists i: nat :: i < k && order[i] == n && Marks(noted + ReadsRecord(s, order, i + 1), n)
  }

  ghost predicate ReadMarks(s: Server, before: Names, after: Names, noted: seq<Note>, order: seq<Dn>, k: nat)
    requires k <= |order|
  {
    && before.Keys == after.Keys
    && forall n :: n in after ==>
      (after[n].belowReferral <==> before[n].belowReferral || ReadMark(s, noted, order, k, n))
  }

  lemma MarkStep(s: Server, before: Names, now: Names, after: Names, noted: seq<Note>, order: seq<Dn>, k: nat)
    requires k < |order| && order[k] in now && ReadMarks(s, before, now, noted, order, k)
    requires var n := order[k];
      after == now[n := AfterReading(s.read(n), now[n], noted + ReadsRecord(s, order, k + 1), n)]
    ensures ReadMarks(s, before, after, noted, order, k + 1)
  {
    forall n | n in after
      ensures after[n].belowReferral <==> before[n].belowReferral || ReadMark(s, noted, order, k + 1, n)
    {
      ReadMarkMore(s, noted, order, k, n);
    }
  }

  lemma ReadMarkMore(s: Server, noted: seq<Note>, order: seq<Dn>, k: nat, n: Dn)
    requires k < |order|
    ensures ReadMark(s, noted, order, k, n) ==> ReadMark(s, noted, order, k + 1, n)
    ensures var now := order[k] == n && s.read(n).Referred? && Marks(noted + ReadsRecord(s, order, k + 1), n);
      (now ==> ReadMark(s, noted, order, k + 1, n)) &&
      (ReadMark(s, noted, order, k + 1, n) ==> now || ReadMark(s, noted, order, k, n))
  {
  }

  /** Of the names, the first `k` are known, and none of the others is found yet. */
  ghost predicate FoundSoFar(s: Server, names: Names, order: seq<Dn>, k: nat)
    requires k <= |order|
  {
    && (forall i: nat :: i < |order| ==> order[i] in names)
    && (forall n :: n in order ==> n in names && (names[n].found <==> n in order[..k] && n in s.held))
  }

  lemma FoundStep(s: Server, now: Names, after: Names, order: seq<Dn>, k: nat, below: seq<Note>)
    requires Truthful(s) && k < |order| && FoundSoFar(s, now, order, k)
    requires s.read(order[k]).Present? || s.read(order[k]).Absent? || s.read(order[k]).Referred?
    requires after == now[order[k] := AfterReading(s.read(order[k]), now[order[k]], below, order[k])]
    ensures FoundSoFar(s, after, order, k + 1)
  {
    assert order[..k + 1] == order[..k] + [order[k]];
  }

  lemma AllRead(s: Server, names: Names, order: seq<Dn>)
    requires FoundSoFar(s, names, order, |order|)
    ensures FoundIn(s, names, order)
  {
    assert order[..|order|] == order;
  }

  /** These names are marked when what is recorded marks them, and no others are that were not before. */
  ghost predicate AllMarked(before: Names, after: Names, below: seq<Note>, order: seq<Dn>)
  {
    && before.Keys == after.Keys
    && forall n :: n in after ==>
      (after[n].belowReferral <==> before[n].belowReferral || (n in order && Marks(below, n)))
  }

  /** Which names are marked by the checks, whichever way they are made. */
  ghost predicate MarksAre(s: Server, before: Names, after: Names, pending: seq<Dn>, noted: seq<Note>, below: seq<Note>)
  {
    if |pending| <= DIRECT_READS then ReadMarks(s, before, after, noted, pending, |pending|)
    else AllMarked(before, after, below, pending)
  }

  /** What the checks record: the answers to the reads, or to the searches, which must not come to too much. */
  ghost predicate Recorded(s: Server, contexts: seq<Dn>, pending: seq<Dn>, entries: nat,
      noted: seq<Note>, below: seq<Note>)
  {
    if |pending| <= DIRECT_READS then below == noted + ReadsRecord(s, pending, |pending|)
    else SearchAdds(s, contexts, pending, entries, noted, below)
  }

  ghost predicate SearchAdds(s: Server, contexts: seq<Dn>, order: seq<Dn>, entries: nat,
      before: seq<Note>, after: seq<Note>)
  {
    var bases := Bases(order, contexts);
    !TooMuchListed(s, bases, entries) && HeardBases(s, bases, |bases|, entries, before, after)
  }

  /** A name is marked before any check, or by its check. */
  ghost predicate MarkedBy(s: Server, pending: seq<Dn>, noted: seq<Note>, below: seq<Note>, n: Dn)
  {
    Marks(noted, n) ||
    (n in pending &&
     if |pending| <= DIRECT_READS then ReadMark(s, noted, pending, |pending|, n) else Marks(below, n))
  }

  /**
   What is known when all is done: before the checks the references of the contexts in use
   are recorded, and nothing else; the names these do not mark are checked; a name is marked
   for these reasons only, and every other is found exactly when the server holds it.
   */
  ghost predicate IsFoundOut(s: Server, contexts: seq<Dn>, order: seq<Dn>, entries: nat, grouped: seq<Note>,
      noted: seq<Note>, pending: seq<Dn>, names: Names, below: seq<Note>)
  {
    && IsPending(s, contexts, order, grouped, noted, pending)
    && Recorded(s, contexts, pending, entries, noted, below)
    && (forall n :: n in names <==> n in order)
    && (forall n :: n in names ==> (names[n].belowReferral <==> MarkedBy(s, pending, noted, below, n)))
    && (forall n :: n in names && !names[n].belowReferral ==> (names[n].found <==> n in s.held))
  }

  lemma AllFoundOut(s: Server, contexts: seq<Dn>, order: seq<Dn>, entries: nat, grouped: seq<Note>,
      noted: seq<Note>, pending: seq<Dn>, marked: Names, names: Names, below: seq<Note>)
    requires NoDuplicates(order) && IsPending(s, contexts, order, grouped, noted, pending)
    requires forall n :: n in order <==> n in marked
    requires forall n :: n in marked ==> marked[n] == Name(Marks(noted, n), false)
    requires Recorded(s, contexts, pending, entries, noted, below)
    requires MarksAre(s, marked, names, pending, noted, below) && FoundIn(s, names, pending)
    ensures IsFoundOut(s, contexts, order, entries, grouped, noted, pending, names, below)
  {
    UnmarkedAre(order, noted);
    forall n | n in names
      ensures names[n].belowReferral <==> MarkedBy(s, pending, noted, below, n)
    {
      if |pending| <= DIRECT_READS && n !in pending {
        NoMarkUnread(s, noted, pending, n);
      }
    }
  }

  lemma NoMarkUnread(s: Server, noted: seq<Note>, pending: seq<Dn>, n: Dn)
    requires n !in pending
    ensures !ReadMark(s, noted, pending, |pending|, n)
  {
  }

  /** What a search gives: all of it or enough of it, or the reason why not. */
  ghost predicate SearchResult<T(!new)>(p: Pager<T>, all: seq<T>, most: nat, before: nat, after: nat,
      r: Result<seq<T>>, last: Answer<T>)
  {
    match r
    case Ok(got) =>
      last.Page? && after == before + |got| <= MAX_READ && got <= all && (got == all || |got| >= most)
    case Err(NotThere) => last.NoSuchObject? && before <= after <= Min(MAX_READ, before + |all|)
    case Err(Elsewhere(url, matched)) =>
      last == Referral(url, matched) && before <= after <= Min(MAX_READ, before + |all|)
    case Err(TooMuchToRead) => last.Page? && before + |all| > MAX_READ
    case Err(TooManyGroups) => false
    case Err(Incomplete) => !Answers(p) && StopsEarly(last)
    case Err(Upstream) => !Answers(p) && last.Failure?
  }

  lemma LongerPrefix<T>(all: seq<T>, got: seq<T>, page: seq<T>)
    requires |got| + |page| <= |all| && got == all[..|got|] && page == all[|got|..|got| + |page|]
    ensures got + page == all[..|got + page|]
  {
  }

  lemma ReferencesAnswer(p: Pager<Reference>, all: seq<Reference>, round: nat, count: nat, n: nat,
      a: Answer<Reference>)
    requires Pages(p, all) && count <= |all| && Asking(p, ReferencesPlan(|all|), round) == Some(count)
    requires Asking(p, ReferencesPlan(|all|), n).None? && a == p(round, count, MAX_PAGE)
    ensures Says(p, a) && (Answers(p) ==> Answered(a)) && (a.Page? ==> PageOf(all, count, a))
    ensures a.Page? && a.cookie.Some? ==>
      Asking(p, ReferencesPlan(|all|), round + 1) == Some(count + |a.entries|) && round + 1 < n
  {
    assert WantOf(ReferencesPlan(|all|), count) == MAX_PAGE;
    if a.Page? && a.cookie.Some? {
      assert PageOf(all, count, a);
      AsksOn(p, ReferencesPlan(|all|), round, count, a);
      EndsAfter(p, ReferencesPlan(|all|), n, round + 1);
    }
  }

  lemma LastSaid<T(!new)>(p: Pager<T>, q: Asks, base: Dn, before: seq<Note>, after: seq<Note>, last: Answer<T>)
    requires HeardUntil(p, q, base, before, after, last)
    ensures Says(p, last)
  {
    HeardUntilAdds(p, q, base, before, after, last);
  }

  /** Each of these names is found exactly when the server holds it. */
  ghost predicate FoundIn(s: Server, names: Names, order: seq<Dn>)
  {
    forall n :: n in order ==> n in names && (names[n].found <==> n in s.held)
  }
}
