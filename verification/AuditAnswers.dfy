/**
 What a search records, said of the answers it is given: every reference of every page, in
 order, and the referral it ends with.
 */
module AuditAnswers {
  import opened Options
  import opened Dns
  import opened Paging
  import opened NarrowBases
  import opened AuditReport
  import opened AuditServer
  import opened AuditSearch
  import opened Audit

  /** The `k`th answer of the search is a page with a reference at or above the name. */
  ghost predicate PageCovers<T(!new)>(p: Pager<T>, q: Asks, base: Dn, n: Dn, k: nat)
  {
    && Asking(p, q, k).Some? && AnswerIn(p, q, k).Page?
    && exists i: nat :: i < |AnswerIn(p, q, k).references| && IsAbove(AnswerIn(p, q, k).references[i], Blank, base, n)
  }

  /** It is the first such page, and the first such reference of it is no empty text. */
  ghost predicate PageDecides<T(!new)>(p: Pager<T>, q: Asks, base: Dn, n: Dn, k: nat)
  {
    && Asking(p, q, k).Some? && AnswerIn(p, q, k).Page?
    && (exists i: nat ::
          IsFirstAbove(AnswerIn(p, q, k).references, Blank, base, n, i) && AnswerIn(p, q, k).references[i] != Blank)
    && forall j: nat :: j < k ==> !PageCovers(p, q, base, n, j)
  }

  /** Of the pages a search is answered with, the first with a reference at or above the name decides. */
  lemma {:induction false} PagesMark<T(!new)>(p: Pager<T>, q: Asks, base: Dn, rounds: nat, n: Dn)
    requires rounds > 0 ==> Asking(p, q, rounds - 1).Some?
    ensures Covers(Heard(p, q, base, rounds), n) <==> exists k: nat :: k < rounds && PageCovers(p, q, base, n, k)
    ensures Marks(Heard(p, q, base, rounds), n) <==> exists k: nat :: k < rounds && PageDecides(p, q, base, n, k)
  {
    if rounds > 0 {
      var last := rounds - 1;
      PagesMark(p, q, base, last, n);
      var a := AnswerIn(p, q, last);
      MarksSplit(Heard(p, q, base, last), HeardIn(a, base), n);
      if a.Page? {
        NotesMark(a.references, Blank, base, n);
      }
      assert Covers(HeardIn(a, base), n) <==> PageCovers(p, q, base, n, last);
      assert PageDecides(p, q, base, n, last) <==>
        Marks(HeardIn(a, base), n) && !exists k: nat :: k < last && PageCovers(p, q, base, n, k);
    }
  }

  /** Of a search made to its end, whatever number of pages that takes. */
  lemma AllPagesMark<T(!new)>(p: Pager<T>, q: Asks, base: Dn, before: seq<Note>, after: seq<Note>, last: Answer<T>,
      n: Dn)
    returns (m: nat, own: seq<Note>)
    requires HeardUntil(p, q, base, before, after, last)
    ensures LastIs(p, q, m, last) && after == before + own
    ensures Covers(own, n) <==> exists k: nat :: PageCovers(p, q, base, n, k)
    ensures Marks(own, n) <==> exists k: nat :: PageDecides(p, q, base, n, k)
  {
    m :| LastIs(p, q, m, last) && after == before + Heard(p, q, base, m + 1);
    own := Heard(p, q, base, m + 1);
    PagesMark(p, q, base, m + 1, n);
    forall k: nat | Asking(p, q, k).Some?
      ensures k < m + 1
    {
      EndsAfter(p, q, m + 1, k);
    }
  }

  /** What the search for groups recorded marks a name exactly when some page of it decides so. */
  lemma GroupsMark(groupSearch: Pager<RawGroup>, base: Dn, limit: nat, grouped: seq<Note>, n: Dn)
    requires GroupsHeard(groupSearch, base, limit, grouped)
    ensures Covers(grouped, n) <==> exists k: nat :: PageCovers(groupSearch, GroupPlan(limit), base, n, k)
    ensures Marks(grouped, n) <==> exists k: nat :: PageDecides(groupSearch, GroupPlan(limit), base, n, k)
  {
    var last :| HeardUntil(groupSearch, GroupPlan(limit), base, [], grouped, last);
    var _, own := AllPagesMark(groupSearch, GroupPlan(limit), base, [], grouped, last, n);
    assert grouped == own;
  }

  // ----- the searches for names

  /** A search for names, made when `entries` were read, ends with a referral at or above the name. */
  ghost predicate EndCovers(s: Server, b: Base, entries: nat, n: Dn, m: nat)
  {
    && entries <= 50000 && IsLast(s.search(b), SearchPlan(50001, entries), m)
    && var last := AnswerIn(s.search(b), SearchPlan(50001, entries), m);
      last.Referral? && IsAbove(last.url, last.matched, b.dn, n)
  }

  ghost predicate BaseCovers(s: Server, b: Base, entries: nat, n: Dn)
  {
    entries <= 50000 &&
    ((exists k: nat :: PageCovers(s.search(b), SearchPlan(50001, entries), b.dn, n, k))
      || exists m: nat :: EndCovers(s, b, entries, n, m))
  }

  /** A page of the search decides that the name is marked; or no page has a say, and the referral at the end does. */
  ghost predicate BaseMarks(s: Server, b: Base, entries: nat, n: Dn)
  {
    entries <= 50000 &&
    ((exists k: nat :: PageDecides(s.search(b), SearchPlan(50001, entries), b.dn, n, k))
      || ((forall k: nat :: !PageCovers(s.search(b), SearchPlan(50001, entries), b.dn, n, k))
          && exists m: nat :: EndMarks(s, b, entries, n, m)))
  }

  ghost predicate EndMarks(s: Server, b: Base, entries: nat, n: Dn, m: nat)
  {
    && EndCovers(s, b, entries, n, m)
    && var last := AnswerIn(s.search(b), SearchPlan(50001, entries), m);
      last.url != Blank || last.matched != Blank
  }

  lemma BaseMark(s: Server, b: Base, entries: nat, before: seq<Note>, after: seq<Note>, n: Dn)
    requires HeardBase(s, b, entries, before, after)
    ensures Covers(after, n) <==> Covers(before, n) || BaseCovers(s, b, entries, n)
    ensures Marks(after, n) <==> Marks(before, n) || (!Covers(before, n) && BaseMarks(s, b, entries, n))
  {
    var heard, last :| HeardThen(s, b, entries, before, heard, last) && after == heard + ReferralIn(last, b.dn);
    var m, own := AllPagesMark(s.search(b), SearchPlan(50001, entries), b.dn, before, heard, last, n);
    MarksSplit(before, own, n);
    MarksSplit(heard, ReferralIn(last, b.dn), n);
    EndMark(s, b, entries, n, m, last);
  }

  lemma EndMark(s: Server, b: Base, entries: nat, n: Dn, m: nat, last: Answer<Dn>)
    requires entries <= 50000 && LastIs(s.search(b), SearchPlan(50001, entries), m, last)
    ensures Covers(ReferralIn(last, b.dn), n) <==> exists j: nat :: EndCovers(s, b, entries, n, j)
    ensures Marks(ReferralIn(last, b.dn), n) <==> exists j: nat :: EndMarks(s, b, entries, n, j)
  {
    forall j: nat | IsLast(s.search(b), SearchPlan(50001, entries), j)
      ensures j == m
    {
      LastOnce(s.search(b), SearchPlan(50001, entries), m, j);
    }
    if last.Referral? {
      OneMarks(last.url, last.matched, b.dn, n);
      assert EndCovers(s, b, entries, n, m) <==> Covers(ReferralIn(last, b.dn), n);
      assert EndMarks(s, b, entries, n, m) <==> Marks(ReferralIn(last, b.dn), n);
    }
  }

  lemma OneMarks(url: Reference, matched: Reference, base: Dn, n: Dn)
    ensures Covers([NoteOf(url, matched, base)], n) <==> IsAbove(url, matched, base, n)
    ensures Marks([NoteOf(url, matched, base)], n) <==>
      IsAbove(url, matched, base, n) && (url != Blank || matched != Blank)
  {
    NotesMark([url], matched, base, n);
    assert Notes([url], matched, base) == [NoteOf(url, matched, base)];
    assert IsFirstAbove([url], matched, base, n, 0) <==> IsAbove([url][0], matched, base, n);
  }

  /** The `j`th search has a say: a reference or the referral at its end is at or above the name. */
  ghost predicate SearchCovers(s: Server, bases: seq<Base>, entries: nat, n: Dn, j: nat)
  {
    j < |bases| && BaseCovers(s, bases[j], entries + Listed(s, bases, j), n)
  }

  /** It decides that the name is marked, and none before it had a say. */
  ghost predicate SearchDecides(s: Server, bases: seq<Base>, entries: nat, n: Dn, j: nat)
  {
    && j < |bases| && BaseMarks(s, bases[j], entries + Listed(s, bases, j), n)
    && forall i: nat :: i < j ==> !SearchCovers(s, bases, entries, n, i)
  }

  /** Some of the first `k` searches has a say. */
  ghost predicate SomeCovers(s: Server, bases: seq<Base>, k: nat, entries: nat, n: Dn)
  {
    exists j: nat :: j < k && SearchCovers(s, bases, entries, n, j)
  }

  ghost predicate SomeDecides(s: Server, bases: seq<Base>, k: nat, entries: nat, n: Dn)
  {
    exists j: nat :: j < k && SearchDecides(s, bases, entries, n, j)
  }

  /** What is recorded after the first `k` searches marks the name as before, or as the first with a say decides. */
  ghost predicate SearchesSay(s: Server, bases: seq<Base>, k: nat, entries: nat,
      before: seq<Note>, after: seq<Note>, n: Dn)
  {
    && (Covers(after, n) <==> Covers(before, n) || SomeCovers(s, bases, k, entries, n))
    && (Marks(after, n) <==> Marks(before, n) || (!Covers(before, n) && SomeDecides(s, bases, k, entries, n)))
  }

  lemma {:induction false} SearchesMark(s: Server, bases: seq<Base>, k: nat, entries: nat,
      before: seq<Note>, after: seq<Note>, n: Dn)
    requires k <= |bases| && HeardBases(s, bases, k, entries, before, after)
    ensures SearchesSay(s, bases, k, entries, before, after, n)
  {
    if k > 0 {
      var mid :| HeardOneMore(s, bases, k, entries, before, mid, after);
      SearchesMark(s, bases, k - 1, entries, before, mid, n);
      OneMoreSearch(s, bases, k - 1, entries, before, mid, after, n);
    }
  }

  lemma OneMoreSearch(s: Server, bases: seq<Base>, j: nat, entries: nat,
      before: seq<Note>, mid: seq<Note>, after: seq<Note>, n: Dn)
    requires j < |bases| && HeardBase(s, bases[j], entries + Listed(s, bases, j), mid, after)
    requires SearchesSay(s, bases, j, entries, before, mid, n)
    ensures SearchesSay(s, bases, j + 1, entries, before, after, n)
  {
    BaseMark(s, bases[j], entries + Listed(s, bases, j), mid, after, n);
    LastSearch(s, bases, j, entries, n);
  }

  lemma LastSearch(s: Server, bases: seq<Base>, j: nat, entries: nat, n: Dn)
    requires j < |bases|
    ensures SomeCovers(s, bases, j + 1, entries, n) <==>
      SomeCovers(s, bases, j, entries, n) || BaseCovers(s, bases[j], entries + Listed(s, bases, j), n)
    ensures SomeDecides(s, bases, j + 1, entries, n) <==>
      SomeDecides(s, bases, j, entries, n) ||
      (!SomeCovers(s, bases, j, entries, n) && BaseMarks(s, bases[j], entries + Listed(s, bases, j), n))
  {
    assert SearchCovers(s, bases, entries, n, j) <==> BaseCovers(s, bases[j], entries + Listed(s, bases, j), n);
    assert SearchDecides(s, bases, entries, n, j) <==>
      !SomeCovers(s, bases, j, entries, n) && BaseMarks(s, bases[j], entries + Listed(s, bases, j), n);
  }

  /**
   A name that is searched for is reported not found exactly when the server does not hold it
   and what is recorded before is at or above it without marking it, or no search decides that
   it is marked.
   */
  lemma SearchedNotFoundIff(s: Server, contexts: seq<Dn>, groupSearch: Pager<RawGroup>, base: Dn, limit: nat,
      all: seq<RawGroup>, audit: Audit, trail: Trail, n: Dn)
    requires IsAudit(s, contexts, groupSearch, base, limit, all, audit, trail)
    requires n in trail.pending && |trail.pending| > 200
    ensures n in audit.names
    ensures NotFound(audit.names, Value(Some(n))) <==>
      n !in s.held && (Covers(trail.noted, n) ||
        forall j: nat :: !SearchDecides(s, Bases(trail.pending, contexts), |all|, n, j))
  {
    var bases := Bases(trail.pending, contexts);
    NamesOfAre(audit.groups);
    UnmarkedAre(trail.order, trail.noted);
    SearchesMark(s, bases, |bases|, |all|, trail.noted, audit.below, n);
    NotFoundIff(s, contexts, groupSearch, base, limit, all, audit, trail, n);
  }
}
