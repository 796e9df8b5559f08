/**
 The server as the membership audit meets it: what it holds, the referral objects that
 stand for what it does not, how it answers searches and reads, and which DNs its
 referrals have the audit record.
 */
module AuditServer {
  import opened Basics
  import opened Options
  import opened Dns
  import opened Paging
  import opened NarrowBases
  import opened AuditReport

  const DIRECT_READS := 200
  const MAX_READ := 50000
  const MAX_PAGE := 1000

  // ----- the server

  datatype ReadAnswer =
    | Present
    | Absent
    | Referred(urls: seq<Reference>, matched: Reference)
    | ReadLimit
    | ReadFailure

  /**
   A directory server: the entries it holds, the referral objects that stand for the
   subtrees it does not hold with the DN each one's URL names, and how it answers.
   The listings say what a complete answer to each search is.
   */
  datatype Server = Server(
    held: iset<Dn>,
    referrals: iset<Dn>,
    urlOf: Dn -> Reference,
    definesReferral: bool,
    search: Base -> Pager<Dn>,
    ghost listing: Base -> seq<Dn>,
    findReferrals: Dn -> Pager<Reference>,
    ghost references: Dn -> seq<Reference>,
    read: Dn -> ReadAnswer)

  /** Some naming context is at or above `d`. */
  predicate InContext(contexts: seq<Dn>, d: Dn)
  {
    exists k: nat :: k < |contexts| && HasSuffix(d, contexts[k])
  }

  /** Below every announced context each entry's parent is there; below a referral object nothing is. */
  ghost predicate WellFormed(s: Server, contexts: seq<Dn>)
  {
    && (forall k: nat :: k < |contexts| ==> contexts[k] != [])
    && (forall d, k: nat :: d in s.held && k < |contexts| && HasSuffix(d, contexts[k]) && |contexts[k]| < |d| ==>
          Parent(d) in s.held)
    && (forall d, r :: d in s.held && r in s.referrals ==> !HasSuffix(d, r))
    && (forall r, k: nat :: r in s.referrals && k < |contexts| && HasSuffix(contexts[k], r) ==> contexts[k] == r)
    && (!s.definesReferral ==> s.referrals == iset{})
  }

  ghost predicate BelowReferral(s: Server, d: Dn)
  {
    exists r :: r in s.referrals && HasSuffix(d, r)
  }

  /** The server answers truthfully, though in pages of its choosing and failing when it likes, and gets on with it. */
  ghost predicate Truthful(s: Server)
  {
    && (forall b :: TruthfulSearch(s, b))
    && (forall c :: TruthfulReferences(s, c))
    && (forall d :: s.read(d).Present? ==> d in s.held)
    && (forall d :: s.read(d).Absent? || s.read(d).Referred? ==> d !in s.held)
  }

  ghost predicate TruthfulSearch(s: Server, b: Base)
  {
    && Pages(s.search(b), s.listing(b)) && Patient(s.search(b))
    && (forall d :: d in s.listing(b) <==> d in s.held && InScope(d, b))
    && (Says(s.search(b), NoSuchObject) ==> b.dn !in s.held)
    && (forall url, matched :: Says(s.search(b), Referral(url, matched)) ==> BelowReferral(s, b.dn))
  }

  ghost predicate TruthfulReferences(s: Server, c: Dn)
  {
    && Pages(s.findReferrals(c), s.references(c)) && Patient(s.findReferrals(c))
    && (forall r :: r in s.referrals && HasSuffix(r, c) ==> s.urlOf(r) in s.references(c))
  }

  /** No failure, no limit, and no page cut short without another one to come. */
  ghost predicate Answers<T(!new)>(p: Pager<T>)
  {
    forall round: nat, pos: nat, want: Want :: Answered(p(round, pos, want))
  }

  predicate Answered<T>(a: Answer<T>)
  {
    match a
    case Page(_, _, cookie, truncated) => truncated ==> cookie.Some?
    case NoSuchObject => true
    case Referral(_, _) => true
    case ServerLimit => false
    case Failure => false
  }

  /** The server answers every search and every read. */
  ghost predicate Willing(s: Server)
  {
    && (forall b {:trigger Answers(s.search(b))} :: Answers(s.search(b)))
    && (forall c :: WillingReferences(s, c))
    && (forall d :: !s.read(d).ReadLimit? && !s.read(d).ReadFailure?)
  }

  ghost predicate WillingReferences(s: Server, c: Dn)
  {
    && Answers(s.findReferrals(c)) && !Says(s.findReferrals(c), NoSuchObject)
    && forall url, matched :: !Says(s.findReferrals(c), Referral(url, matched))
  }

  /** How many entries a complete answer to the search has. */
  ghost function Size(s: Server, b: Base): nat
  {
    |s.listing(b)|
  }

  ghost predicate BaseRefused(s: Server, b: Base, e: Error, entries: nat)
  {
    Willing(s) ==> e.TooMuchToRead? && entries + Size(s, b) > MAX_READ
  }

  /** How many entries complete answers to the first `n` searches have. */
  ghost function Listed(s: Server, bases: seq<Base>, n: nat): nat
    requires n <= |bases|
  {
    if n == 0 then 0 else Listed(s, bases, n - 1) + Size(s, bases[n - 1])
  }

  /** The searches for these names come to more than there is left to read. */
  ghost predicate TooMuchListed(s: Server, bases: seq<Base>, entries: nat)
  {
    entries + Listed(s, bases, |bases|) > MAX_READ
  }

  datatype Error =
    | Incomplete
    | TooMuchToRead
    | TooManyGroups
    | NotThere
    | Elsewhere(url: Reference, matched: Reference)
    | Upstream

  datatype Result<T> = Ok(value: T) | Err(error: Error)

  /** The answer stops a search early: a limit, or a page cut short without another to come. */
  predicate StopsEarly<T>(a: Answer<T>)
  {
    a.ServerLimit? || (a.Page? && a.truncated && a.cookie.None?)
  }

  /** Some answer of the server stops a search or a read early. */
  ghost predicate LimitSaid(s: Server)
  {
    || (exists b, a :: Says(s.search(b), a) && StopsEarly(a))
    || (exists c, a :: Says(s.findReferrals(c), a) && StopsEarly(a))
    || (exists d :: s.read(d).ReadLimit?)
  }

  /** Some search or read fails, or one for referral objects is answered with no such object or a referral. */
  ghost predicate FailureSaid(s: Server)
  {
    || (exists b, a :: Says(s.search(b), a) && a.Failure?)
    || (exists c, a :: Says(s.findReferrals(c), a) && !a.Page? && !a.ServerLimit?)
    || (exists d :: s.read(d).ReadFailure?)
  }

  /** What is called incomplete was stopped early, and only what failed is called a failure. */
  ghost predicate HasReason(s: Server, e: Error)
  {
    (e.Incomplete? ==> LimitSaid(s)) && (e.Upstream? ==> FailureSaid(s))
  }

  // ----- what is recorded for a referral

  /** A recorded referral: where it is, and whether there is a text to call it by, which is what marks a name. */
  datatype Note = Note(at: Dn, labelled: bool)

  /** The DN a referral stands for: the one its URL names, else the one matched, else the base. */
  function ReferralAt(url: Reference, matched: Reference, base: Dn): Dn
  {
    if url.To? then url.dn else if matched.To? then matched.dn else base
  }

  /** A referral is called by its URL, or else by what was matched, either of which may be empty. */
  function NoteOf(url: Reference, matched: Reference, base: Dn): Note
  {
    Note(ReferralAt(url, matched, base), !url.Blank? || !matched.Blank?)
  }

  /** Some recorded referral is at or above `n`. */
  ghost predicate Covers(below: seq<Note>, n: Dn)
  {
    exists k: nat :: k < |below| && HasSuffix(n, below[k].at)
  }

  ghost predicate FirstAbove(below: seq<Note>, n: Dn, k: nat)
  {
    k < |below| && HasSuffix(n, below[k].at) && forall j: nat :: j < k ==> !HasSuffix(n, below[j].at)
  }

  /** The first recorded referral at or above `n` has something to be called by. */
  ghost predicate Marks(below: seq<Note>, n: Dn)
  {
    exists k: nat :: FirstAbove(below, n, k) && below[k].labelled
  }

  lemma {:induction false} SomeFirst(below: seq<Note>, n: Dn, k: nat)
    requires k < |below| && HasSuffix(n, below[k].at)
    ensures exists i: nat :: FirstAbove(below, n, i)
  {
    if j: nat :| j < k && HasSuffix(n, below[j].at) {
      SomeFirst(below, n, j);
    } else {
      assert FirstAbove(below, n, k);
    }
  }

  /** What was recorded first decides; only a name it does not cover can be marked by what came later. */
  lemma MarksSplit(first: seq<Note>, more: seq<Note>, n: Dn)
    ensures Marks(first + more, n) <==> Marks(first, n) || (!Covers(first, n) && Marks(more, n))
    ensures Covers(first + more, n) <==> Covers(first, n) || Covers(more, n)
  {
    var all := first + more;
    if Covers(first, n) {
      var k: nat :| k < |first| && HasSuffix(n, first[k].at);
      assert HasSuffix(n, all[k].at);
      SomeFirst(first, n, k);
      var i: nat :| FirstAbove(first, n, i);
      assert FirstAbove(all, n, i);
    } else if Covers(more, n) {
      var k: nat :| k < |more| && HasSuffix(n, more[k].at);
      assert HasSuffix(n, all[|first| + k].at);
      SomeFirst(more, n, k);
      var i: nat :| FirstAbove(more, n, i);
      FirstOfMore(first, more, n, i);
    }
  }

  lemma FirstOfMore(first: seq<Note>, more: seq<Note>, n: Dn, i: nat)
    requires !Covers(first, n) && FirstAbove(more, n, i)
    ensures FirstAbove(first + more, n, |first| + i)
  {
    var all := first + more;
    forall j: nat | j < |first| + i
      ensures !HasSuffix(n, all[j].at)
    {
      if j < |first| {
        assert all[j] == first[j];
      } else {
        assert all[j] == more[j - |first|];
      }
    }
  }

  /** Where every referral has something to be called by, being below one is all that counts. */
  lemma AllLabelled(below: seq<Note>, n: Dn)
    requires forall k: nat :: k < |below| ==> below[k].labelled
    ensures Marks(below, n) <==> Covers(below, n)
  {
    if Covers(below, n) {
      var k: nat :| k < |below| && HasSuffix(n, below[k].at);
      SomeFirst(below, n, k);
    }
  }

  function Notes(urls: seq<Reference>, matched: Reference, base: Dn): (r: seq<Note>)
    ensures |r| == |urls| && forall i: nat :: i < |r| ==> r[i] == NoteOf(urls[i], matched, base)
  {
    seq(|urls|, i requires 0 <= i < |urls| => NoteOf(urls[i], matched, base))
  }

  /** The referrals recorded for the references of pages such a search answers with. */
  ghost function PageReferrals<T(!new)>(p: Pager<T>, base: Dn): iset<Note>
  {
    iset d | FromPage(p, base, d)
  }

  ghost predicate FromPage<T(!new)>(p: Pager<T>, base: Dn, d: Note)
  {
    exists a, u :: Says(p, a) && a.Page? && u in a.references && d == NoteOf(u, Blank, base)
  }

  /** The referrals recorded for one of the searches that look for names. */
  ghost function BaseReferrals(s: Server, b: Base): iset<Note>
  {
    iset d | FromPage(s.search(b), b.dn, d) || FromAnswer(s.search(b), b.dn, d)
  }

  ghost predicate FromAnswer<T(!new)>(p: Pager<T>, base: Dn, d: Note)
  {
    exists url, matched :: Says(p, Referral(url, matched)) && d == NoteOf(url, matched, base)
  }

  /** How a search of the audit asks, with this many entries read before. */
  function SearchPlan(most: nat, entries: nat): Asks
    requires most >= 1 && entries <= MAX_READ
  {
    var stop := Min(most, MAX_READ + 1 - entries);
    Plan(stop, stop, MAX_PAGE)
  }

  function GroupPlan(limit: nat): Asks
  {
    SearchPlan(limit + 1, 0)
  }

  /** How a search for referral objects asks: with no bound of its own, so with one it never meets. */
  function ReferencesPlan(size: nat): Asks
  {
    Plan(size + 1, size + 1 + MAX_PAGE, MAX_PAGE)
  }

  /** The referrals recorded for the first `n` answers to a search. */
  ghost function Heard<T(!new)>(p: Pager<T>, q: Asks, base: Dn, n: nat): seq<Note>
    requires n > 0 ==> Asking(p, q, n - 1).Some?
  {
    if n == 0 then [] else Heard(p, q, base, n - 1) + HeardIn(AnswerIn(p, q, n - 1), base)
  }

  function HeardIn<T>(a: Answer<T>, base: Dn): seq<Note>
  {
    if a.Page? then Notes(a.references, Blank, base) else []
  }

  /** A search made to its last round, answered with `last`, adds the references of all its pages, and nothing else. */
  ghost predicate HeardUntil<T(!new)>(p: Pager<T>, q: Asks, base: Dn,
      before: seq<Note>, after: seq<Note>, last: Answer<T>)
  {
    exists n: nat :: LastIs(p, q, n, last) && after == before + Heard(p, q, base, n + 1)
  }

  ghost predicate LastIs<T(!new)>(p: Pager<T>, q: Asks, n: nat, last: Answer<T>)
  {
    IsLast(p, q, n) && AnswerIn(p, q, n) == last
  }

  /** As for a search for names, which also records the referral it may end with. */
  ghost predicate HeardBase(s: Server, b: Base, entries: nat, before: seq<Note>, after: seq<Note>)
  {
    exists heard, last ::
      HeardThen(s, b, entries, before, heard, last) && after == heard + ReferralIn(last, b.dn)
  }

  ghost predicate HeardThen(s: Server, b: Base, entries: nat, before: seq<Note>, heard: seq<Note>, last: Answer<Dn>)
  {
    entries <= MAX_READ && HeardUntil(s.search(b), SearchPlan(MAX_READ + 1, entries), b.dn, before, heard, last)
  }

  function ReferralIn<T>(a: Answer<T>, base: Dn): seq<Note>
  {
    match a
    case Referral(url, matched) => [NoteOf(url, matched, base)]
    case _ => []
  }

  /** The first `k` of these searches, one after the other, with this many entries read before them. */
  ghost predicate HeardBases(s: Server, bases: seq<Base>, k: nat, entries: nat, before: seq<Note>, after: seq<Note>)
    requires k <= |bases|
    decreases k, 0
  {
    if k == 0 then after == before else exists mid :: HeardOneMore(s, bases, k, entries, before, mid, after)
  }

  ghost predicate HeardOneMore(s: Server, bases: seq<Base>, k: nat, entries: nat,
      before: seq<Note>, mid: seq<Note>, after: seq<Note>)
    requires 0 < k <= |bases|
    decreases k - 1, 1
  {
    && HeardBases(s, bases, k - 1, entries, before, mid)
    && HeardBase(s, bases[k - 1], entries + Listed(s, bases, k - 1), mid, after)
  }

  lemma HeardMore<T(!new)>(p: Pager<T>, q: Asks, base: Dn, n: nat, before: seq<Note>, now: seq<Note>, a: Answer<T>)
    requires Asking(p, q, n).Some? && a == AnswerIn(p, q, n) && now == before + Heard(p, q, base, n)
    ensures now + HeardIn(a, base) == before + Heard(p, q, base, n + 1)
  {
    Regroup(before, Heard(p, q, base, n), HeardIn(a, base));
  }

  lemma HeardLast<T(!new)>(p: Pager<T>, q: Asks, base: Dn, n: nat, before: seq<Note>, after: seq<Note>, last: Answer<T>)
    requires Asking(p, q, n).Some? && last == AnswerIn(p, q, n) && after == before + Heard(p, q, base, n + 1)
    requires Asking(p, q, n + 1).None?
    ensures HeardUntil(p, q, base, before, after, last)
  {
    assert LastIs(p, q, n, last);
  }

  /** A search that has asked in `round` rounds, got `count` entries, and will have ended after `n` rounds. */
  ghost predicate Midway<T(!new)>(p: Pager<T>, q: Asks, base: Dn, before: seq<Note>, now: seq<Note>,
      round: nat, count: nat, n: nat)
  {
    Asking(p, q, round) == Some(count) && now == before + Heard(p, q, base, round) && round < n && Asking(p, q, n).None?
  }

  lemma Begun<T(!new)>(p: Pager<T>, q: Asks, base: Dn, before: seq<Note>) returns (n: nat)
    requires Ends(p, q)
    ensures Midway(p, q, base, before, before, 0, 0, n)
  {
    n :| Asking(p, q, n).None?;
    EndsAfter(p, q, n, 0);
    assert before + [] == before;
  }

  /** One more answer: the search goes on, or has ended. */
  lemma OneMoreAnswer<T(!new)>(p: Pager<T>, q: Asks, base: Dn, before: seq<Note>, now: seq<Note>,
      round: nat, count: nat, n: nat, a: Answer<T>)
    requires Midway(p, q, base, before, now, round, count, n) && a == p(round, count, WantOf(q, count))
    ensures Says(p, a) && (Answers(p) ==> Answered(a))
    ensures GoesOn(a, count, q) ==>
      Midway(p, q, base, before, now + HeardIn(a, base), round + 1, count + |a.entries|, n)
    ensures !GoesOn(a, count, q) ==> HeardUntil(p, q, base, before, now + HeardIn(a, base), a)
  {
    assert a == AnswerIn(p, q, round);
    HeardMore(p, q, base, round, before, now, a);
    if GoesOn(a, count, q) {
      EndsAfter(p, q, n, round + 1);
    } else {
      HeardLast(p, q, base, round, before, now + HeardIn(a, base), a);
    }
  }

  lemma {:induction false} HeardFromPages<T(!new)>(p: Pager<T>, q: Asks, base: Dn, n: nat)
    requires n > 0 ==> Asking(p, q, n - 1).Some?
    ensures forall d :: d in Heard(p, q, base, n) ==> FromPage(p, base, d)
  {
    if n > 0 {
      HeardFromPages(p, q, base, n - 1);
      var a := AnswerIn(p, q, n - 1);
      assert Says(p, a);
      forall d | d in HeardIn(a, base)
        ensures FromPage(p, base, d)
      {
        var k: nat :| k < |a.references| && d == NoteOf(a.references[k], Blank, base);
        assert a.references[k] in a.references;
      }
    }
  }

  lemma HeardUntilAdds<T(!new)>(p: Pager<T>, q: Asks, base: Dn, before: seq<Note>, after: seq<Note>, last: Answer<T>)
    requires HeardUntil(p, q, base, before, after, last)
    ensures Adds(before, after, PageReferrals(p, base)) && Says(p, last)
  {
    var n: nat :| LastIs(p, q, n, last) && after == before + Heard(p, q, base, n + 1);
    HeardFromPages(p, q, base, n + 1);
    forall k: nat | |before| <= k < |after|
      ensures after[k] in PageReferrals(p, base)
    {
      assert after[k] in Heard(p, q, base, n + 1);
    }
  }

  lemma HeardBaseAdds(s: Server, b: Base, entries: nat, before: seq<Note>, after: seq<Note>)
    requires HeardBase(s, b, entries, before, after)
    ensures Adds(before, after, BaseReferrals(s, b))
  {
    var p := s.search(b);
    var heard, last :|
      HeardThen(s, b, entries, before, heard, last) && after == heard + ReferralIn(last, b.dn);
    var q := SearchPlan(MAX_READ + 1, entries);
    HeardUntilAdds(p, q, b.dn, before, heard, last);
    forall k: nat | |before| <= k < |after|
      ensures after[k] in BaseReferrals(s, b)
    {
      if k < |heard| {
        assert after[k] == heard[k];
      } else {
        assert FromAnswer(p, b.dn, after[k]);
      }
    }
  }

  lemma {:induction false} HeardBasesAdd(s: Server, bases: seq<Base>, k: nat, entries: nat,
      before: seq<Note>, after: seq<Note>)
    requires k <= |bases| && HeardBases(s, bases, k, entries, before, after)
    ensures Adds(before, after, SearchReferrals(s, bases))
  {
    if k > 0 {
      var mid :| HeardOneMore(s, bases, k, entries, before, mid, after);
      HeardBasesAdd(s, bases, k - 1, entries, before, mid);
      HeardBaseAdds(s, bases[k - 1], entries + Listed(s, bases, k - 1), mid, after);
      AddsMore(mid, after, BaseReferrals(s, bases[k - 1]), SearchReferrals(s, bases));
      AddsTrans(before, mid, after, SearchReferrals(s, bases));
    }
  }

  ghost function SearchReferrals(s: Server, bases: seq<Base>): iset<Note>
  {
    iset d | FromBases(s, bases, d)
  }

  ghost predicate FromBases(s: Server, bases: seq<Base>, d: Note)
  {
    exists k: nat :: k < |bases| && d in BaseReferrals(s, bases[k])
  }

  /** The contexts that the names are in, each once, in the order they come to. */
  function Used(contexts: seq<Dn>, order: seq<Dn>): (used: seq<Dn>)
  {
    if order == [] then []
    else
      var used := Used(contexts, order[..|order| - 1]);
      var c := Context(contexts, order[|order| - 1]);
      if c in contexts && c !in used then used + [c] else used
  }

  /** What is recorded for the referral objects of these contexts, one context after the other. */
  ghost function NotesOf(s: Server, used: seq<Dn>): seq<Note>
  {
    if used == [] then []
    else
      var c := used[|used| - 1];
      NotesOf(s, used[..|used| - 1]) + Notes(s.references(c), Blank, c)
  }

  /** What is recorded for the referral objects of the contexts that the names are in. */
  ghost function ObjectNotes(s: Server, contexts: seq<Dn>, order: seq<Dn>): seq<Note>
  {
    if s.definesReferral then NotesOf(s, Used(contexts, order)) else []
  }

  lemma NotesMore(s: Server, used: seq<Dn>, k: nat, before: seq<Note>)
    requires k < |used|
    ensures before + NotesOf(s, used[..k]) + Notes(s.references(used[k]), Blank, used[k]) ==
      before + NotesOf(s, used[..k + 1])
  {
    assert used[..k + 1][..k] == used[..k];
    Regroup(before, NotesOf(s, used[..k]), Notes(s.references(used[k]), Blank, used[k]));
  }

  /** Such a reference came back from the context of one of the names. */
  ghost predicate FromObjects(s: Server, contexts: seq<Dn>, order: seq<Dn>, d: Note)
  {
    s.definesReferral && exists n :: n in order && FromObject(s, contexts, n, d)
  }

  ghost predicate FromObject(s: Server, contexts: seq<Dn>, n: Dn, d: Note)
  {
    var c := Context(contexts, n);
    c in contexts && d in Notes(s.references(c), Blank, c)
  }

  /** Some of these names are in that context. */
  ghost predicate ContextOfSome(contexts: seq<Dn>, order: seq<Dn>, c: Dn)
  {
    exists n :: n in order && Context(contexts, n) == c
  }

  lemma {:induction false} UsedAre(contexts: seq<Dn>, order: seq<Dn>, c: Dn)
    ensures c in Used(contexts, order) <==> c in contexts && ContextOfSome(contexts, order, c)
  {
    if order != [] {
      var rest, last := order[..|order| - 1], order[|order| - 1];
      UsedAre(contexts, rest, c);
      assert order == rest + [last];
      assert ContextOfSome(contexts, order, c) <==>
        ContextOfSome(contexts, rest, c) || Context(contexts, last) == c;
    }
  }

  lemma {:induction false} NotesOfAre(s: Server, used: seq<Dn>, d: Note)
    ensures d in NotesOf(s, used) <==> exists c :: c in used && d in Notes(s.references(c), Blank, c)
  {
    if used != [] {
      var rest, last := used[..|used| - 1], used[|used| - 1];
      NotesOfAre(s, rest, d);
      assert used == rest + [last];
    }
  }

  /** What is recorded for referral objects are the references that came back from the contexts of the names. */
  lemma ObjectNotesAre(s: Server, contexts: seq<Dn>, order: seq<Dn>, d: Note)
    ensures d in ObjectNotes(s, contexts, order) <==> FromObjects(s, contexts, order, d)
  {
    if s.definesReferral {
      var used := Used(contexts, order);
      NotesOfAre(s, used, d);
      if d in ObjectNotes(s, contexts, order) {
        var c :| c in used && d in Notes(s.references(c), Blank, c);
        UsedAre(contexts, order, c);
        var n :| n in order && Context(contexts, n) == c;
        assert FromObject(s, contexts, n, d);
      }
      if FromObjects(s, contexts, order, d) {
        var n :| n in order && FromObject(s, contexts, n, d);
        UsedAre(contexts, order, Context(contexts, n));
      }
    }
  }

  /** The referrals recorded for the answer to one read, in order. */
  function ReadReferrals(a: ReadAnswer, n: Dn): seq<Note>
  {
    match a
    case Referred(urls, matched) =>
      if urls == [] then [NoteOf(Blank, matched, n)] else Notes(urls, matched, n)
    case _ => []
  }

  /** The referrals recorded for the first `k` reads. */
  function ReadsRecord(s: Server, order: seq<Dn>, k: nat): seq<Note>
    requires k <= |order|
  {
    if k == 0 then [] else ReadsRecord(s, order, k - 1) + ReadReferrals(s.read(order[k - 1]), order[k - 1])
  }

  /** What was recorded before is still there, and what came since is among these. */
  ghost predicate Adds(before: seq<Note>, after: seq<Note>, allowed: iset<Note>)
  {
    && before <= after
    && forall k: nat :: |before| <= k < |after| ==> after[k] in allowed
  }

  lemma AddsSome(before: seq<Note>, after: seq<Note>, allowed: iset<Note>)
    requires Adds(before, after, allowed)
    ensures after == before || exists d :: d in allowed
  {
    assert |after| > |before| ==> after[|before|] in allowed;
  }

  lemma SomethingIn<T>(s: seq<T>)
    ensures s == [] || exists x :: x in s
  {
    assert s != [] ==> s[0] in s;
  }

  lemma RecordMore(s: Server, order: seq<Dn>, k: nat, before: seq<Note>, now: seq<Note>)
    requires k < |order| && now == before + ReadsRecord(s, order, k)
    ensures now + ReadReferrals(s.read(order[k]), order[k]) == before + ReadsRecord(s, order, k + 1)
  {
    Regroup(before, ReadsRecord(s, order, k), ReadReferrals(s.read(order[k]), order[k]));
  }

  lemma Regroup(a: seq<Note>, b: seq<Note>, c: seq<Note>)
    ensures a + b + c == a + (b + c)
  {
  }

  lemma AddsTrans(a: seq<Note>, b: seq<Note>, c: seq<Note>, allowed: iset<Note>)
    requires Adds(a, b, allowed) && Adds(b, c, allowed)
    ensures Adds(a, c, allowed)
  {
  }

  lemma AddsMore(a: seq<Note>, b: seq<Note>, few: iset<Note>, many: iset<Note>)
    requires Adds(a, b, few) && few <= many
    ensures Adds(a, b, many)
  {
  }

  // ----- what the groups name

  /** A group as read: for each membership value, the DN it is when it is one. */
  datatype RawGroup = RawGroup(dn: Dn, values: seq<Option<Dn>>)

  /** A value is checked when it is a DN in some naming context. */
  function Classify(contexts: seq<Dn>, g: RawGroup): Group
  {
    Group(g.dn, seq(|g.values|, i requires 0 <= i < |g.values| =>
      Value(if g.values[i].Some? && InContext(contexts, g.values[i].value) then g.values[i] else None)))
  }

  function Classified(contexts: seq<Dn>, groups: seq<RawGroup>): (r: seq<Group>)
    ensures |r| == |groups| && forall i: nat :: i < |r| ==> r[i] == Classify(contexts, groups[i])
  {
    if groups == [] then []
    else Classified(contexts, groups[..|groups| - 1]) + [Classify(contexts, groups[|groups| - 1])]
  }

  ghost predicate Mentions(g: Group, n: Dn)
  {
    Value(Some(n)) in g.values
  }

  ghost predicate NamedByGroup(groups: seq<Group>, n: Dn)
  {
    exists g :: g in groups && Mentions(g, n)
  }

  /** These names, and after them those that the values give and that are not among them yet. */
  function NamesIn(values: seq<Value>, before: seq<Dn>): seq<Dn>
  {
    if values == [] then before
    else
      var names := NamesIn(values[..|values| - 1], before);
      var v := values[|values| - 1];
      if v.key.Some? && v.key.value !in names then names + [v.key.value] else names
  }

  /** The names the groups give, each once, in the order they come. */
  function NamesOf(groups: seq<Group>): seq<Dn>
  {
    if groups == [] then []
    else NamesIn(groups[|groups| - 1].values, NamesOf(groups[..|groups| - 1]))
  }

  lemma {:induction false} NamesInAre(values: seq<Value>, before: seq<Dn>)
    requires NoDuplicates(before)
    ensures NoDuplicates(NamesIn(values, before))
    ensures forall n :: n in NamesIn(values, before) <==> n in before || Value(Some(n)) in values
  {
    if values != [] {
      var rest, v := values[..|values| - 1], values[|values| - 1];
      NamesInAre(rest, before);
      assert values == rest + [v];
    }
  }

  lemma {:induction false} NamesOfAre(groups: seq<Group>)
    ensures NoDuplicates(NamesOf(groups)) && forall n :: n in NamesOf(groups) <==> NamedByGroup(groups, n)
  {
    if groups != [] {
      var rest, g := groups[..|groups| - 1], groups[|groups| - 1];
      NamesOfAre(rest);
      NamesInAre(g.values, NamesOf(rest));
      assert groups == rest + [g];
      forall n
        ensures n in NamesOf(groups) <==> NamedByGroup(groups, n)
      {
        if n in NamesOf(groups) && n in NamesOf(rest) {
          var h :| h in rest && Mentions(h, n);
          assert h in groups;
        } else if n in NamesOf(groups) {
          assert g in groups && Mentions(g, n);
        }
        if h :| h in groups && Mentions(h, n) {
          assert h != g ==> h in rest;
        }
      }
    }
  }

  /** The names that no recorded referral marks, in order. */
  ghost function Unmarked(order: seq<Dn>, noted: seq<Note>): (pending: seq<Dn>)
  {
    if order == [] then []
    else
      var n := order[|order| - 1];
      Unmarked(order[..|order| - 1], noted) + if Marks(noted, n) then [] else [n]
  }

  lemma {:induction false} UnmarkedAre(order: seq<Dn>, noted: seq<Note>)
    requires NoDuplicates(order)
    ensures NoDuplicates(Unmarked(order, noted))
    ensures forall n :: n in Unmarked(order, noted) <==> n in order && !Marks(noted, n)
  {
    if order != [] {
      var rest, n := order[..|order| - 1], order[|order| - 1];
      UnmarkedAre(rest, noted);
      assert order == rest + [n];
    }
  }

  lemma InContextHasOne(contexts: seq<Dn>, n: Dn)
    requires InContext(contexts, n)
    ensures Context(contexts, n) in contexts
  {
    var k: nat :| k < |contexts| && HasSuffix(n, contexts[k]);
    if Context(contexts, n) == [] {
      assert contexts[k] == [];
    }
  }

  // ----- what marks a name, said of the answers

  /** A referral with this URL, or else the DN matched, or else the base, is at or above `n`. */
  predicate IsAbove(url: Reference, matched: Reference, base: Dn, n: Dn)
  {
    match url
    case To(d) => HasSuffix(n, d)
    case _ =>
      match matched
      case To(d) => HasSuffix(n, d)
      case _ => HasSuffix(n, base)
  }

  predicate IsFirstAbove(urls: seq<Reference>, matched: Reference, base: Dn, n: Dn, i: nat)
  {
    i < |urls| && IsAbove(urls[i], matched, base, n) && forall j: nat :: j < i ==> !IsAbove(urls[j], matched, base, n)
  }

  /** References mark a name exactly when the first of them at or above it, or what was matched, is no empty text. */
  lemma NotesMark(urls: seq<Reference>, matched: Reference, base: Dn, n: Dn)
    ensures Covers(Notes(urls, matched, base), n) <==> exists i: nat :: i < |urls| && IsAbove(urls[i], matched, base, n)
    ensures Marks(Notes(urls, matched, base), n) <==>
      exists i: nat :: IsFirstAbove(urls, matched, base, n, i) && (urls[i] != Blank || matched != Blank)
  {
    var notes := Notes(urls, matched, base);
    forall i: nat
      ensures i < |urls| ==> (HasSuffix(n, notes[i].at) <==> IsAbove(urls[i], matched, base, n))
      ensures FirstAbove(notes, n, i) <==> IsFirstAbove(urls, matched, base, n, i)
    {
    }
    if i: nat :| i < |urls| && IsAbove(urls[i], matched, base, n) {
      assert HasSuffix(n, notes[i].at);
    }
    if i: nat :| IsFirstAbove(urls, matched, base, n, i) && (urls[i] != Blank || matched != Blank) {
      assert FirstAbove(notes, n, i) && notes[i].labelled;
    }
    if i: nat :| FirstAbove(notes, n, i) && notes[i].labelled {
      assert IsFirstAbove(urls, matched, base, n, i);
    }
  }

  /** A read answered with a referral and no URL counts as one with an empty URL. */
  lemma OwnReferralsMark(urls: seq<Reference>, matched: Reference, n: Dn)
    ensures var given := if urls == [] then [Blank] else urls;
      Marks(ReadReferrals(Referred(urls, matched), n), n) <==>
        exists i: nat :: IsFirstAbove(given, matched, n, n, i) && (given[i] != Blank || matched != Blank)
  {
    NotesMark(if urls == [] then [Blank] else urls, matched, n, n);
    assert Notes([Blank], matched, n) == [NoteOf(Blank, matched, n)];
  }

  lemma {:induction false} ContextsCover(s: Server, used: seq<Dn>, n: Dn)
    ensures Covers(NotesOf(s, used), n) <==> exists j: nat :: j < |used| && ContextCovers(s, used[j], n)
  {
    if used != [] {
      var rest, c := used[..|used| - 1], used[|used| - 1];
      ContextsCover(s, rest, n);
      MarksSplit(NotesOf(s, rest), Notes(s.references(c), Blank, c), n);
      assert forall j: nat :: j < |rest| ==> rest[j] == used[j];
      assert ContextCovers(s, used[|used| - 1], n) <==> ContextCovers(s, c, n);
    }
  }

  /** Of the contexts asked for referral objects, the first with a reference at or above the name decides. */
  lemma {:induction false} ContextsMark(s: Server, used: seq<Dn>, n: Dn)
    ensures Marks(NotesOf(s, used), n) <==> exists j: nat :: DecidingContext(s, used, n, j)
  {
    if used != [] {
      var rest, c := used[..|used| - 1], used[|used| - 1];
      ContextsMark(s, rest, n);
      ContextsCover(s, rest, n);
      MarksSplit(NotesOf(s, rest), Notes(s.references(c), Blank, c), n);
      forall j: nat | j < |rest|
        ensures DecidingContext(s, used, n, j) <==> DecidingContext(s, rest, n, j)
      {
        assert forall i: nat :: i <= j ==> rest[i] == used[i];
      }
      LastContext(s, used, n);
    }
  }

  lemma LastContext(s: Server, used: seq<Dn>, n: Dn)
    requires used != []
    ensures var rest := used[..|used| - 1];
      DecidingContext(s, used, n, |used| - 1) <==>
        ContextMarks(s, used[|used| - 1], n) && !exists j: nat :: j < |rest| && ContextCovers(s, rest[j], n)
  {
    var rest, c := used[..|used| - 1], used[|used| - 1];
    assert forall i: nat :: i < |rest| ==> rest[i] == used[i];
    if ContextMarks(s, c, n) {
      var notes := Notes(s.references(c), Blank, c);
      var k: nat :| FirstAbove(notes, n, k) && notes[k].labelled;
    }
  }

  /** The references of this context mark the name, and none of the contexts before has one at or above it. */
  ghost predicate DecidingContext(s: Server, used: seq<Dn>, n: Dn, j: nat)
  {
    j < |used| && ContextMarks(s, used[j], n) && forall i: nat :: i < j ==> !ContextCovers(s, used[i], n)
  }

  ghost predicate ContextCovers(s: Server, c: Dn, n: Dn)
  {
    Covers(Notes(s.references(c), Blank, c), n)
  }

  ghost predicate ContextMarks(s: Server, c: Dn, n: Dn)
  {
    Marks(Notes(s.references(c), Blank, c), n)
  }

  // ----- the order things come in

  /** Some name is in the first context at a place up to which none is in the second. */
  ghost predicate ContextFirst(contexts: seq<Dn>, order: seq<Dn>, c: Dn, d: Dn)
  {
    exists i: nat :: i < |order| && Context(contexts, order[i]) == c && NoneYet(contexts, order, d, i)
  }

  ghost predicate NoneYet(contexts: seq<Dn>, order: seq<Dn>, d: Dn, i: nat)
    requires i < |order|
  {
    forall j: nat :: j <= i ==> Context(contexts, order[j]) != d
  }

  /** The contexts are asked in the order the names come to them. */
  lemma {:induction false} UsedInOrder(contexts: seq<Dn>, order: seq<Dn>, a: nat, b: nat)
    requires a < b < |Used(contexts, order)|
    ensures ContextFirst(contexts, order, Used(contexts, order)[a], Used(contexts, order)[b])
  {
    var rest := order[..|order| - 1];
    var c, d := Used(contexts, order)[a], Used(contexts, order)[b];
    assert c == Used(contexts, rest)[a];
    if b < |Used(contexts, rest)| {
      UsedInOrder(contexts, rest, a, b);
    } else {
      UsedAre(contexts, rest, c);
      UsedAre(contexts, rest, d);
      NotYet(contexts, rest, c, d);
    }
    FirstStays(contexts, order, c, d);
  }

  lemma NotYet(contexts: seq<Dn>, order: seq<Dn>, c: Dn, d: Dn)
    requires ContextOfSome(contexts, order, c) && !ContextOfSome(contexts, order, d)
    ensures ContextFirst(contexts, order, c, d)
  {
    var n :| n in order && Context(contexts, n) == c;
    var i: nat :| i < |order| && order[i] == n;
    forall j: nat | j <= i
      ensures Context(contexts, order[j]) != d
    {
      assert order[j] in order;
    }
    assert NoneYet(contexts, order, d, i);
  }

  lemma FirstStays(contexts: seq<Dn>, order: seq<Dn>, c: Dn, d: Dn)
    requires order != [] && ContextFirst(contexts, order[..|order| - 1], c, d)
    ensures ContextFirst(contexts, order, c, d)
  {
    var rest := order[..|order| - 1];
    var i: nat :| i < |rest| && Context(contexts, rest[i]) == c && NoneYet(contexts, rest, d, i);
    forall j: nat | j <= i
      ensures Context(contexts, order[j]) != d
    {
      assert rest[j] == order[j];
    }
    assert NoneYet(contexts, order, d, i) && order[i] == rest[i];
  }

  /** The names that are looked for are looked for in the order they came. */
  lemma {:induction false} UnmarkedInOrder(order: seq<Dn>, noted: seq<Note>, a: nat, b: nat)
    requires a < b < |Unmarked(order, noted)|
    ensures exists i: nat, j: nat ::
      i < j < |order| && order[i] == Unmarked(order, noted)[a] && order[j] == Unmarked(order, noted)[b]
  {
    var rest, last := order[..|order| - 1], order[|order| - 1];
    var some := Unmarked(rest, noted);
    if b < |some| {
      UnmarkedInOrder(rest, noted, a, b);
      var i: nat, j: nat :| i < j < |rest| && rest[i] == some[a] && rest[j] == some[b];
      assert order[i] == rest[i] && order[j] == rest[j];
    } else {
      UnmarkedAmong(rest, noted, some[a]);
      var i: nat :| i < |rest| && rest[i] == some[a];
      assert order[i] == rest[i] && order[|order| - 1] == last;
    }
  }

  lemma {:induction false} UnmarkedAmong(order: seq<Dn>, noted: seq<Note>, n: Dn)
    requires n in Unmarked(order, noted)
    ensures n in order
  {
    if n in Unmarked(order[..|order| - 1], noted) {
      UnmarkedAmong(order[..|order| - 1], noted, n);
    }
  }

  /** The value at that place of the groups names the first DN, and none up to it names the second. */
  ghost predicate NamedFirst(groups: seq<Group>, m: Dn, n: Dn, i: nat, k: nat)
  {
    && i < |groups| && k < |groups[i].values| && groups[i].values[k] == Value(Some(m))
    && (forall j: nat :: j < i ==> !Mentions(groups[j], n))
    && forall j: nat :: j <= k ==> groups[i].values[j] != Value(Some(n))
  }

  /** The names are in the order in which the groups first give them. */
  lemma {:induction false} NamesInOrder(groups: seq<Group>, a: nat, b: nat)
    requires a < b < |NamesOf(groups)|
    ensures exists i: nat, k: nat :: NamedFirst(groups, NamesOf(groups)[a], NamesOf(groups)[b], i, k)
  {
    var rest, g := groups[..|groups| - 1], groups[|groups| - 1];
    var before := NamesOf(rest);
    NamesOfAre(rest);
    NamesInExtend(g.values, before);
    var m, n := NamesOf(groups)[a], NamesOf(groups)[b];
    if b < |before| {
      NamesInOrder(rest, a, b);
      var i: nat, k: nat :| NamedFirst(rest, m, n, i, k);
      assert NamedFirst(groups, m, n, i, k);
    } else {
      NewName(g.values, before, b);
      assert n !in before;
      assert forall j: nat :: j < |rest| ==> groups[j] in rest;
      if a < |before| {
        assert m in before;
        var h :| h in rest && Mentions(h, m);
        var i: nat :| i < |rest| && rest[i] == h;
        var k: nat :| k < |h.values| && h.values[k] == Value(Some(m));
        assert !Mentions(groups[i], n);
        assert NamedFirst(groups, m, n, i, k);
      } else {
        var k := NamesInOrderOf(g.values, before, a, b);
        assert NamedFirst(groups, m, n, |groups| - 1, k);
      }
    }
  }

  lemma {:induction false} NamesInExtend(values: seq<Value>, before: seq<Dn>)
    ensures before <= NamesIn(values, before)
  {
    if values != [] {
      NamesInExtend(values[..|values| - 1], before);
    }
  }

  lemma {:induction false} NewName(values: seq<Value>, before: seq<Dn>, b: nat)
    requires |before| <= b < |NamesIn(values, before)|
    ensures NamesIn(values, before)[b] !in before
  {
    var rest := values[..|values| - 1];
    NamesInExtend(rest, before);
    if b < |NamesIn(rest, before)| {
      NewName(rest, before, b);
    } else {
      assert forall d :: d in before ==> d in NamesIn(rest, before);
    }
  }

  /** Among the values of one group: a place of the earlier name up to which the later one does not come. */
  lemma {:induction false} NamesInOrderOf(values: seq<Value>, before: seq<Dn>, a: nat, b: nat) returns (k: nat)
    requires |before| <= a < b < |NamesIn(values, before)|
    ensures k < |values| && values[k] == Value(Some(NamesIn(values, before)[a]))
    ensures forall j: nat :: j <= k ==> values[j] != Value(Some(NamesIn(values, before)[b]))
  {
    var rest := values[..|values| - 1];
    var names := NamesIn(rest, before);
    if b < |names| {
      k := NamesInOrderOf(rest, before, a, b);
    } else {
      k := PlaceOfName(rest, before, a);
      forall j: nat | j <= k
        ensures values[j] != Value(Some(NamesIn(values, before)[b]))
      {
        GivenIsIn(rest, before, j);
        assert rest[j] == values[j];
      }
    }
  }

  lemma {:induction false} PlaceOfName(values: seq<Value>, before: seq<Dn>, a: nat) returns (k: nat)
    requires |before| <= a < |NamesIn(values, before)|
    ensures k < |values| && values[k] == Value(Some(NamesIn(values, before)[a]))
  {
    var rest := values[..|values| - 1];
    if a < |NamesIn(rest, before)| {
      k := PlaceOfName(rest, before, a);
    } else {
      k := |values| - 1;
    }
  }

  lemma {:induction false} GivenIsIn(values: seq<Value>, before: seq<Dn>, j: nat)
    requires j < |values|
    ensures values[j].key.Some? ==> values[j].key.value in NamesIn(values, before)
  {
    if j < |values| - 1 {
      GivenIsIn(values[..|values| - 1], before, j);
    }
  }
}
