/**
 Paged searches: a server hands out a finite result in pages of its own choosing, and
 a caller has to know whether what it collected is all of it.
 */
module Paging {
  import opened Basics
  import opened Dns
  import opened Options

  /** How many entries a request asks for; a request for none would be read as one for many. */
  type Want = n: int | n >= 1 witness 1

  /** What a text that should name a DN comes to: it is empty, it names none, or it names one. */
  datatype Reference = Blank | Unreadable | To(dn: Dn)

  /** One answer to one page request; a cookie is the position the next page starts at. */
  datatype Answer<T> =
    | Page(entries: seq<T>, references: seq<Reference>, cookie: Option<nat>, truncated: bool)
    | NoSuchObject
    | Referral(url: Reference, matched: Reference)
    | ServerLimit
    | Failure

  /** What a search answers to the page asked for in a given round, from a given position. */
  type Pager<!T> = (nat, nat, Want) -> Answer<T>

  /**
   The pages are pieces of `all`, one after the other, in any sizes, with any of them
   failing; a page that ends the search without saying it was cut short ends with `all`.
   */
  ghost predicate Pages<T(!new)>(p: Pager<T>, all: seq<T>)
  {
    forall round: nat, pos: nat, want: Want :: pos <= |all| && p(round, pos, want).Page? ==>
      PageOf(all, pos, p(round, pos, want))
  }

  ghost predicate PageOf<T>(all: seq<T>, pos: nat, a: Answer<T>)
    requires pos <= |all| && a.Page?
  {
    && pos + |a.entries| <= |all|
    && a.entries == all[pos..pos + |a.entries|]
    && (a.cookie.Some? ==> a.cookie.value == pos + |a.entries|)
    && (a.cookie.None? && !a.truncated ==> pos + |a.entries| == |all|)
  }

  ghost predicate Says<T(!new)>(p: Pager<T>, a: Answer<T>)
  {
    exists round: nat, pos: nat, want: Want :: p(round, pos, want) == a
  }

  /** The server never ends a search early: a page cut short always comes with a cookie. */
  ghost predicate NeverCuts<T(!new)>(p: Pager<T>)
  {
    forall round: nat, pos: nat, want: Want :: p(round, pos, want).Page? && p(round, pos, want).truncated ==>
      p(round, pos, want).cookie.Some?
  }

  // ----- a loop that asks for pages until there is no cookie

  /** How such a loop asks: until it has `stop` entries, for no more than are left of `budget`, nor than a page. */
  datatype Plan = Plan(stop: nat, budget: nat, page: nat)

  type Asks = q: Plan | 1 <= q.stop <= q.budget && q.page >= 1 witness Plan(1, 1, 1)

  function WantOf(q: Asks, count: nat): Want
    requires count < q.stop
  {
    Min(q.budget - count, q.page)
  }

  /** How many entries the loop has after some rounds; nothing once it has ended. */
  ghost function Asking<T(!new)>(p: Pager<T>, q: Asks, rounds: nat): (count: Option<nat>)
    ensures count.Some? ==> count.value < q.stop
  {
    if rounds == 0 then Some(0)
    else match Asking(p, q, rounds - 1)
      case None => None
      case Some(count) =>
        var a := p(rounds - 1, count, WantOf(q, count));
        if GoesOn(a, count, q) then Some(count + |a.entries|) else None
  }

  /** The loop, having `count` entries, asks again after this answer. */
  predicate GoesOn<T>(a: Answer<T>, count: nat, q: Asks)
  {
    a.Page? && a.cookie.Some? && count + |a.entries| < q.stop
  }

  /** The loop has ended after some number of rounds. */
  ghost predicate Ends<T(!new)>(p: Pager<T>, q: Asks)
  {
    exists n: nat :: Asking(p, q, n).None?
  }

  /** The loop asks for a page in that round, and gets an empty one that promises another. */
  ghost predicate Stalled<T(!new)>(p: Pager<T>, q: Asks, round: nat)
  {
    Asking(p, q, round).Some? && PromisesEmpty(AnswerIn(p, q, round))
  }

  predicate PromisesEmpty<T>(a: Answer<T>)
  {
    a.Page? && a.cookie.Some? && |a.entries| == 0
  }

  /** What the loop is answered in that round. */
  ghost function AnswerIn<T(!new)>(p: Pager<T>, q: Asks, round: nat): Answer<T>
    requires Asking(p, q, round).Some?
  {
    p(round, Asking(p, q, round).value, WantOf(q, Asking(p, q, round).value))
  }

  ghost predicate StalledFrom<T(!new)>(p: Pager<T>, q: Asks, from: nat)
  {
    forall round: nat :: round >= from ==> Stalled(p, q, round)
  }

  /** From some round on the loop is sent empty pages that promise another, and nothing else. */
  ghost predicate StallsForEver<T(!new)>(p: Pager<T>, q: Asks)
  {
    exists from: nat :: StalledFrom(p, q, from)
  }

  lemma {:induction false} AskingGrows<T(!new)>(p: Pager<T>, q: Asks, m: nat, n: nat)
    requires m <= n
    ensures Asking(p, q, n).Some? ==> Asking(p, q, m).Some? && Asking(p, q, m).value <= Asking(p, q, n).value
  {
    if m < n {
      AskingGrows(p, q, m, n - 1);
    }
  }

  /** The loop ends exactly when it is not sent empty pages for ever. */
  lemma EndsIff<T(!new)>(p: Pager<T>, q: Asks)
    ensures Ends(p, q) <==> !StallsForEver(p, q)
  {
    if StallsForEver(p, q) {
      var from: nat :| StalledFrom(p, q, from);
      forall n: nat
        ensures Asking(p, q, n).Some?
      {
        assert Stalled(p, q, n + from);
        AskingGrows(p, q, n, n + from);
      }
    } else {
      GetsOn(p, q, 0);
    }
  }

  lemma {:induction false} GetsOn<T(!new)>(p: Pager<T>, q: Asks, n: nat)
    requires !StallsForEver(p, q)
    ensures Ends(p, q)
    decreases if Asking(p, q, n).Some? then q.stop - Asking(p, q, n).value else 0
  {
    assert !StalledFrom(p, q, n);
    var round: nat :| round >= n && !Stalled(p, q, round);
    AskingGrows(p, q, n, round);
    if Asking(p, q, round).Some? && Asking(p, q, round + 1).Some? {
      GetsOn(p, q, round + 1);
    }
  }

  /** However it is asked, the server does not send empty pages for ever. */
  ghost predicate Patient<T(!new)>(p: Pager<T>)
  {
    forall q: Asks :: Ends(p, q)
  }

  /** A server that from some round on sends no empty page with a cookie is one such. */
  lemma LateIsPatient<T(!new)>(p: Pager<T>, late: nat)
    requires forall round: nat, pos: nat, want: Want :: round >= late ==> !PromisesEmpty(p(round, pos, want))
    ensures Patient(p)
  {
    forall q: Asks
      ensures Ends(p, q)
    {
      EndsIff(p, q);
      if StallsForEver(p, q) {
        PromisesLate(p, q, late);
      }
    }
  }

  lemma PromisesLate<T(!new)>(p: Pager<T>, q: Asks, late: nat)
    requires StallsForEver(p, q)
    ensures exists round: nat, pos: nat, want: Want :: round >= late && PromisesEmpty(p(round, pos, want))
  {
    var from: nat :| StalledFrom(p, q, from);
    assert Stalled(p, q, from + late);
    assert PromisesEmpty(AnswerIn(p, q, from + late));
  }

  lemma AsksOn<T(!new)>(p: Pager<T>, q: Asks, round: nat, count: nat, a: Answer<T>)
    requires Asking(p, q, round) == Some(count) && a == p(round, count, WantOf(q, count)) && GoesOn(a, count, q)
    ensures Asking(p, q, round + 1) == Some(count + |a.entries|)
  {
  }

  /** The loop's last round: it asked, and did not go on. */
  ghost predicate IsLast<T(!new)>(p: Pager<T>, q: Asks, n: nat)
  {
    Asking(p, q, n).Some? && Asking(p, q, n + 1).None?
  }

  lemma EndsAfter<T(!new)>(p: Pager<T>, q: Asks, n: nat, round: nat)
    requires Asking(p, q, n).None? && Asking(p, q, round).Some?
    ensures round < n
  {
    if n <= round {
      AskingGrows(p, q, n, round);
    }
  }

  // ----- counting

  datatype Count = Count(count: nat, truncated: bool)

  function CountPlan(limit: nat): Asks
    requires limit >= 1
  {
    Plan(limit, limit, limit)
  }

  /** Counts a search up to `limit`. */
  method CountSubtree<T(!new)>(p: Pager<T>, limit: nat, ghost all: seq<T>) returns (r: Option<Count>)
    requires limit >= 1 && Pages(p, all) && Ends(p, CountPlan(limit))
    ensures r.Some? ==> r.value.count <= limit && r.value.count <= |all|
    ensures r.Some? && !r.value.truncated ==> r.value.count == |all| < limit
    ensures r.None? ==> exists round: nat, pos: nat, want: Want :: !p(round, pos, want).Page?
    ensures r.Some? && NeverCuts(p) ==>
      r.value == if |all| < limit then Count(|all|, false) else Count(limit, true)
  {
    ghost var q := CountPlan(limit);
    ghost var n: nat :| Asking(p, q, n).None?;
    var count: nat, cookie: nat, round: nat := 0, 0, 0;
    EndsAfter(p, q, n, round);
    while true
      invariant count == cookie <= |all| && count < limit
      invariant Asking(p, q, round) == Some(count) && round < n
      decreases n - round
    {
      var a := p(round, cookie, limit - count);
      if !a.Page? {
        return None;
      }
      assert PageOf(all, cookie, a);
      count := count + |a.entries|;
      if count >= limit {
        return Some(Count(limit, true));
      }
      if a.cookie.None? {
        return Some(Count(count, a.truncated));
      }
      cookie, round := a.cookie.value, round + 1;
      EndsAfter(p, q, n, round);
    }
  }

  /** Against a server that answers every request with an empty page and a cookie no such loop ends. */
  lemma EmptyPagesNeverEnd<T(!new)>(p: Pager<T>, q: Asks)
    requires forall round: nat, pos: nat, want: Want :: p(round, pos, want) == Page([], [], Some(pos), true)
    ensures !Ends(p, q)
  {
    forall n: nat
      ensures Stalled(p, q, n)
    {
      StillAsking(p, q, n);
    }
    assert StalledFrom(p, q, 0);
    EndsIff(p, q);
  }

  lemma {:induction false} StillAsking<T(!new)>(p: Pager<T>, q: Asks, n: nat)
    requires forall round: nat, pos: nat, want: Want :: p(round, pos, want) == Page([], [], Some(pos), true)
    ensures Asking(p, q, n) == Some(0)
  {
    if n > 0 {
      StillAsking(p, q, n - 1);
    }
  }
}
