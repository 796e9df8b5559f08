/**
 What values an attribute holds and how many entries hold each, counted page by page
 without keeping the entries.
 */
module Tally {
  import opened Basics
  import opened Options
  import opened Text
  import opened Paging

  const MAX_VALUES := 200
  const MAX_PAGE := 1000
  const MAX_ROUNDS := 10000

  type Value = string

  /** An entry: its attribute descriptions in the server's order, and the values of each. */
  datatype Entry = Entry(order: seq<string>, attributes: map<string, seq<Value>>)

  /** An attribute description without its options. */
  function BaseName(description: string): string
  {
    if description == [] || description[0] == ';' then []
    else [description[0]] + BaseName(description[1..])
  }

  function FoldName(description: string): string
  {
    Lower(BaseName(description))
  }

  /** The description is this name, with options after a semicolon or without any. */
  predicate Describes(description: string, base: string, options: string)
  {
    description == base + options && ';' !in base && (options == [] || options[0] == ';')
  }

  lemma {:induction false} BaseNameIs(description: string, base: string, options: string)
    requires Describes(description, base, options)
    ensures BaseName(description) == base
  {
    if base == [] {
      assert description == options;
    } else {
      assert description[1..] == base[1..] + options && description[0] == base[0];
      BaseNameIs(description[1..], base[1..], options);
    }
  }

  lemma {:induction false} BaseNameSplits(description: string) returns (options: string)
    ensures Describes(description, BaseName(description), options)
  {
    if description == [] || description[0] == ';' {
      options := description;
      assert description == [] + options;
    } else {
      options := BaseNameSplits(description[1..]);
      assert description == [description[0]] + description[1..];
    }
  }

  /** `alderTeam` and `alderTeam;lang-fr` are one attribute, and so are two spellings in case of one name. */
  lemma OptionsDoNotCount(base: string, options: string, other: string, more: string)
    requires Describes(base + options, base, options) && Describes(other + more, other, more)
    ensures FoldName(base + options) == FoldName(other + more) <==> Lower(base) == Lower(other)
  {
    BaseNameIs(base + options, base, options);
    BaseNameIs(other + more, other, more);
  }

  // ----- the plain answer

  /** The values an entry holds of the attribute, under any options. */
  function Held(e: Entry, want: string): set<Value>
  {
    set name, v | name in e.order && FoldName(name) == want && name in e.attributes && v in e.attributes[name] :: v
  }

  /** How many of the entries hold the value. */
  function Count(entries: seq<Entry>, want: string, v: Value): nat
  {
    if entries == [] then 0
    else Count(entries[..|entries| - 1], want, v) + if v in Held(entries[|entries| - 1], want) then 1 else 0
  }

  function CountWith(entries: seq<Entry>, want: string): (n: nat)
    ensures n <= |entries|
  {
    if entries == [] then 0
    else CountWith(entries[..|entries| - 1], want) + if Held(entries[|entries| - 1], want) != {} then 1 else 0
  }

  /** How many pairs there are of an entry and a value it holds. */
  function Holdings(entries: seq<Entry>, want: string): nat
  {
    if entries == [] then 0
    else Holdings(entries[..|entries| - 1], want) + |Held(entries[|entries| - 1], want)|
  }

  /** Commonest first, then by value. */
  predicate Ranked(count: Value -> nat, a: Value, b: Value)
  {
    count(a) > count(b) || (count(a) == count(b) && Before(a, b))
  }

  ghost predicate IsSorted(count: Value -> nat, s: seq<Value>)
  {
    forall i: nat, j: nat :: i < j < |s| ==> Ranked(count, s[i], s[j])
  }

  lemma RankedIsStrict(count: Value -> nat, a: Value, b: Value)
    ensures Ranked(count, a, b) ==> !Ranked(count, b, a) && a != b
    ensures a != b ==> Ranked(count, a, b) || Ranked(count, b, a)
  {
    BeforeIsStrict(a, b);
    BeforeIsStrict(b, a);
  }

  lemma RankedTrans(count: Value -> nat, a: Value, b: Value, c: Value)
    requires Ranked(count, a, b) && Ranked(count, b, c)
    ensures Ranked(count, a, c)
  {
    if count(a) == count(c) {
      BeforeTrans(a, b, c);
    }
  }

  /** Sorting leaves one order only. */
  lemma {:induction false} SortedIsUnique(count: Value -> nat, a: seq<Value>, b: seq<Value>)
    requires IsSorted(count, a) && IsSorted(count, b)
    requires forall v :: v in a <==> v in b
    ensures a == b
  {
    assert forall i: nat :: i < |a| ==> a[i] in b;
    assert forall i: nat :: i < |b| ==> b[i] in a;
    if a != [] && b != [] {
      if a[0] != b[0] {
        var i: nat :| i < |b| && b[i] == a[0];
        var j: nat :| j < |a| && a[j] == b[0];
        RankedIsStrict(count, a[0], b[0]);
        assert false;
      }
      TailMembers(count, a);
      TailMembers(count, b);
      SortedIsUnique(count, a[1..], b[1..]);
    }
  }

  lemma TailMembers(count: Value -> nat, a: seq<Value>)
    requires IsSorted(count, a) && a != []
    ensures IsSorted(count, a[1..])
    ensures forall v :: v in a[1..] <==> v in a && v != a[0]
  {
    forall v | v in a[1..]
      ensures v != a[0]
    {
      RankedIsStrict(count, a[0], v);
    }
    assert a == [a[0]] + a[1..];
  }

  /** Sorts distinct values, one at a time into its place. */
  method Sort(count: Value -> nat, keys: seq<Value>) returns (sorted: seq<Value>)
    requires NoDuplicates(keys)
    ensures IsSorted(count, sorted)
    ensures forall v :: v in sorted <==> v in keys
    ensures |sorted| == |keys|
  {
    sorted := [];
    for i := 0 to |keys|
      invariant IsSorted(count, sorted) && |sorted| == i
      invariant forall v :: v in sorted <==> v in keys[..i]
    {
      var k := keys[i];
      assert keys[..i + 1] == keys[..i] + [k];
      assert k !in keys[..i];
      var at := 0;
      while at < |sorted| && Ranked(count, sorted[at], k)
        invariant at <= |sorted|
        invariant forall j: nat :: j < at ==> Ranked(count, sorted[j], k)
      {
        at := at + 1;
      }
      InsertSorted(count, sorted, at, k);
      sorted := sorted[..at] + [k] + sorted[at..];
    }
    assert keys[..|keys|] == keys;
  }

  lemma InsertSorted(count: Value -> nat, s: seq<Value>, at: nat, k: Value)
    requires IsSorted(count, s) && at <= |s| && k !in s
    requires forall j: nat :: j < at ==> Ranked(count, s[j], k)
    requires at < |s| ==> !Ranked(count, s[at], k)
    ensures IsSorted(count, s[..at] + [k] + s[at..])
    ensures forall v :: v in s[..at] + [k] + s[at..] <==> v in s || v == k
  {
    var t := s[..at] + [k] + s[at..];
    forall j: nat | at <= j < |s|
      ensures Ranked(count, k, s[j])
    {
      RankedIsStrict(count, s[at], k);
      if at < j {
        RankedTrans(count, k, s[at], s[j]);
      }
    }
    forall i: nat, j: nat | i < j < |t|
      ensures Ranked(count, t[i], t[j])
    {
      var x := if i <= at then i else i - 1;
      var y := if j <= at then j else j - 1;
      assert t[i] == if i < at then s[i] else if i == at then k else s[i - 1];
      assert t[j] == if j < at then s[j] else if j == at then k else s[j - 1];
    }
    assert s == s[..at] + s[at..];
  }

  // ----- the running counts

  class Tallier {
    const want: string
    var counts: map<Value, nat>
    var order: seq<Value>
    var withValue: nat
    var withoutValue: nat
    ghost var entries: seq<Entry>

    /** The counts are those of the entries folded in so far, and nothing else. */
    ghost predicate Valid()
      reads this
    {
      && Counted(entries, want, counts)
      && NoDuplicates(order) && (forall v :: v in order <==> v in counts)
      && withValue == CountWith(entries, want) && withValue + withoutValue == |entries|
    }

    constructor (attribute: string)
      ensures Valid() && entries == [] && want == FoldName(attribute)
    {
      want := FoldName(attribute);
      counts, order, withValue, withoutValue, entries := map[], [], 0, 0, [];
    }

    function Examined(): nat
      reads this
    {
      withValue + withoutValue
    }

    /** Folds one page of entries into the running counts. */
    method Add(page: seq<Entry>)
      requires Valid()
      modifies this
      ensures Valid() && entries == old(entries) + page
    {
      for i := 0 to |page|
        invariant Valid() && entries == old(entries) + page[..i]
      {
        AddOne(page[i]);
        assert page[..i + 1] == page[..i] + [page[i]];
      }
    }

    method AddOne(e: Entry)
      requires Valid()
      modifies this
      ensures Valid() && entries == old(entries) + [e]
    {
      var seen := CountEntry(e);
      CountMore(entries, e, want, old(counts), counts);
      if |seen| > 0 {
        withValue := withValue + 1;
      } else {
        withoutValue := withoutValue + 1;
      }
      entries := entries + [e];
    }

    /** An entry counts once for each value it holds, under whichever options. */
    method CountEntry(e: Entry) returns (seen: set<Value>)
      requires NoDuplicates(order) && (forall v :: v in order <==> v in counts)
      modifies this`counts, this`order
      ensures seen == Held(e, want) && Counting(old(counts), counts, seen)
      ensures NoDuplicates(order) && (forall v :: v in order <==> v in counts)
    {
      seen := {};
      for n := 0 to |e.order|
        invariant seen == HeldIn(e, want, n)
        invariant Counting(old(counts), counts, seen)
        invariant NoDuplicates(order) && (forall v :: v in order <==> v in counts)
      {
        var name := e.order[n];
        HeldInMore(e, want, n);
        if FoldName(name) != want || name !in e.attributes {
          continue;
        }
        seen := CountValues(e.attributes[name], old(counts), seen);
      }
      HeldInAll(e, want);
    }

    /** Counts each value not seen in this entry before. */
    method CountValues(values: seq<Value>, ghost before: map<Value, nat>, seen0: set<Value>) returns (seen: set<Value>)
      requires Counting(before, counts, seen0)
      requires NoDuplicates(order) && (forall v :: v in order <==> v in counts)
      modifies this`counts, this`order
      ensures seen == seen0 + set v | v in values
      ensures Counting(before, counts, seen)
      ensures NoDuplicates(order) && (forall v :: v in order <==> v in counts)
    {
      seen := seen0;
      for k := 0 to |values|
        invariant seen == seen0 + set v | v in values[..k]
        invariant Counting(before, counts, seen)
        invariant NoDuplicates(order) && (forall v :: v in order <==> v in counts)
      {
        var key := values[k];
        assert values[..k + 1] == values[..k] + [key];
        if key in seen {
          continue;
        }
        seen := seen + {key};
        if key !in counts {
          order := order + [key];
        }
        counts := counts[key := (if key in counts then counts[key] else 0) + 1];
      }
      assert values[..|values|] == values;
    }

    /** Renders the counts: at most `maxValues` rows, and the rest as a remainder. */
    method Result(maxValues: int) returns (r: Summary)
      requires Valid()
      ensures IsSummary(entries, want, Bound(maxValues), r)
    {
      var max := Bound(maxValues);
      var singletons := CountSingletons(counts);
      var theCounts := counts;
      var count := (v: Value) => if v in theCounts then theCounts[v] else 0;
      var sorted := Sort(count, order);
      var rows, otherValues, otherEntries := Render(count, sorted, max);
      r := Summary(rows, withValue, withoutValue, |counts|, singletons, otherValues, otherEntries);
      SummaryAgrees(entries, want, counts, count, sorted, order, max, r);
    }
  }

  datatype Summary = Summary(
    rows: seq<(Value, nat)>, withValue: nat, withoutValue: nat,
    distinct: nat, singletons: nat, otherValues: nat, otherEntries: nat)

  function Bound(maxValues: int): (max: nat)
    ensures 1 <= max <= MAX_VALUES
  {
    if maxValues <= 0 || maxValues > MAX_VALUES then MAX_VALUES else maxValues
  }

  function Rows(count: Value -> nat, listed: seq<Value>): seq<(Value, nat)>
  {
    seq(|listed|, i requires 0 <= i < |listed| => (listed[i], count(listed[i])))
  }

  function Sum(count: Value -> nat, values: seq<Value>): nat
  {
    if values == [] then 0 else Sum(count, values[..|values| - 1]) + count(values[|values| - 1])
  }

  /** The first `max` rows, and what the values after them come to. */
  method Render(count: Value -> nat, sorted: seq<Value>, max: nat)
    returns (rows: seq<(Value, nat)>, otherValues: nat, otherEntries: nat)
    ensures rows == Rows(count, sorted[..Min(max, |sorted|)])
    ensures otherValues == |sorted| - Min(max, |sorted|)
    ensures otherEntries == Sum(count, sorted[Min(max, |sorted|)..])
  {
    rows, otherValues, otherEntries := [], 0, 0;
    for i := 0 to |sorted|
      invariant rows == Rows(count, sorted[..Min(max, i)])
      invariant otherValues == i - Min(max, i)
      invariant otherEntries == Sum(count, sorted[Min(max, i)..i])
    {
      if i >= max {
        otherValues := otherValues + 1;
        otherEntries := otherEntries + count(sorted[i]);
        SumLast(count, sorted, max, i);
      } else {
        rows := rows + [(sorted[i], count(sorted[i]))];
      }
    }
    assert sorted[Min(max, |sorted|)..|sorted|] == sorted[Min(max, |sorted|)..];
  }

  lemma SumLast(count: Value -> nat, s: seq<Value>, from: nat, to: nat)
    requires from <= to < |s|
    ensures Sum(count, s[from..to + 1]) == Sum(count, s[from..to]) + count(s[to])
  {
    var part := s[from..to + 1];
    assert part[..|part| - 1] == s[from..to];
  }

  method CountSingletons(counts: map<Value, nat>) returns (n: nat)
    ensures n == |Singles(counts, counts.Keys)|
  {
    n := 0;
    var rest := counts.Keys;
    assert Singles(counts, {}) == {};
    while rest != {}
      invariant rest <= counts.Keys
      invariant n == |Singles(counts, counts.Keys - rest)|
      decreases rest
    {
      var v :| v in rest;
      SinglesMore(counts, counts.Keys - rest, v);
      assert counts.Keys - (rest - {v}) == (counts.Keys - rest) + {v};
      if counts[v] == 1 {
        n := n + 1;
      }
      rest := rest - {v};
    }
    assert counts.Keys - rest == counts.Keys;
  }

  lemma SinglesMore(counts: map<Value, nat>, some: set<Value>, v: Value)
    requires some <= counts.Keys && v in counts && v !in some
    ensures |Singles(counts, some + {v})| == |Singles(counts, some)| + if counts[v] == 1 then 1 else 0
  {
    assert Singles(counts, some + {v}) == Singles(counts, some) + if counts[v] == 1 then {v} else {};
  }

  ghost function Singles(counts: map<Value, nat>, some: set<Value>): set<Value>
    requires some <= counts.Keys
  {
    set v | v in some && counts[v] == 1
  }

  ghost predicate Counted(entries: seq<Entry>, want: string, counts: map<Value, nat>)
  {
    forall v :: (v in counts <==> Count(entries, want, v) > 0) && (v in counts ==> counts[v] == Count(entries, want, v))
  }

  /** One more for each value seen, against the counts before the entry. */
  ghost predicate Counting(before: map<Value, nat>, counts: map<Value, nat>, seen: set<Value>)
  {
    && (forall v :: v in counts <==> v in before || v in seen)
    && (forall v :: v in counts ==> counts[v] == (if v in before then before[v] else 0) + if v in seen then 1 else 0)
  }

  /** The values held under the first `n` attribute descriptions. */
  ghost function HeldIn(e: Entry, want: string, n: nat): set<Value>
    requires n <= |e.order|
  {
    set i: nat, v | i < n && FoldName(e.order[i]) == want && e.order[i] in e.attributes &&
      v in e.attributes[e.order[i]] :: v
  }

  lemma HeldInMore(e: Entry, want: string, n: nat)
    requires n < |e.order|
    ensures var name := e.order[n];
      HeldIn(e, want, n + 1) == HeldIn(e, want, n) +
        if FoldName(name) == want && name in e.attributes then set v | v in e.attributes[name] else {}
  {
  }

  lemma HeldInAll(e: Entry, want: string)
    ensures HeldIn(e, want, |e.order|) == Held(e, want)
  {
    forall v | v in Held(e, want)
      ensures v in HeldIn(e, want, |e.order|)
    {
      var name :| name in e.order && FoldName(name) == want && name in e.attributes && v in e.attributes[name];
      var i: nat :| i < |e.order| && e.order[i] == name;
    }
  }

  lemma CountMore(entries: seq<Entry>, e: Entry, want: string, before: map<Value, nat>, counts: map<Value, nat>)
    requires Counted(entries, want, before) && Counting(before, counts, Held(e, want))
    ensures Counted(entries + [e], want, counts)
    ensures CountWith(entries + [e], want) == CountWith(entries, want) + if Held(e, want) != {} then 1 else 0
  {
    assert (entries + [e])[..|entries|] == entries;
  }

  // ----- what the answer is, said of the entries alone

  ghost function CountOf(entries: seq<Entry>, want: string): Value -> nat
  {
    v => Count(entries, want, v)
  }

  /** Every value some entry holds, once, commonest first. */
  ghost predicate IsListing(entries: seq<Entry>, want: string, listing: seq<Value>)
  {
    && IsSorted(CountOf(entries, want), listing)
    && forall v :: v in listing <==> Count(entries, want, v) > 0
  }

  ghost function SummaryOf(entries: seq<Entry>, want: string, max: nat, listing: seq<Value>): Summary
  {
    var n := Min(max, |listing|);
    var count := CountOf(entries, want);
    Summary(Rows(count, listing[..n]), CountWith(entries, want),
            |entries| - CountWith(entries, want),
            |listing|, |set v | v in listing && count(v) == 1|,
            |listing| - n, Sum(count, listing[n..]))
  }

  ghost predicate IsSummary(entries: seq<Entry>, want: string, max: nat, r: Summary)
  {
    exists listing :: IsListing(entries, want, listing) && r == SummaryOf(entries, want, max, listing)
  }

  lemma {:induction false} SumSame(c: Value -> nat, d: Value -> nat, s: seq<Value>)
    requires forall v :: c(v) == d(v)
    ensures Sum(c, s) == Sum(d, s)
  {
    if s != [] {
      SumSame(c, d, s[..|s| - 1]);
    }
  }

  lemma {:induction false} DistinctCount(s: seq<Value>, keys: set<Value>)
    requires NoDuplicates(s) && forall v :: v in s <==> v in keys
    ensures |s| == |keys|
  {
    if s != [] {
      var v := s[|s| - 1];
      var front := s[..|s| - 1];
      assert s == front + [v] && v !in front;
      DistinctCount(front, keys - {v});
    }
  }

  /** The summary of the running counts is the plain answer about the entries folded in. */
  lemma SummaryAgrees(entries: seq<Entry>, want: string, counts: map<Value, nat>, count: Value -> nat,
                      sorted: seq<Value>, order: seq<Value>, max: nat, r: Summary)
    requires Counted(entries, want, counts)
    requires forall v :: count(v) == if v in counts then counts[v] else 0
    requires NoDuplicates(order) && (forall v :: v in order <==> v in counts)
    requires IsSorted(count, sorted) && (forall v :: v in sorted <==> v in order) && |sorted| == |order|
    requires var n := Min(max, |sorted|);
      r == Summary(Rows(count, sorted[..n]), CountWith(entries, want), |entries| - CountWith(entries, want),
                   |counts|, |Singles(counts, counts.Keys)|, |sorted| - n, Sum(count, sorted[n..]))
    ensures IsSummary(entries, want, max, r)
  {
    var plain := CountOf(entries, want);
    assert forall v :: count(v) == plain(v);
    assert IsSorted(plain, sorted);
    DistinctCount(order, counts.Keys);
    var n := Min(max, |sorted|);
    SumSame(count, plain, sorted[n..]);
    assert Rows(count, sorted[..n]) == Rows(plain, sorted[..n]);
    assert (set v | v in sorted && plain(v) == 1) == Singles(counts, counts.Keys);
    assert r == SummaryOf(entries, want, max, sorted);
  }

  // ----- what follows for every answer

  lemma {:induction false} CountJoin(a: seq<Entry>, b: seq<Entry>, want: string, v: Value)
    ensures Count(a + b, want, v) == Count(a, want, v) + Count(b, want, v)
    ensures CountWith(a + b, want) == CountWith(a, want) + CountWith(b, want)
  {
    if b == [] {
      assert a + b == a;
    } else {
      CountJoin(a, b[..|b| - 1], want, v);
      assert (a + b)[..|a + b| - 1] == a + b[..|b| - 1];
    }
  }

  lemma RestAnyOrder(a: seq<Entry>, b: seq<Entry>, front: seq<Entry>, pre: seq<Entry>, post: seq<Entry>, e: Entry)
    requires multiset(a) == multiset(b) && a == front + [e] && b == pre + ([e] + post)
    ensures multiset(front) == multiset(pre + post)
  {
    assert multiset(front) == multiset(a) - multiset{e};
    assert multiset(b) == multiset(pre) + multiset{e} + multiset(post);
    assert multiset(pre + post) == multiset(b) - multiset{e};
  }

  /** The counts do not depend on the order the entries arrive in. */
  lemma {:induction false} CountAnyOrder(a: seq<Entry>, b: seq<Entry>, want: string, v: Value)
    requires multiset(a) == multiset(b)
    ensures Count(a, want, v) == Count(b, want, v)
    ensures CountWith(a, want) == CountWith(b, want) && |a| == |b|
    decreases |a|
  {
    if a == [] {
      assert |multiset(b)| == 0;
    } else {
      var front, e := a[..|a| - 1], a[|a| - 1];
      assert a == front + [e];
      assert e in multiset(b);
      var i: nat :| i < |b| && b[i] == e;
      var pre, post := b[..i], b[i + 1..];
      assert b == pre + ([e] + post);
      RestAnyOrder(a, b, front, pre, post, e);
      CountAnyOrder(front, pre + post, want, v);
      CountJoin(front, [e], want, v);
      CountJoin(pre, [e] + post, want, v);
      CountJoin([e], post, want, v);
      CountJoin(pre, post, want, v);
    }
  }

  lemma CountsAnyOrder(a: seq<Entry>, b: seq<Entry>, want: string)
    requires multiset(a) == multiset(b)
    ensures forall v :: CountOf(a, want)(v) == CountOf(b, want)(v)
    ensures CountWith(a, want) == CountWith(b, want) && |a| == |b|
  {
    forall v
      ensures CountOf(a, want)(v) == CountOf(b, want)(v)
    {
      CountAnyOrder(a, b, want, v);
    }
    CountAnyOrder(a, b, want, "");
  }

  lemma SummaryOfSame(a: seq<Entry>, b: seq<Entry>, want: string, max: nat, listing: seq<Value>)
    requires forall v :: CountOf(a, want)(v) == CountOf(b, want)(v)
    requires CountWith(a, want) == CountWith(b, want) && |a| == |b|
    ensures SummaryOf(a, want, max, listing) == SummaryOf(b, want, max, listing)
  {
    var n := Min(max, |listing|);
    SumSame(CountOf(a, want), CountOf(b, want), listing[n..]);
    assert Rows(CountOf(a, want), listing[..n]) == Rows(CountOf(b, want), listing[..n]);
    assert (set v | v in listing && CountOf(a, want)(v) == 1) == (set v | v in listing && CountOf(b, want)(v) == 1);
  }

  /** However the entries arrive and are paged, the answer is the same. */
  lemma SummaryAnyOrder(a: seq<Entry>, b: seq<Entry>, want: string, max: nat, r: Summary, q: Summary)
    requires multiset(a) == multiset(b)
    requires IsSummary(a, want, max, r) && IsSummary(b, want, max, q)
    ensures r == q
  {
    var la :| IsListing(a, want, la) && r == SummaryOf(a, want, max, la);
    var lb :| IsListing(b, want, lb) && q == SummaryOf(b, want, max, lb);
    CountsAnyOrder(a, b, want);
    assert IsSorted(CountOf(a, want), lb);
    assert forall v :: v in lb <==> CountOf(b, want)(v) > 0;
    SortedIsUnique(CountOf(a, want), la, lb);
    SummaryOfSame(a, b, want, max, la);
  }

  /** An attribute of the entry with this name, in any case and under any options, holds the value. */
  ghost predicate HoldsUnder(e: Entry, attribute: string, v: Value)
  {
    exists name, base, options ::
      name in e.order && Describes(name, base, options) && Lower(base) == Lower(attribute)
      && name in e.attributes && v in e.attributes[name]
  }

  /** Which values an entry is counted for. */
  lemma HeldIs(e: Entry, attribute: string, options: string, v: Value)
    requires Describes(attribute + options, attribute, options)
    ensures v in Held(e, FoldName(attribute + options)) <==> HoldsUnder(e, attribute, v)
  {
    BaseNameIs(attribute + options, attribute, options);
    var want := Lower(attribute);
    if v in Held(e, want) {
      var name :| name in e.order && FoldName(name) == want && name in e.attributes && v in e.attributes[name];
      var more := BaseNameSplits(name);
      assert Describes(name, BaseName(name), more);
    }
    if HoldsUnder(e, attribute, v) {
      var name, base, more :| name in e.order && Describes(name, base, more) && Lower(base) == Lower(attribute)
        && name in e.attributes && v in e.attributes[name];
      BaseNameIs(name, base, more);
    }
  }

  /** As many rows as were asked for, at most two hundred, or as there are values. */
  lemma RowsAreBounded(entries: seq<Entry>, want: string, maxValues: int, r: Summary)
    requires IsSummary(entries, want, Bound(maxValues), r)
    ensures |r.rows| == Min(r.distinct, if 1 <= maxValues <= 200 then maxValues else 200)
  {
  }

  // ----- what the counts are of

  /** All the values that some entry holds. */
  function AllHeld(entries: seq<Entry>, want: string): set<Value>
  {
    set i: nat, v | i < |entries| && v in Held(entries[i], want) :: v
  }

  /** Which of the entries hold the value. */
  function Holders(entries: seq<Entry>, want: string, v: Value): set<nat>
  {
    Places(entries, (e: Entry) => v in Held(e, want))
  }

  function HoldersOfAny(entries: seq<Entry>, want: string): set<nat>
  {
    Places(entries, (e: Entry) => Held(e, want) != {})
  }

  lemma {:induction false} CountIsHolders(entries: seq<Entry>, want: string, v: Value)
    ensures Count(entries, want, v) == |Holders(entries, want, v)|
  {
    if entries != [] {
      CountIsHolders(entries[..|entries| - 1], want, v);
      PlacesMore(entries, (e: Entry) => v in Held(e, want));
    }
  }

  lemma {:induction false} CountWithIsHolders(entries: seq<Entry>, want: string)
    ensures CountWith(entries, want) == |HoldersOfAny(entries, want)|
  {
    if entries != [] {
      CountWithIsHolders(entries[..|entries| - 1], want);
      PlacesMore(entries, (e: Entry) => Held(e, want) != {});
    }
  }

  /**
   What the figures of an answer are: how many entries hold some value, how many values are
   held, and how many of these by one entry only.
   */
  lemma SummaryCounts(entries: seq<Entry>, want: string, max: nat, r: Summary)
    requires IsSummary(entries, want, max, r)
    ensures r.withValue == |HoldersOfAny(entries, want)|
    ensures r.distinct == |AllHeld(entries, want)|
    ensures r.singletons == |set v | v in AllHeld(entries, want) && |Holders(entries, want, v)| == 1|
  {
    var listing :| IsListing(entries, want, listing) && r == SummaryOf(entries, want, max, listing);
    CountWithIsHolders(entries, want);
    SortedIsDistinct(CountOf(entries, want), listing);
    forall v
      ensures v in listing <==> v in AllHeld(entries, want)
      ensures Count(entries, want, v) == |Holders(entries, want, v)|
    {
      CountIsHolders(entries, want, v);
      HeldBySome(entries, want, v);
    }
    DistinctCount(listing, AllHeld(entries, want));
    assert (set v | v in listing && CountOf(entries, want)(v) == 1) ==
      set v | v in AllHeld(entries, want) && |Holders(entries, want, v)| == 1;
  }

  lemma HeldBySome(entries: seq<Entry>, want: string, v: Value)
    ensures |Holders(entries, want, v)| > 0 <==> v in AllHeld(entries, want)
  {
    if v in AllHeld(entries, want) {
      var i: nat :| i < |entries| && v in Held(entries[i], want);
      assert i in Holders(entries, want, v);
    }
    if Holders(entries, want, v) != {} {
      var i :| i in Holders(entries, want, v);
    }
  }

  /** The rows are in order: the value held by more entries first, and of two held by as many the one first in bytes. */
  lemma RowsInOrder(entries: seq<Entry>, want: string, max: nat, r: Summary, i: nat, j: nat)
    requires IsSummary(entries, want, max, r) && i < j < |r.rows|
    ensures r.rows[i].1 > r.rows[j].1 ||
      (r.rows[i].1 == r.rows[j].1 && exists k: nat :: DifferAt(r.rows[i].0, r.rows[j].0, k))
  {
    var listing :| IsListing(entries, want, listing) && r == SummaryOf(entries, want, max, listing);
    assert Ranked(CountOf(entries, want), listing[i], listing[j]);
    BeforeIs(listing[i], listing[j]);
  }

  function SumRows(rows: seq<(Value, nat)>): nat
  {
    if rows == [] then 0 else SumRows(rows[..|rows| - 1]) + rows[|rows| - 1].1
  }

  lemma {:induction false} SumOfRows(count: Value -> nat, listed: seq<Value>)
    ensures SumRows(Rows(count, listed)) == Sum(count, listed)
  {
    if listed != [] {
      SumOfRows(count, listed[..|listed| - 1]);
      assert Rows(count, listed)[..|listed| - 1] == Rows(count, listed[..|listed| - 1]);
    }
  }

  lemma {:induction false} SumJoin(count: Value -> nat, a: seq<Value>, b: seq<Value>)
    ensures Sum(count, a + b) == Sum(count, a) + Sum(count, b)
  {
    if b == [] {
      assert a + b == a;
    } else {
      SumJoin(count, a, b[..|b| - 1]);
      assert (a + b)[..|a + b| - 1] == a + b[..|b| - 1];
    }
  }

  /** Adding up the counts of all values counts each pair of an entry and a value once. */
  lemma {:induction false} CountsAddUp(entries: seq<Entry>, want: string, listing: seq<Value>)
    requires NoDuplicates(listing) && forall v :: Count(entries, want, v) > 0 ==> v in listing
    ensures Sum(CountOf(entries, want), listing) == Holdings(entries, want)
  {
    if entries == [] {
      SumZero(CountOf(entries, want), listing);
    } else {
      var front, e := entries[..|entries| - 1], entries[|entries| - 1];
      CountsAddUp(front, want, listing);
      var one := v => if v in Held(e, want) then 1 else 0;
      SumPlus(CountOf(front, want), one, CountOf(entries, want), listing);
      SumOnes(one, Held(e, want), listing);
    }
  }

  lemma {:induction false} SumZero(count: Value -> nat, listing: seq<Value>)
    requires forall v :: count(v) == 0
    ensures Sum(count, listing) == 0
  {
    if listing != [] {
      SumZero(count, listing[..|listing| - 1]);
    }
  }

  lemma {:induction false} SumPlus(a: Value -> nat, b: Value -> nat, c: Value -> nat, s: seq<Value>)
    requires forall v :: c(v) == a(v) + b(v)
    ensures Sum(c, s) == Sum(a, s) + Sum(b, s)
  {
    if s != [] {
      SumPlus(a, b, c, s[..|s| - 1]);
    }
  }

  lemma {:induction false} SumOnes(one: Value -> nat, held: set<Value>, s: seq<Value>)
    requires forall v :: one(v) == if v in held then 1 else 0
    requires NoDuplicates(s) && forall v :: v in held ==> v in s
    ensures Sum(one, s) == |held|
    decreases |s|
  {
    if s == [] {
      assert held == {};
    } else {
      var front, last := s[..|s| - 1], s[|s| - 1];
      assert s == front + [last] && last !in front;
      var rest := v => if v in held - {last} then 1 else 0;
      SumOnes(rest, held - {last}, front);
      SumAgrees(one, rest, front);
    }
  }

  lemma {:induction false} SumAgrees(c: Value -> nat, d: Value -> nat, s: seq<Value>)
    requires forall v :: v in s ==> c(v) == d(v)
    ensures Sum(c, s) == Sum(d, s)
  {
    if s != [] {
      SumAgrees(c, d, s[..|s| - 1]);
    }
  }

  lemma SortedIsDistinct(count: Value -> nat, s: seq<Value>)
    requires IsSorted(count, s)
    ensures NoDuplicates(s)
  {
    forall i: nat, j: nat | i < j < |s|
      ensures s[i] != s[j]
    {
      RankedIsStrict(count, s[i], s[j]);
    }
  }

  /** Nothing is dropped from the answer: what is not listed is in the remainder, to the entry. */
  lemma SummaryIsComplete(entries: seq<Entry>, want: string, max: nat, r: Summary)
    requires IsSummary(entries, want, max, r)
    ensures |r.rows| + r.otherValues == r.distinct && |r.rows| <= max
    ensures r.withValue + r.withoutValue == |entries|
    ensures SumRows(r.rows) + r.otherEntries == Holdings(entries, want)
  {
    var listing :| IsListing(entries, want, listing) && r == SummaryOf(entries, want, max, listing);
    var count, n := CountOf(entries, want), Min(max, |listing|);
    SortedIsDistinct(count, listing);
    ListingAddsUp(entries, want, listing, n);
  }

  lemma ListingAddsUp(entries: seq<Entry>, want: string, listing: seq<Value>, n: nat)
    requires NoDuplicates(listing) && n <= |listing|
    requires forall v :: Count(entries, want, v) > 0 ==> v in listing
    ensures var count := CountOf(entries, want);
      SumRows(Rows(count, listing[..n])) + Sum(count, listing[n..]) == Holdings(entries, want)
  {
    SumOfRows(CountOf(entries, want), listing[..n]);
    SumJoin(CountOf(entries, want), listing[..n], listing[n..]);
    assert listing == listing[..n] + listing[n..];
    CountsAddUp(entries, want, listing);
  }

  /** Each row counts the entries holding its value, and no value left out is commoner than one listed. */
  lemma SummaryListsCommonest(entries: seq<Entry>, want: string, max: nat, r: Summary, k: nat, v: Value)
    requires IsSummary(entries, want, max, r) && k < |r.rows|
    ensures r.rows[k].1 == Count(entries, want, r.rows[k].0) > 0
    ensures (forall i: nat :: i < |r.rows| ==> r.rows[i].0 != v) ==> Count(entries, want, v) <= r.rows[k].1
  {
    var listing :| IsListing(entries, want, listing) && r == SummaryOf(entries, want, max, listing);
    assert r.rows[k].0 == listing[k] && listing[k] in listing;
    if Count(entries, want, v) > 0 {
      var j: nat :| j < |listing| && listing[j] == v;
      if j < |r.rows| {
        assert r.rows[j].0 == v;
      } else {
        assert Ranked(CountOf(entries, want), listing[k], listing[j]);
      }
    }
  }

  /** The same fold in one call. */
  method TallyAll(entries: seq<Entry>, attribute: string, maxValues: int) returns (r: Summary)
    ensures IsSummary(entries, FoldName(attribute), Bound(maxValues), r)
  {
    var t := new Tallier(attribute);
    t.Add(entries);
    assert [] + entries == entries;
    r := t.Result(maxValues);
  }

  // ----- the paging loop

  /** Where the loop stops: how far it read, whether it says so, and whether the last page was cut short. */
  datatype Stop = Stopped(upTo: nat, truncated: bool, cut: bool) | Errored

  ghost function Collect(p: Pager<Entry>, limit: nat, round: nat, pos: nat): Stop
    requires limit >= 1
    decreases MAX_ROUNDS - round
  {
    if pos >= limit || round >= MAX_ROUNDS then Stopped(pos, round > 0, false)
    else
      var a := p(round, pos, Min(limit - pos, MAX_PAGE));
      if !a.Page? then Errored
      else if a.cookie.None? then Stopped(pos + |a.entries|, false, a.truncated)
      else if a.entries == [] then Stopped(pos, true, false)
      else Collect(p, limit, round + 1, pos + |a.entries|)
  }

  /** Tallies a bounded search as its pages arrive. */
  method Inventory(p: Pager<Entry>, attribute: string, limit: nat, maxValues: int,
                   ghost all: seq<Entry>)
    returns (r: Option<Summary>, examined: nat, truncated: bool)
    requires Pages(p, all) && limit >= 1
    ensures r.None? <==> Collect(p, limit, 0, 0).Errored?
    ensures r.Some? ==> var stop := Collect(p, limit, 0, 0);
      && examined == stop.upTo <= |all| && truncated == stop.truncated
      && IsSummary(all[..examined], FoldName(attribute), Bound(maxValues), r.value)
  {
    var t := new Tallier(attribute);
    var failed;
    truncated, failed := Fold(t, p, limit, all);
    examined := t.Examined();
    if failed {
      return None, examined, truncated;
    }
    var s := t.Result(maxValues);
    r := Some(s);
  }

  /** What was folded in is the first part of the search. */
  ghost predicate FoldedIn(t: Tallier, all: seq<Entry>)
    reads t
  {
    t.Valid() && t.Examined() <= |all| && t.entries == all[..t.Examined()]
  }

  /** Asks for one page and folds it in; the cookie in hand stands at what was folded in before. */
  method NextPage(t: Tallier, p: Pager<Entry>, limit: nat, round: nat, ghost all: seq<Entry>)
    returns (a: Answer<Entry>)
    requires Pages(p, all) && round < MAX_ROUNDS
    requires t.Examined() < limit && FoldedIn(t, all)
    modifies t
    ensures FoldedIn(t, all)
    ensures !a.Page? ==> Collect(p, limit, round, old(t.Examined())) == Errored
    ensures a.Page? ==> t.Examined() == old(t.Examined()) + |a.entries|
    ensures a.Page? && a.cookie.None? ==>
      Collect(p, limit, round, old(t.Examined())) == Stopped(t.Examined(), false, a.truncated)
    ensures a.Page? && a.cookie.Some? && a.entries == [] ==>
      Collect(p, limit, round, old(t.Examined())) == Stopped(t.Examined(), true, false)
    ensures a.Page? && a.cookie.Some? && a.entries != [] ==>
      Collect(p, limit, round, old(t.Examined())) == Collect(p, limit, round + 1, t.Examined())
    ensures a.Page? && a.cookie.Some? ==> a.cookie.value == t.Examined()
  {
    ghost var pos := t.Examined();
    assert CollectStep(p, limit, round, pos) == Collect(p, limit, round, pos);
    a := p(round, t.Examined(), Min(limit - t.Examined(), MAX_PAGE));
    if a.Page? {
      assert PageOf(all, pos, a);
      t.Add(a.entries);
      assert all[..pos + |a.entries|] == all[..pos] + a.entries;
    }
  }

  method Fold(t: Tallier, p: Pager<Entry>, limit: nat, ghost all: seq<Entry>)
    returns (truncated: bool, failed: bool)
    requires Pages(p, all) && limit >= 1 && t.Valid() && t.entries == []
    modifies t
    ensures FoldedIn(t, all)
    ensures failed <==> Collect(p, limit, 0, 0).Errored?
    ensures !failed ==> t.Examined() == Collect(p, limit, 0, 0).upTo && truncated == Collect(p, limit, 0, 0).truncated
  {
    var round: nat := 0;
    truncated := false;
    ghost var final := Collect(p, limit, 0, 0);
    while t.Examined() < limit && round < MAX_ROUNDS
      invariant FoldedIn(t, all)
      invariant truncated == (round > 0)
      invariant Collect(p, limit, round, t.Examined()) == final
      decreases MAX_ROUNDS - round
    {
      var a := NextPage(t, p, limit, round, all);
      if !a.Page? {
        return false, true;
      }
      truncated := a.cookie.Some?;
      if a.cookie.None? || |a.entries| == 0 {
        return truncated, false;
      }
      round := round + 1;
    }
    failed := false;
  }

  /** One turn of the loop. */
  ghost function CollectStep(p: Pager<Entry>, limit: nat, round: nat, pos: nat): (stop: Stop)
    requires pos < limit && round < MAX_ROUNDS
    ensures stop == Collect(p, limit, round, pos)
  {
    var a := p(round, pos, Min(limit - pos, MAX_PAGE));
    if !a.Page? then Errored
    else if a.cookie.None? then Stopped(pos + |a.entries|, false, a.truncated)
    else if a.entries == [] then Stopped(pos, true, false)
    else Collect(p, limit, round + 1, pos + |a.entries|)
  }

  /**
   Why the loop ends as it does: with an error only when a page was refused; and saying that
   it was truncated only when it has as many entries as it may examine, was sent an empty
   page that promises another, or asked ten thousand times.
   */
  lemma {:induction false} CollectSays(p: Pager<Entry>, limit: nat, round: nat, pos: nat)
    requires limit >= 1 && round <= MAX_ROUNDS
    ensures Collect(p, limit, round, pos).Errored? ==> exists a :: Says(p, a) && !a.Page?
    ensures var stop := Collect(p, limit, round, pos);
      stop.Stopped? && stop.truncated ==>
        || stop.upTo >= limit || stop.upTo >= pos + 10000 - round
        || exists a :: Says(p, a) && PromisesEmpty(a)
    decreases MAX_ROUNDS - round
  {
    if pos < limit && round < MAX_ROUNDS {
      var a := p(round, pos, Min(limit - pos, MAX_PAGE));
      assert Says(p, a);
      if a.Page? && a.cookie.Some? && a.entries != [] {
        CollectSays(p, limit, round + 1, pos + |a.entries|);
      }
    }
  }

  /** The server says that it cut a search short only when it left something out. */
  ghost predicate CutsLeave(p: Pager<Entry>, all: seq<Entry>)
  {
    forall round: nat, pos: nat, want: Want :: pos <= |all| ==> !CutsNothing(all, pos, p(round, pos, want))
  }

  predicate CutsNothing(all: seq<Entry>, pos: nat, a: Answer<Entry>)
  {
    a.Page? && a.cookie.None? && a.truncated && pos + |a.entries| >= |all|
  }

  /**
   An answer that does not say it was truncated is of the whole search, unless the server
   cut it short; and where cutting short means leaving something out, exactly unless.
   */
  lemma {:induction false} WholeUnlessCut(
    p: Pager<Entry>, all: seq<Entry>, limit: nat, round: nat, pos: nat, stop: Stop)
    requires Pages(p, all) && limit >= 1 && pos <= |all|
    requires round == 0 ==> pos < limit
    requires stop == Collect(p, limit, round, pos) && stop.Stopped? && !stop.truncated
    ensures !stop.cut ==> stop.upTo == |all|
    ensures CutsLeave(p, all) ==> (stop.upTo == |all| <==> !stop.cut)
    decreases MAX_ROUNDS - round
  {
    var a := p(round, pos, Min(limit - pos, MAX_PAGE));
    CollectTurn(p, all, limit, round, pos, a, stop);
    if a.cookie.Some? {
      WholeUnlessCut(p, all, limit, round + 1, pos + |a.entries|, stop);
    } else {
      assert CutsLeave(p, all) ==> !CutsNothing(all, pos, a);
    }
  }

  /** One turn of a loop that does not end truncated. */
  lemma CollectTurn(p: Pager<Entry>, all: seq<Entry>, limit: nat, round: nat, pos: nat, a: Answer<Entry>, stop: Stop)
    requires Pages(p, all) && 1 <= limit && pos <= |all| && pos < limit && round < MAX_ROUNDS
    requires a == p(round, pos, Min(limit - pos, MAX_PAGE))
    requires stop == Collect(p, limit, round, pos) && stop.Stopped? && !stop.truncated
    ensures a.Page? && PageOf(all, pos, a)
    ensures a.cookie.Some? ==> stop == Collect(p, limit, round + 1, pos + |a.entries|)
    ensures a.cookie.None? ==> stop == Stopped(pos + |a.entries|, false, a.truncated)
  {
    assert CollectStep(p, limit, round, pos) == stop;
  }

  /** A server that pages is never cut short. */
  lemma {:induction false} PagingIsNotCut(p: Pager<Entry>, limit: nat, round: nat, pos: nat)
    requires NeverCuts(p) && limit >= 1
    ensures var stop := Collect(p, limit, round, pos); stop.Stopped? ==> !stop.cut
    decreases MAX_ROUNDS - round
  {
    if pos < limit && round < MAX_ROUNDS {
      var a := p(round, pos, Min(limit - pos, MAX_PAGE));
      if a.Page? && a.cookie.Some? && a.entries != [] {
        PagingIsNotCut(p, limit, round + 1, pos + |a.entries|);
      }
    }
  }

  /** A server that cannot page and stops at its own limit is reported as having answered whole. */
  lemma CutGoesUnsaid(e: Entry, limit: nat) returns (p: Pager<Entry>)
    requires limit >= 1
    ensures Pages(p, [e]) && CutsLeave(p, [e])
    ensures Collect(p, limit, 0, 0) == Stopped(0, false, true)
  {
    p := (round: nat, pos: nat, want: Want) => Page([], [], None, pos == 0);
  }
}
