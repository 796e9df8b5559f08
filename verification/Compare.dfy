/**
 Comparing two entries attribute by attribute: what a row says, what the bounded listing
 of its values leaves out, and what is settled by asking the server about one-sided rows.
 */
module Compare {
  import opened Basics
  import opened Options
  import opened Text
  import Tally

  type Name = string

  type Key = string

  /** An attribute description, folded, and its values. */
  datatype Attribute = Attribute(name: Name, values: seq<string>)

  /** An entry, and what its object classes require and permit. */
  datatype Entry = Entry(attributes: seq<Attribute>, must: set<Name>, may: set<Name>)

  /** What the schema says of base names, and the DNs that texts are read as. */
  datatype Schema = Schema(sensitive: set<Name>, operational: set<Name>, dnValued: set<Name>, dns: map<string, Key>)

  const MAX_VALUES := 500
  const MAX_PROBES := 50

  // ----- sorting

  /** The ranks some texts have; any other has rank 0. */
  type Ranks = map<string, nat>

  function RankOf(ranks: Ranks, s: string): nat
  {
    if s in ranks then ranks[s] else 0
  }

  predicate Less(ranks: Ranks, a: string, b: string)
  {
    RankOf(ranks, a) < RankOf(ranks, b) || (RankOf(ranks, a) == RankOf(ranks, b) && Before(a, b))
  }

  lemma LessIsStrict(ranks: Ranks, a: string, b: string)
    ensures Less(ranks, a, b) ==> !Less(ranks, b, a) && a != b
    ensures a != b ==> Less(ranks, a, b) || Less(ranks, b, a)
  {
    BeforeIsStrict(a, b);
  }

  lemma LessTrans(ranks: Ranks, a: string, b: string, c: string)
    requires !Less(ranks, b, a) && !Less(ranks, c, b)
    ensures !Less(ranks, c, a)
  {
    LessIsStrict(ranks, a, b);
    LessIsStrict(ranks, b, c);
    LessIsStrict(ranks, a, c);
    if a != b && b != c && a != c && RankOf(ranks, a) == RankOf(ranks, b) == RankOf(ranks, c) {
      BeforeTrans(a, b, c);
    }
  }

  ghost predicate IsSorted(ranks: Ranks, s: seq<string>)
  {
    forall i: nat, j: nat :: i < j < |s| ==> !Less(ranks, s[j], s[i])
  }

  function Insert(ranks: Ranks, s: seq<string>, x: string): seq<string>
  {
    if s == [] || !Less(ranks, x, s[|s| - 1]) then s + [x]
    else Insert(ranks, s[..|s| - 1], x) + [s[|s| - 1]]
  }

  lemma {:induction false} InsertKeeps(ranks: Ranks, s: seq<string>, x: string)
    requires IsSorted(ranks, s)
    ensures multiset(Insert(ranks, s, x)) == multiset(s) + multiset{x}
    ensures IsSorted(ranks, Insert(ranks, s, x))
  {
    if s == [] || !Less(ranks, x, s[|s| - 1]) {
      forall i: nat | i < |s|
        ensures !Less(ranks, x, s[i])
      {
        if i < |s| - 1 {
          LessTrans(ranks, s[i], s[|s| - 1], x);
        }
      }
    } else {
      var front, last := s[..|s| - 1], s[|s| - 1];
      assert s == front + [last];
      InsertKeeps(ranks, front, x);
      var most := Insert(ranks, front, x);
      LessIsStrict(ranks, x, last);
      forall i: nat | i < |most|
        ensures !Less(ranks, last, most[i])
      {
        assert most[i] in multiset(most);
        assert most[i] in front || most[i] == x;
      }
    }
  }

  function Sort(ranks: Ranks, s: seq<string>): seq<string>
  {
    if s == [] then [] else Insert(ranks, Sort(ranks, s[..|s| - 1]), s[|s| - 1])
  }

  lemma {:induction false} SortSorts(ranks: Ranks, s: seq<string>)
    ensures IsSorted(ranks, Sort(ranks, s))
    ensures multiset(Sort(ranks, s)) == multiset(s)
  {
    if s != [] {
      SortSorts(ranks, s[..|s| - 1]);
      InsertKeeps(ranks, Sort(ranks, s[..|s| - 1]), s[|s| - 1]);
      assert s == s[..|s| - 1] + [s[|s| - 1]];
    }
  }

  lemma FirstIsLeast(ranks: Ranks, s: seq<string>, x: string)
    requires IsSorted(ranks, s) && x in s
    ensures !Less(ranks, x, s[0])
  {
    LessIsStrict(ranks, x, x);
  }

  /** Only one order of the same texts is sorted. */
  lemma {:induction false} SortedIsUnique(ranks: Ranks, a: seq<string>, b: seq<string>)
    requires IsSorted(ranks, a) && IsSorted(ranks, b) && multiset(a) == multiset(b)
    ensures a == b
  {
    if a != [] {
      var restA, restB := a[1..], b[1..];
      assert a == [a[0]] + restA;
      assert a[0] in multiset(b);
      assert b == [b[0]] + restB;
      assert b[0] in multiset(a);
      FirstIsLeast(ranks, a, b[0]);
      FirstIsLeast(ranks, b, a[0]);
      LessIsStrict(ranks, a[0], b[0]);
      assert multiset(restA) == multiset(a) - multiset{a[0]};
      assert multiset(restB) == multiset(b) - multiset{a[0]};
      SortedIsUnique(ranks, restA, restB);
    } else {
      assert |multiset(b)| == |b|;
    }
  }

  /** Both sides hold the same keys, each as often. */
  predicate SameKeySets(a: seq<Key>, b: seq<Key>)
  {
    |a| == |b| && Sort(map[], a) == Sort(map[], b)
  }

  lemma SameKeySetsIff(a: seq<Key>, b: seq<Key>)
    ensures SameKeySets(a, b) <==> multiset(a) == multiset(b)
  {
    SortSorts(map[], a);
    SortSorts(map[], b);
    if multiset(a) == multiset(b) {
      SortedIsUnique(map[], Sort(map[], a), Sort(map[], b));
      assert |multiset(a)| == |a| && |multiset(b)| == |b|;
    }
  }

  // ----- the values of one attribute

  datatype ValueSide = OnBoth | OnLeft | OnRight

  datatype ValueRow = ValueRow(side: ValueSide, value: string)

  /** The rows of the first `n` left values: every value, in order. */
  function LeftRows(values: seq<string>, keys: seq<Key>, others: seq<Key>, n: nat): (rows: seq<ValueRow>)
    requires n <= |values| == |keys|
    ensures |rows| == n
  {
    if n == 0 then []
    else
      var side := if keys[n - 1] in others then OnBoth else OnLeft;
      LeftRows(values, keys, others, n - 1) + [ValueRow(side, values[n - 1])]
  }

  /** The rows of the first `n` right values: those whose key is not on the left. */
  function RightRows(values: seq<string>, keys: seq<Key>, others: seq<Key>, n: nat): (rows: seq<ValueRow>)
    requires n <= |values| == |keys|
    ensures |rows| <= n
  {
    if n == 0 then []
    else
      var rows := RightRows(values, keys, others, n - 1);
      if keys[n - 1] in others then rows else rows + [ValueRow(OnRight, values[n - 1])]
  }

  /** The listing without a bound. */
  function FullRows(lv: seq<string>, rv: seq<string>, lk: seq<Key>, rk: seq<Key>): seq<ValueRow>
    requires |lv| == |lk| && |rv| == |rk|
  {
    LeftRows(lv, lk, rk, |lv|) + RightRows(rv, rk, lk, |rv|)
  }

  lemma {:induction false} LeftRowsBegin(values: seq<string>, keys: seq<Key>, others: seq<Key>, k: nat, n: nat)
    requires k <= n <= |values| == |keys|
    ensures LeftRows(values, keys, others, k) <= LeftRows(values, keys, others, n)
  {
    if k < n {
      LeftRowsBegin(values, keys, others, k, n - 1);
    }
  }

  lemma {:induction false} RightRowsBegin(values: seq<string>, keys: seq<Key>, others: seq<Key>, k: nat, n: nat)
    requires k <= n <= |values| == |keys|
    ensures RightRows(values, keys, others, k) <= RightRows(values, keys, others, n)
  {
    if k < n {
      RightRowsBegin(values, keys, others, k, n - 1);
    }
  }

  lemma CutOnLeft(lv: seq<string>, rv: seq<string>, lk: seq<Key>, rk: seq<Key>, limit: nat)
    requires |lv| == |lk| && |rv| == |rk| && limit < |lv|
    ensures LeftRows(lv, lk, rk, limit) == Listed(FullRows(lv, rv, lk, rk), limit)
  {
    LeftRowsBegin(lv, lk, rk, limit, |lv|);
  }

  lemma CutOnRight(lv: seq<string>, rv: seq<string>, lk: seq<Key>, rk: seq<Key>, i: nat, limit: nat)
    requires |lv| == |lk| && |rv| == |rk| && i < |rv| && rk[i] !in lk
    requires |lv| + |RightRows(rv, rk, lk, i)| == limit
    ensures |FullRows(lv, rv, lk, rk)| > limit
    ensures LeftRows(lv, lk, rk, |lv|) + RightRows(rv, rk, lk, i) == Listed(FullRows(lv, rv, lk, rk), limit)
  {
    RightRowsBegin(rv, rk, lk, i, i + 1);
    RightRowsBegin(rv, rk, lk, i + 1, |rv|);
  }

  /** The first rows of the whole listing, as many as the limit lets through. */
  method ValueRows(lv: seq<string>, rv: seq<string>, lk: seq<Key>, rk: seq<Key>, limit: nat)
      returns (out: seq<ValueRow>, truncated: bool)
    requires |lv| == |lk| && |rv| == |rk|
    ensures out == Listed(FullRows(lv, rv, lk, rk), limit)
    ensures truncated <==> |FullRows(lv, rv, lk, rk)| > limit
  {
    out := [];
    for i := 0 to |lv|
      invariant out == LeftRows(lv, lk, rk, i) && i <= limit
    {
      if |out| >= limit {
        CutOnLeft(lv, rv, lk, rk, limit);
        return out, true;
      }
      out := out + [ValueRow(if lk[i] in rk then OnBoth else OnLeft, lv[i])];
    }
    ghost var lefts := out;
    for i := 0 to |rv|
      invariant out == lefts + RightRows(rv, rk, lk, i) && |out| <= limit
    {
      if rk[i] in lk {
        continue;
      }
      if |out| >= limit {
        CutOnRight(lv, rv, lk, rk, i, limit);
        return out, true;
      }
      out := out + [ValueRow(OnRight, rv[i])];
    }
    return out, false;
  }

  function Listed(full: seq<ValueRow>, limit: nat): seq<ValueRow>
  {
    full[..Min(limit, |full|)]
  }

  ghost predicate AllBoth(rows: seq<ValueRow>)
  {
    forall i: nat :: i < |rows| ==> rows[i].side.OnBoth?
  }

  lemma {:induction false} LeftAllBoth(values: seq<string>, keys: seq<Key>, others: seq<Key>, n: nat)
    requires n <= |values| == |keys|
    ensures AllBoth(LeftRows(values, keys, others, n)) <==> forall i: nat :: i < n ==> keys[i] in others
  {
    if n > 0 {
      LeftAllBoth(values, keys, others, n - 1);
      var rows, was := LeftRows(values, keys, others, n), LeftRows(values, keys, others, n - 1);
      assert rows[n - 1].side.OnBoth? <==> keys[n - 1] in others;
      assert AllBoth(rows) <==> AllBoth(was) && rows[n - 1].side.OnBoth? by {
        assert forall i: nat :: i < n - 1 ==> rows[i] == was[i];
      }
    }
  }

  lemma {:induction false} RightNone(values: seq<string>, keys: seq<Key>, others: seq<Key>, n: nat)
    requires n <= |values| == |keys|
    ensures RightRows(values, keys, others, n) == [] <==> forall i: nat :: i < n ==> keys[i] in others
    ensures var rows := RightRows(values, keys, others, n); forall i: nat :: i < |rows| ==> rows[i].side.OnRight?
  {
    if n > 0 {
      RightNone(values, keys, others, n - 1);
    }
  }

  /** Every row of the whole listing is on both sides exactly when each side's keys are the other's. */
  lemma AllBothIff(lv: seq<string>, rv: seq<string>, lk: seq<Key>, rk: seq<Key>)
    requires |lv| == |lk| && |rv| == |rk|
    ensures AllBoth(FullRows(lv, rv, lk, rk)) <==> forall k :: k in lk <==> k in rk
  {
    var left, right := LeftRows(lv, lk, rk, |lv|), RightRows(rv, rk, lk, |rv|);
    LeftAllBoth(lv, lk, rk, |lv|);
    RightNone(rv, rk, lk, |rv|);
    assert AllBoth(left + right) <==> AllBoth(left) && right == [] by {
      assert forall i: nat :: i < |left| ==> (left + right)[i] == left[i];
      assert right != [] ==> (left + right)[|left|] == right[0];
    }
  }

  lemma {:induction false} DistinctCounts(keys: seq<Key>, k: Key)
    requires NoDuplicates(keys)
    ensures multiset(keys)[k] == if k in keys then 1 else 0
  {
    if keys != [] {
      var front, last := keys[..|keys| - 1], keys[|keys| - 1];
      assert keys == front + [last];
      DistinctCounts(front, k);
    }
  }

  /**
   The same values, by key and number, are listed as held by both, in any part of the
   listing; the other way holds where no side has one key twice.
   */
  lemma SameMeansBoth(lv: seq<string>, rv: seq<string>, lk: seq<Key>, rk: seq<Key>, limit: nat)
    requires |lv| == |lk| && |rv| == |rk|
    ensures SameKeySets(lk, rk) ==> AllBoth(Listed(FullRows(lv, rv, lk, rk), limit))
    ensures NoDuplicates(lk) && NoDuplicates(rk) ==> (SameKeySets(lk, rk) <==> AllBoth(FullRows(lv, rv, lk, rk)))
  {
    SameKeySetsIff(lk, rk);
    AllBothIff(lv, rv, lk, rk);
    if multiset(lk) == multiset(rk) {
      assert forall k :: k in lk <==> k in multiset(lk);
      assert forall k :: k in rk <==> k in multiset(rk);
    } else if NoDuplicates(lk) && NoDuplicates(rk) && forall k :: k in lk <==> k in rk {
      forall k
        ensures multiset(lk)[k] == multiset(rk)[k]
      {
        DistinctCounts(lk, k);
        DistinctCounts(rk, k);
      }
    }
  }

  /** All rows say both sides, and the status that they differ, exactly where the same keys come in other numbers. */
  lemma DiffersYetBoth(lv: seq<string>, rv: seq<string>, lk: seq<Key>, rk: seq<Key>)
    requires |lv| == |lk| && |rv| == |rk|
    ensures AllBoth(FullRows(lv, rv, lk, rk)) && !SameKeySets(lk, rk) <==>
      (forall k :: k in lk <==> k in rk) && multiset(lk) != multiset(rk)
  {
    SameKeySetsIff(lk, rk);
    AllBothIff(lv, rv, lk, rk);
  }

  /** One value in two spellings against one of them: the rows say both sides, the status says they differ. */
  lemma TwoSpellings(a: string, b: string, k: Key)
    ensures AllBoth(FullRows([a, b], [a], [k, k], [k])) && !SameKeySets([k, k], [k])
    ensures |FullRows([a, b], [a], [k, k], [k])| == 2 && |FullRows([a], [a, b], [k], [k, k])| == 1
  {
    AllBothIff([a, b], [a], [k, k], [k]);
    RightNone([a], [k], [k, k], 1);
    RightNone([a, b], [k, k], [k], 2);
  }

  // ----- the length of the listing does not depend on the side

  function KeySet(keys: seq<Key>, n: nat): set<Key>
    requires n <= |keys|
  {
    if n == 0 then {} else KeySet(keys, n - 1) + {keys[n - 1]}
  }

  lemma {:induction false} KeySetIs(keys: seq<Key>, n: nat)
    requires n <= |keys|
    ensures forall k :: k in KeySet(keys, n) <==> k in keys[..n]
  {
    if n > 0 {
      KeySetIs(keys, n - 1);
      assert keys[..n] == keys[..n - 1] + [keys[n - 1]];
    }
  }

  function AllKeys(keys: seq<Key>): set<Key>
  {
    KeySet(keys, |keys|)
  }

  lemma AllKeysAre(keys: seq<Key>)
    ensures forall k :: k in AllKeys(keys) <==> k in keys
  {
    KeySetIs(keys, |keys|);
    assert keys[..|keys|] == keys;
  }

  lemma NotEarlier(keys: seq<Key>, n: nat)
    requires NoDuplicates(keys) && n < |keys|
    ensures keys[n] !in KeySet(keys, n)
  {
    KeySetIs(keys, n);
  }

  lemma OneMoreKey(s: set<Key>, others: set<Key>, k: Key)
    requires k !in s
    ensures |(s + {k}) - others| == |s - others| + if k in others then 0 else 1
  {
    assert (s + {k}) - others == if k in others then s - others else (s - others) + {k};
  }

  lemma {:induction false} RightLength(values: seq<string>, keys: seq<Key>, others: seq<Key>, n: nat)
    requires n <= |values| == |keys| && NoDuplicates(keys)
    ensures |RightRows(values, keys, others, n)| == |KeySet(keys, n) - AllKeys(others)|
  {
    if n > 0 {
      RightLength(values, keys, others, n - 1);
      NotEarlier(keys, n - 1);
      AllKeysAre(others);
      OneMoreKey(KeySet(keys, n - 1), AllKeys(others), keys[n - 1]);
    }
  }

  lemma {:induction false} DistinctSize(keys: seq<Key>, n: nat)
    requires NoDuplicates(keys) && n <= |keys|
    ensures |KeySet(keys, n)| == n
  {
    if n > 0 {
      DistinctSize(keys, n - 1);
      NotEarlier(keys, n - 1);
    }
  }

  /** Without repeated keys the listing has one row for each key of either side. */
  lemma FullLength(lv: seq<string>, rv: seq<string>, lk: seq<Key>, rk: seq<Key>)
    requires |lv| == |lk| && |rv| == |rk| && NoDuplicates(lk) && NoDuplicates(rk)
    ensures |FullRows(lv, rv, lk, rk)| == |AllKeys(lk) + AllKeys(rk)|
  {
    DistinctSize(lk, |lk|);
    RightLength(rv, rk, lk, |rv|);
    assert AllKeys(lk) + AllKeys(rk) == AllKeys(lk) + (AllKeys(rk) - AllKeys(lk));
  }

  /** How many of the first `n` keys are on the other side as well. */
  function Shared(keys: seq<Key>, others: seq<Key>, n: nat): (count: nat)
    requires n <= |keys|
    ensures count <= n
  {
    if n == 0 then 0 else Shared(keys, others, n - 1) + if keys[n - 1] in others then 1 else 0
  }

  lemma {:induction false} RightRowsAre(values: seq<string>, keys: seq<Key>, others: seq<Key>, n: nat)
    requires n <= |values| == |keys|
    ensures |RightRows(values, keys, others, n)| == n - Shared(keys, others, n)
  {
    if n > 0 {
      RightRowsAre(values, keys, others, n - 1);
    }
  }

  /** How long the whole listing is. */
  function ListingSize(lk: seq<Key>, rk: seq<Key>): nat
  {
    |lk| + (|rk| - Shared(rk, lk, |rk|))
  }

  /** The two sides give listings of one length exactly when they share as many positions each way. */
  lemma LengthMirrors(lv: seq<string>, rv: seq<string>, lk: seq<Key>, rk: seq<Key>)
    requires |lv| == |lk| && |rv| == |rk|
    ensures |FullRows(lv, rv, lk, rk)| == ListingSize(lk, rk) && |FullRows(rv, lv, rk, lk)| == ListingSize(rk, lk)
    ensures |FullRows(lv, rv, lk, rk)| == |FullRows(rv, lv, rk, lk)| <==>
      Shared(lk, rk, |lk|) == Shared(rk, lk, |rk|)
  {
    RightRowsAre(rv, rk, lk, |rv|);
    RightRowsAre(lv, lk, rk, |lv|);
  }

  // ----- one row

  datatype Status = Same | Differs | LeftOnly | RightOnly | Withheld | Undetermined

  datatype Side = Side(present: bool, valueCount: nat, required: bool, permitted: bool,
                       schemes: seq<string>, denied: bool)

  datatype Row = Row(name: Name, status: Status, left: Side, right: Side, withheld: bool,
                     values: Option<seq<ValueRow>>, truncated: bool)

  function {:tailrecursion false} ValuesIn(attributes: seq<Attribute>, name: Name): seq<string>
  {
    if attributes == [] then []
    else if attributes[0].name == name then attributes[0].values
    else ValuesIn(attributes[1..], name)
  }

  function ValuesOf(e: Entry, name: Name): seq<string>
  {
    ValuesIn(e.attributes, name)
  }

  predicate IsSensitive(sch: Schema, name: Name)
  {
    Tally.BaseName(name) in sch.sensitive
  }

  /** What a value is compared by: the DN it is read as where the attribute names entries, else itself. */
  function KeyOf(sch: Schema, name: Name, value: string): Key
  {
    if Tally.BaseName(name) in sch.dnValued && value in sch.dns then sch.dns[value] else value
  }

  function KeysOf(sch: Schema, name: Name, values: seq<string>): (keys: seq<Key>)
    ensures |keys| == |values|
  {
    seq(|values|, i requires 0 <= i < |values| => KeyOf(sch, name, values[i]))
  }

  /** The storage scheme in braces that a secret begins with, if it is not too long to be one. */
  function Scheme(value: string): string
  {
    if |value| > 1 && value[0] == '{' then
      var end := BraceEnd(value, 0);
      if end < |value| && 1 < end <= 32 then value[1..end] else []
    else []
  }

  function BraceEnd(s: string, i: nat): (end: nat)
    requires i <= |s|
    ensures i <= end <= |s|
    ensures end < |s| ==> s[end] == '}'
    ensures forall k: nat :: i <= k < end ==> s[k] != '}'
    decreases |s| - i
  {
    if i == |s| || s[i] == '}' then i else BraceEnd(s, i + 1)
  }

  function Schemes(values: seq<string>): (schemes: seq<string>)
    ensures |schemes| == |values|
  {
    seq(|values|, i requires 0 <= i < |values| => Scheme(values[i]))
  }

  predicate Lists(names: set<Name>, name: Name)
  {
    exists n :: n in names && Tally.BaseName(n) == Tally.BaseName(name)
  }

  function SideOf(e: Entry, name: Name, values: seq<string>, schemes: seq<string>): Side
  {
    var must := Lists(e.must, name);
    Side(values != [], |values|, must, must || Lists(e.may, name), schemes, false)
  }

  function StatusOf(sensitive: bool, lv: seq<string>, rv: seq<string>, lk: seq<Key>, rk: seq<Key>): Status
  {
    if lv != [] && rv == [] then LeftOnly
    else if lv == [] && rv != [] then RightOnly
    else if lv == [] && rv == [] then Same
    else if sensitive then Withheld
    else if SameKeySets(lk, rk) then Same
    else Differs
  }

  /** The row of one attribute; of a secret, only whether each side holds it, how often and in which scheme. */
  function CompareOne(sch: Schema, left: Entry, right: Entry, name: Name, limit: nat): Row
  {
    var lv, rv := ValuesOf(left, name), ValuesOf(right, name);
    var lk, rk := KeysOf(sch, name, lv), KeysOf(sch, name, rv);
    if IsSensitive(sch, name) then
      Row(name, StatusOf(true, lv, rv, lk, rk), SideOf(left, name, lv, Schemes(lv)),
          SideOf(right, name, rv, Schemes(rv)), true, None, false)
    else
      var full := FullRows(lv, rv, lk, rk);
      Row(name, StatusOf(false, lv, rv, lk, rk), SideOf(left, name, lv, []), SideOf(right, name, rv, []),
          false, Some(Listed(full, limit)), |full| > limit)
  }

  /** A row that says the same, or that the value was withheld, says no more than it knows. */
  lemma StatusMeans(sch: Schema, left: Entry, right: Entry, name: Name, limit: nat)
    ensures var row := CompareOne(sch, left, right, name, limit);
      var lv, rv := ValuesOf(left, name), ValuesOf(right, name);
      var lk, rk := KeysOf(sch, name, lv), KeysOf(sch, name, rv);
      && (row.status.Withheld? <==> IsSensitive(sch, name) && lv != [] && rv != [])
      && (row.status.Same? && lv != [] ==>
            !IsSensitive(sch, name) && multiset(lk) == multiset(rk) && AllBoth(row.values.value))
      && (row.status.Differs? ==> !IsSensitive(sch, name) && multiset(lk) != multiset(rk))
      && (row.status.Differs? || row.status.Withheld? ==> lv != [] && rv != [])
      && (row.status.LeftOnly? <==> lv != [] && rv == []) && (row.status.RightOnly? <==> lv == [] && rv != [])
      && !row.status.Undetermined?
  {
    var lv, rv := ValuesOf(left, name), ValuesOf(right, name);
    var lk, rk := KeysOf(sch, name, lv), KeysOf(sch, name, rv);
    SameKeySetsIff(lk, rk);
    SameMeansBoth(lv, rv, lk, rk, limit);
  }

  // ----- what a row says of the schema and of each entry

  /** The description names an attribute that the schema calls a secret, with options or without. */
  ghost predicate NamesSecret(sch: Schema, name: Name)
  {
    exists base, options :: Tally.Describes(name, base, options) && base in sch.sensitive
  }

  lemma SecretIff(sch: Schema, name: Name)
    ensures IsSensitive(sch, name) <==> NamesSecret(sch, name)
  {
    var options := Tally.BaseNameSplits(name);
    if NamesSecret(sch, name) {
      var base, more :| Tally.Describes(name, base, more) && base in sch.sensitive;
      Tally.BaseNameIs(name, base, more);
    }
  }

  /** Of a secret no value is listed, and where both sides hold it, it is not said to be the same. */
  lemma SecretsAreWithheld(sch: Schema, left: Entry, right: Entry, name: Name, limit: nat)
    ensures var row := CompareOne(sch, left, right, name, limit);
      && (row.withheld <==> NamesSecret(sch, name)) && (row.values.None? <==> NamesSecret(sch, name))
      && (NamesSecret(sch, name) ==> !row.truncated)
      && (row.status.Withheld? <==>
            NamesSecret(sch, name) && ValuesOf(left, name) != [] && ValuesOf(right, name) != [])
  {
    SecretIff(sch, name);
  }

  predicate IsFirst(attributes: seq<Attribute>, name: Name, i: nat)
  {
    i < |attributes| && attributes[i].name == name && forall j: nat :: j < i ==> attributes[j].name != name
  }

  /** The first attribute of that name is the one that counts. */
  lemma {:induction false} ValuesAreFirst(attributes: seq<Attribute>, name: Name)
    ensures forall i: nat :: IsFirst(attributes, name, i) ==> ValuesIn(attributes, name) == attributes[i].values
    ensures (forall i: nat :: i < |attributes| ==> attributes[i].name != name) ==> ValuesIn(attributes, name) == []
  {
    if attributes != [] {
      var rest := attributes[1..];
      ValuesAreFirst(rest, name);
      forall i: nat | IsFirst(attributes, name, i)
        ensures ValuesIn(attributes, name) == attributes[i].values
      {
        if i > 0 {
          assert attributes[i] == rest[i - 1] && forall j: nat :: j < i - 1 ==> rest[j] == attributes[j + 1];
          assert IsFirst(rest, name, i - 1);
        }
      }
      assert forall i: nat :: i < |rest| ==> rest[i] == attributes[i + 1];
    }
  }

  /** The text begins with a storage scheme in braces. */
  predicate HasScheme(value: string, scheme: string)
  {
    && 1 <= |scheme| <= 31 && '}' !in scheme && |value| >= |scheme| + 2
    && value[0] == '{' && value[1..|scheme| + 1] == scheme && value[|scheme| + 1] == '}'
  }

  lemma SchemeIff(value: string, scheme: string)
    requires scheme != []
    ensures Scheme(value) == scheme <==> HasScheme(value, scheme)
  {
    if HasScheme(value, scheme) {
      var end := BraceEnd(value, 0);
      forall k: nat | k < |scheme| + 1
        ensures value[k] != '}'
      {
        assert k > 0 ==> value[k] == scheme[k - 1];
      }
      assert end == |scheme| + 1;
    }
  }

  /** Some name in the set is of the same attribute. */
  ghost predicate NamesAttribute(names: set<Name>, name: Name)
  {
    exists n, base, options, more ::
      n in names && Tally.Describes(n, base, options) && Tally.Describes(name, base, more)
  }

  lemma ListsIff(names: set<Name>, name: Name)
    ensures Lists(names, name) <==> NamesAttribute(names, name)
  {
    var more := Tally.BaseNameSplits(name);
    if Lists(names, name) {
      var n :| n in names && Tally.BaseName(n) == Tally.BaseName(name);
      var options := Tally.BaseNameSplits(n);
    }
    if NamesAttribute(names, name) {
      var n, base, options, other :|
        n in names && Tally.Describes(n, base, options) && Tally.Describes(name, base, other);
      Tally.BaseNameIs(n, base, options);
      Tally.BaseNameIs(name, base, other);
    }
  }

  /**
   What a row says of one side: whether and how often that entry holds the attribute,
   whether its own classes require or permit it, and of a secret the schemes of the values.
   */
  lemma SidesAreTheirs(sch: Schema, left: Entry, right: Entry, name: Name, limit: nat)
    ensures SideSays(sch, left, name, CompareOne(sch, left, right, name, limit).left)
    ensures SideSays(sch, right, name, CompareOne(sch, left, right, name, limit).right)
  {
    SideIs(sch, left, name);
    SideIs(sch, right, name);
  }

  ghost predicate SideSays(sch: Schema, e: Entry, name: Name, side: Side)
  {
    var values := ValuesOf(e, name);
    && (side.present <==> values != []) && side.valueCount == |values| && !side.denied
    && (side.required <==> NamesAttribute(e.must, name))
    && (side.permitted <==> NamesAttribute(e.must, name) || NamesAttribute(e.may, name))
    && |side.schemes| == (if NamesSecret(sch, name) then |values| else 0)
    && forall i: nat, scheme :: i < |side.schemes| && scheme != [] ==>
         (side.schemes[i] == scheme <==> HasScheme(values[i], scheme))
  }

  lemma SideIs(sch: Schema, e: Entry, name: Name)
    ensures var values := ValuesOf(e, name);
      SideSays(sch, e, name, SideOf(e, name, values, if IsSensitive(sch, name) then Schemes(values) else []))
  {
    SecretIff(sch, name);
    ListsIff(e.must, name);
    ListsIff(e.may, name);
    var values := ValuesOf(e, name);
    forall i: nat, scheme | i < |values| && scheme != []
      ensures Schemes(values)[i] == scheme <==> HasScheme(values[i], scheme)
    {
      SchemeIff(values[i], scheme);
    }
  }

  /** Two spellings of one DN are the same value where the attribute names entries, and two values where it does not. */
  lemma DnsCompareAsDns(sch: Schema, left: Entry, right: Entry, base: string, options: string, a: string, b: string,
      limit: nat)
    requires Tally.Describes(base + options, base, options) && !NamesSecret(sch, base + options)
    requires ValuesOf(left, base + options) == [a] && ValuesOf(right, base + options) == [b]
    ensures var status := CompareOne(sch, left, right, base + options, limit).status;
      if base in sch.dnValued && a in sch.dns && b in sch.dns then
        status == if sch.dns[a] == sch.dns[b] then Same else Differs
      else base !in sch.dnValued || (a !in sch.dns && b !in sch.dns) ==> status == if a == b then Same else Differs
  {
    SecretIff(sch, base + options);
    Tally.BaseNameIs(base + options, base, options);
    var lk, rk := KeysOf(sch, base + options, [a]), KeysOf(sch, base + options, [b]);
    SameKeySetsIff(lk, rk);
    assert lk == [KeyOf(sch, base + options, a)] && rk == [KeyOf(sch, base + options, b)];
    OneKey(lk[0], rk[0]);
  }

  lemma OneKey(j: Key, k: Key)
    ensures multiset([j]) == multiset([k]) <==> j == k
  {
    assert multiset([j]) == multiset([k]) ==> j in multiset([k]);
  }

  /**
   The listing: every left value in order, on both sides exactly when the right holds its
   key, and after them the right values whose keys the left does not hold, in order.
   */
  lemma ListingSays(lv: seq<string>, rv: seq<string>, lk: seq<Key>, rk: seq<Key>)
    requires |lv| == |lk| && |rv| == |rk|
    ensures |FullRows(lv, rv, lk, rk)| == |lv| + |rv| - Shared(rk, lk, |rk|)
    ensures forall i: nat :: i < |lv| ==>
      FullRows(lv, rv, lk, rk)[i] == ValueRow(if lk[i] in rk then OnBoth else OnLeft, lv[i])
    ensures forall j: nat :: j < |rv| && rk[j] !in lk ==>
      0 <= j - Shared(rk, lk, j) < |rv| - Shared(rk, lk, |rk|) &&
      FullRows(lv, rv, lk, rk)[|lv| + j - Shared(rk, lk, j)] == ValueRow(OnRight, rv[j])
  {
    LeftRowsSay(lv, lk, rk, |lv|);
    RightRowsAre(rv, rk, lk, |rv|);
    forall j: nat | j < |rv| && rk[j] !in lk
      ensures 0 <= j - Shared(rk, lk, j) < |rv| - Shared(rk, lk, |rk|)
      ensures FullRows(lv, rv, lk, rk)[|lv| + j - Shared(rk, lk, j)] == ValueRow(OnRight, rv[j])
    {
      RightRowSays(rv, rk, lk, j);
    }
  }

  lemma RightRowSays(values: seq<string>, keys: seq<Key>, others: seq<Key>, j: nat)
    requires |values| == |keys| && j < |values| && keys[j] !in others
    ensures 0 <= j - Shared(keys, others, j) < |values| - Shared(keys, others, |keys|)
    ensures |RightRows(values, keys, others, |values|)| == |values| - Shared(keys, others, |keys|)
    ensures RightRows(values, keys, others, |values|)[j - Shared(keys, others, j)] == ValueRow(OnRight, values[j])
  {
    RightRowsAre(values, keys, others, j);
    RightRowsAre(values, keys, others, j + 1);
    RightRowsAre(values, keys, others, |values|);
    RightRowsBegin(values, keys, others, j + 1, |values|);
    assert RightRows(values, keys, others, j + 1)[j - Shared(keys, others, j)] == ValueRow(OnRight, values[j]);
  }

  lemma {:induction false} LeftRowsSay(values: seq<string>, keys: seq<Key>, others: seq<Key>, n: nat)
    requires n <= |values| == |keys|
    ensures forall i: nat :: i < n ==>
      LeftRows(values, keys, others, n)[i] == ValueRow(if keys[i] in others then OnBoth else OnLeft, values[i])
  {
    if n > 0 {
      LeftRowsSay(values, keys, others, n - 1);
    }
  }

  // ----- the two sides exchanged

  function Mirror(status: Status): Status
  {
    match status
    case LeftOnly => RightOnly
    case RightOnly => LeftOnly
    case _ => status
  }

  /**
   Exchanging the entries mirrors every row; whether its listing was cut short does not
   change either, where neither side has one key twice.
   */
  lemma RowMirrors(sch: Schema, left: Entry, right: Entry, name: Name, limit: nat)
    ensures var row, back := CompareOne(sch, left, right, name, limit), CompareOne(sch, right, left, name, limit);
      && back.status == Mirror(row.status) && back.left == row.right && back.right == row.left
      && back.withheld == row.withheld
      && (DistinctKeys(sch, left, name) && DistinctKeys(sch, right, name) ==>
            back.truncated == row.truncated)
  {
    var lv, rv := ValuesOf(left, name), ValuesOf(right, name);
    var lk, rk := KeysOf(sch, name, lv), KeysOf(sch, name, rv);
    SameKeySetsIff(lk, rk);
    SameKeySetsIff(rk, lk);
    if NoDuplicates(lk) && NoDuplicates(rk) {
      FullLength(lv, rv, lk, rk);
      FullLength(rv, lv, rk, lk);
      assert AllKeys(lk) + AllKeys(rk) == AllKeys(rk) + AllKeys(lk);
    }
  }

  ghost predicate DistinctKeys(sch: Schema, e: Entry, name: Name)
  {
    NoDuplicates(KeysOf(sch, name, ValuesOf(e, name)))
  }

  // ----- the rows

  function RankOfName(sch: Schema, name: Name): nat
  {
    var base := Tally.BaseName(name);
    if base == "objectclass" then 0 else if base in sch.operational then 3 else 1
  }

  /** The attributes either entry holds, and those either is required to hold. */
  predicate Named(left: Entry, right: Entry, name: Name)
  {
    || (exists a :: a in left.attributes && a.name == name)
    || (exists a :: a in right.attributes && a.name == name)
    || name in left.must || name in right.must
  }

  predicate NameBefore(sch: Schema, a: Name, b: Name)
  {
    RankOfName(sch, a) < RankOfName(sch, b) || (RankOfName(sch, a) == RankOfName(sch, b) && Before(a, b))
  }

  /** Each of these attributes once: object classes first, what the directory owns last, by name within each. */
  ghost predicate IsUnion(sch: Schema, left: Entry, right: Entry, names: seq<Name>)
  {
    && (forall name :: name in names <==> Named(left, right, name))
    && (forall i: nat, j: nat :: i < j < |names| ==> NameBefore(sch, names[i], names[j]))
  }

  lemma NameBeforeIsStrict(sch: Schema, a: Name, b: Name)
    ensures NameBefore(sch, a, b) ==> !NameBefore(sch, b, a) && a != b
    ensures a != b ==> NameBefore(sch, a, b) || NameBefore(sch, b, a)
  {
    BeforeIsStrict(a, b);
  }

  lemma {:induction false} UnionIsUnique(sch: Schema, a: seq<Name>, b: seq<Name>)
    requires forall name :: name in a <==> name in b
    requires forall i: nat, j: nat :: i < j < |a| ==> NameBefore(sch, a[i], a[j])
    requires forall i: nat, j: nat :: i < j < |b| ==> NameBefore(sch, b[i], b[j])
    ensures a == b
  {
    if a != [] && b != [] {
      assert a[0] in b && b[0] in a;
      var i: nat :| i < |b| && b[i] == a[0];
      var j: nat :| j < |a| && a[j] == b[0];
      NameBeforeIsStrict(sch, a[0], b[0]);
      var restA, restB := a[1..], b[1..];
      assert a == [a[0]] + restA && b == [b[0]] + restB;
      forall name
        ensures name in restA <==> name in restB
      {
        NotInTail(sch, a);
        NotInTail(sch, b);
        assert name in a <==> name == a[0] || name in restA;
        assert name in b <==> name == b[0] || name in restB;
      }
      UnionIsUnique(sch, restA, restB);
    } else {
      BothEmpty(a, b);
      BothEmpty(b, a);
    }
  }

  lemma BothEmpty(a: seq<Name>, b: seq<Name>)
    requires forall name :: name in a <==> name in b
    ensures a == [] ==> b == []
  {
    if b != [] {
      assert b[0] in b;
    }
  }

  lemma NotInTail(sch: Schema, a: seq<Name>)
    requires a != [] && forall i: nat, j: nat :: i < j < |a| ==> NameBefore(sch, a[i], a[j])
    ensures a[0] !in a[1..]
  {
    forall k: nat | 0 < k < |a|
      ensures a[k] != a[0]
    {
      NameBeforeIsStrict(sch, a[0], a[k]);
    }
  }

  ghost predicate HasBase(name: Name, base: string)
  {
    exists options :: Tally.Describes(name, base, options)
  }

  /** What the directory itself keeps. */
  ghost predicate IsOperational(sch: Schema, name: Name)
  {
    exists base :: HasBase(name, base) && base in sch.operational
  }

  /**
   In that order the object classes come before everything else, what the directory keeps
   comes after everything else, and otherwise the name that is first in bytes.
   */
  lemma OrderSays(sch: Schema, left: Entry, right: Entry, names: seq<Name>, i: nat, j: nat)
    requires IsUnion(sch, left, right, names) && i < j < |names|
    ensures HasBase(names[j], "objectclass") ==> HasBase(names[i], "objectclass")
    ensures IsOperational(sch, names[i]) && !HasBase(names[i], "objectclass") ==>
      IsOperational(sch, names[j]) && !HasBase(names[j], "objectclass")
    ensures AlikeInRank(sch, names[i], names[j]) ==> exists k: nat :: DifferAt(names[i], names[j], k)
  {
    BaseIs(sch, names[i]);
    BaseIs(sch, names[j]);
    BeforeIs(names[i], names[j]);
  }

  ghost predicate AlikeInRank(sch: Schema, a: Name, b: Name)
  {
    (HasBase(a, "objectclass") <==> HasBase(b, "objectclass")) && (IsOperational(sch, a) <==> IsOperational(sch, b))
  }

  lemma BaseIs(sch: Schema, name: Name)
    ensures forall base :: HasBase(name, base) <==> base == Tally.BaseName(name)
    ensures IsOperational(sch, name) <==> Tally.BaseName(name) in sch.operational
  {
    var more := Tally.BaseNameSplits(name);
    forall base | HasBase(name, base)
      ensures base == Tally.BaseName(name)
    {
      var options :| Tally.Describes(name, base, options);
      Tally.BaseNameIs(name, base, options);
    }
    assert HasBase(name, Tally.BaseName(name));
  }

  method UnionNames(sch: Schema, left: Entry, right: Entry) returns (names: seq<Name>)
    ensures IsUnion(sch, left, right, names)
  {
    var seen: set<Name> :=
      (set a | a in left.attributes :: a.name) + (set a | a in right.attributes :: a.name) + left.must + right.must;
    names := [];
    while seen != {}
      invariant forall name :: name in names || name in seen <==> Named(left, right, name)
      invariant forall name :: name in names ==> name !in seen
      invariant forall i: nat, j: nat :: i < j < |names| ==> NameBefore(sch, names[i], names[j])
      decreases seen
    {
      var name :| name in seen;
      seen := seen - {name};
      names := WithName(sch, names, name);
    }
  }

  /** Puts one more name in its place. */
  method WithName(sch: Schema, names: seq<Name>, name: Name) returns (more: seq<Name>)
    requires name !in names
    requires forall i: nat, j: nat :: i < j < |names| ==> NameBefore(sch, names[i], names[j])
    ensures forall n :: n in more <==> n in names || n == name
    ensures forall i: nat, j: nat :: i < j < |more| ==> NameBefore(sch, more[i], more[j])
  {
    var at := |names|;
    while at > 0 && NameBefore(sch, name, names[at - 1])
      invariant 0 <= at <= |names|
      invariant forall i: nat :: at <= i < |names| ==> NameBefore(sch, name, names[i])
    {
      at := at - 1;
    }
    if at > 0 {
      NameBeforeIsStrict(sch, name, names[at - 1]);
      forall i: nat | i < at
        ensures NameBefore(sch, names[i], name)
      {
        if i < at - 1 {
          NameBeforeTrans(sch, names[i], names[at - 1], name);
        }
      }
    }
    more := names[..at] + [name] + names[at..];
    assert forall n :: n in names <==> n in names[..at] || n in names[at..];
  }

  lemma NameBeforeTrans(sch: Schema, a: Name, b: Name, c: Name)
    requires NameBefore(sch, a, b) && NameBefore(sch, b, c)
    ensures NameBefore(sch, a, c)
  {
    if RankOfName(sch, a) == RankOfName(sch, b) == RankOfName(sch, c) {
      BeforeTrans(a, b, c);
    }
  }

  // ----- the comparison

  datatype Counts = Counts(same: nat, differs: nat, leftOnly: nat, rightOnly: nat, withheld: nat, undetermined: nat)

  const NONE := Counts(0, 0, 0, 0, 0, 0)

  function Counted(c: Counts, status: Status): Counts
  {
    match status
    case Same => c.(same := c.same + 1)
    case Differs => c.(differs := c.differs + 1)
    case LeftOnly => c.(leftOnly := c.leftOnly + 1)
    case RightOnly => c.(rightOnly := c.rightOnly + 1)
    case Withheld => c.(withheld := c.withheld + 1)
    case Undetermined => c.(undetermined := c.undetermined + 1)
  }

  /** How many of the first `n` rows have each status. */
  function CountsOf(rows: seq<Row>, n: nat): Counts
    requires n <= |rows|
  {
    if n == 0 then NONE else Counted(CountsOf(rows, n - 1), rows[n - 1].status)
  }

  method Recount(rows: seq<Row>) returns (c: Counts)
    ensures c == CountsOf(rows, |rows|)
  {
    c := NONE;
    for i := 0 to |rows|
      invariant c == CountsOf(rows, i)
    {
      c := Counted(c, rows[i].status);
    }
  }

  function Total(c: Counts): nat
  {
    c.same + c.differs + c.leftOnly + c.rightOnly + c.withheld + c.undetermined
  }

  /** Every row is in one bucket. */
  lemma {:induction false} CountsPartition(rows: seq<Row>, n: nat)
    requires n <= |rows|
    ensures Total(CountsOf(rows, n)) == n
  {
    if n > 0 {
      CountsPartition(rows, n - 1);
    }
  }

  /** The rows that have a status. */
  function With(rows: seq<Row>, status: Status): set<nat>
  {
    Places(rows, (row: Row) => row.status == status)
  }

  lemma {:induction false} CountsSay(rows: seq<Row>)
    ensures CountsOf(rows, |rows|) == Counts(|With(rows, Same)|, |With(rows, Differs)|, |With(rows, LeftOnly)|,
      |With(rows, RightOnly)|, |With(rows, Withheld)|, |With(rows, Undetermined)|)
  {
    if rows != [] {
      var front, last := rows[..|rows| - 1], rows[|rows| - 1];
      CountsSay(front);
      CountsSame(front, rows, |front|);
      forall status
        ensures |With(rows, status)| == |With(front, status)| + if last.status == status then 1 else 0
      {
        PlacesMore(rows, (row: Row) => row.status == status);
      }
    }
  }

  datatype Comparison = Comparison(rows: seq<Row>, counts: Counts, truncated: bool)

  function Bound(limit: int): nat
  {
    if limit <= 0 || limit > MAX_VALUES then MAX_VALUES else limit
  }

  /** The rows of the attributes in their order, counted, and cut short exactly when some row is. */
  ghost predicate IsComparison(sch: Schema, left: Entry, right: Entry, limit: int, names: seq<Name>, out: Comparison)
  {
    && IsUnion(sch, left, right, names)
    && |out.rows| == |names| && AreRows(sch, left, right, names, Bound(limit), out.rows)
    && out.counts == CountsOf(out.rows, |out.rows|)
    && (out.truncated <==> SomeCut(out.rows))
  }

  /** Each row is that of its attribute. */
  ghost predicate AreRows(sch: Schema, left: Entry, right: Entry, names: seq<Name>, limit: nat, rows: seq<Row>)
    requires |rows| <= |names|
  {
    forall i: nat :: i < |rows| ==> rows[i] == CompareOne(sch, left, right, names[i], limit)
  }

  ghost predicate SomeCut(rows: seq<Row>)
  {
    exists i: nat :: i < |rows| && rows[i].truncated
  }

  lemma OneMoreRow(sch: Schema, left: Entry, right: Entry, names: seq<Name>, limit: nat, rows: seq<Row>, row: Row)
    requires |rows| < |names| && AreRows(sch, left, right, names, limit, rows)
    requires row == CompareOne(sch, left, right, names[|rows|], limit)
    ensures AreRows(sch, left, right, names, limit, rows + [row])
  {
  }

  lemma OneMoreCounted(rows: seq<Row>, row: Row)
    ensures CountsOf(rows + [row], |rows| + 1) == Counted(CountsOf(rows, |rows|), row.status)
    ensures SomeCut(rows + [row]) <==> SomeCut(rows) || row.truncated
  {
    CountsSame(rows, rows + [row], |rows|);
    assert row.truncated ==> (rows + [row])[|rows|].truncated;
    assert forall i: nat :: i < |rows| ==> (rows + [row])[i] == rows[i];
  }

  method CompareEntries(sch: Schema, left: Entry, right: Entry, limit: int)
      returns (out: Comparison, names: seq<Name>)
    ensures IsComparison(sch, left, right, limit, names, out)
  {
    var bound := Bound(limit);
    names := UnionNames(sch, left, right);
    var rows: seq<Row>, counts, truncated := [], NONE, false;
    for i := 0 to |names|
      invariant |rows| == i && AreRows(sch, left, right, names, bound, rows)
      invariant counts == CountsOf(rows, i)
      invariant truncated <==> SomeCut(rows)
    {
      var row := OneRow(sch, left, right, names[i], bound);
      OneMoreRow(sch, left, right, names, bound, rows, row);
      OneMoreCounted(rows, row);
      rows := rows + [row];
      if row.truncated {
        truncated := true;
      }
      counts := Counted(counts, row.status);
    }
    out := Comparison(rows, counts, truncated);
  }

  lemma {:induction false} CountsSame(a: seq<Row>, b: seq<Row>, n: nat)
    requires n <= |a| && n <= |b| && forall i: nat :: i < n ==> a[i].status == b[i].status
    ensures CountsOf(a, n) == CountsOf(b, n)
  {
    if n > 0 {
      CountsSame(a, b, n - 1);
    }
  }

  /**
   In a whole comparison: a secret's values are not in it, whoever holds them; and of any
   other attribute at most five hundred rows, or as many as were asked for if that is fewer.
   */
  lemma ComparisonSays(sch: Schema, left: Entry, right: Entry, limit: int, names: seq<Name>, out: Comparison, i: nat)
    requires IsComparison(sch, left, right, limit, names, out) && i < |names|
    ensures out.rows[i].name == names[i]
    ensures NamesSecret(sch, names[i]) <==> out.rows[i].values.None?
    ensures NamesSecret(sch, names[i]) && ValuesOf(left, names[i]) != [] && ValuesOf(right, names[i]) != [] <==>
      out.rows[i].status == Withheld
    ensures out.rows[i].values.Some? ==>
      |out.rows[i].values.value| <= if 1 <= limit <= 500 then limit else 500
    ensures out.rows[i].truncated ==> out.truncated
  {
    SecretsAreWithheld(sch, left, right, names[i], Bound(limit));
    assert out.rows[i] == CompareOne(sch, left, right, names[i], Bound(limit));
  }

  method OneRow(sch: Schema, left: Entry, right: Entry, name: Name, limit: nat) returns (row: Row)
    ensures row == CompareOne(sch, left, right, name, limit)
  {
    var lv, rv := ValuesOf(left, name), ValuesOf(right, name);
    var lk, rk := KeysOf(sch, name, lv), KeysOf(sch, name, rv);
    if IsSensitive(sch, name) {
      return Row(name, StatusOf(true, lv, rv, lk, rk), SideOf(left, name, lv, Schemes(lv)),
        SideOf(right, name, rv, Schemes(rv)), true, None, false);
    }
    var values, truncated := ValueRows(lv, rv, lk, rk, limit);
    row := Row(name, StatusOf(false, lv, rv, lk, rk), SideOf(left, name, lv, []), SideOf(right, name, rv, []),
      false, Some(values), truncated);
  }

  // ----- secrets

  /** Two entries that differ in nothing but the bytes of secrets, each as often and in the same schemes. */
  ghost predicate SameButSecrets(sch: Schema, e: Entry, f: Entry)
  {
    && e.must == f.must && e.may == f.may && |e.attributes| == |f.attributes|
    && forall i: nat :: i < |e.attributes| ==> AlikeButSecret(sch, e.attributes[i], f.attributes[i])
  }

  ghost predicate AlikeButSecret(sch: Schema, a: Attribute, b: Attribute)
  {
    && a.name == b.name
    && (if NamesSecret(sch, a.name) then AlikeSecrets(a.values, b.values) else a.values == b.values)
  }

  /** As many values, each in the same scheme or in none. */
  ghost predicate AlikeSecrets(a: seq<string>, b: seq<string>)
  {
    |a| == |b| && forall i: nat, scheme :: i < |a| ==> (HasScheme(a[i], scheme) <==> HasScheme(b[i], scheme))
  }

  lemma AlikeSchemes(a: seq<string>, b: seq<string>)
    requires AlikeSecrets(a, b)
    ensures Schemes(a) == Schemes(b)
  {
    forall i: nat | i < |a|
      ensures Scheme(a[i]) == Scheme(b[i])
    {
      if Scheme(a[i]) != [] {
        SchemeIff(a[i], Scheme(a[i]));
        SchemeIff(b[i], Scheme(a[i]));
      } else if Scheme(b[i]) != [] {
        SchemeIff(a[i], Scheme(b[i]));
        SchemeIff(b[i], Scheme(b[i]));
      }
    }
  }

  lemma {:induction false} ValuesAlike(sch: Schema, a: seq<Attribute>, b: seq<Attribute>, name: Name)
    requires |a| == |b| && forall i: nat :: i < |a| ==> AlikeButSecret(sch, a[i], b[i])
    ensures AlikeButSecret(sch, Attribute(name, ValuesIn(a, name)), Attribute(name, ValuesIn(b, name)))
  {
    if a != [] {
      assert AlikeButSecret(sch, a[0], b[0]);
      ValuesAlike(sch, a[1..], b[1..], name);
    }
  }

  lemma RowHidesSecrets(sch: Schema, l: Entry, r: Entry, m: Entry, s: Entry, name: Name, limit: nat)
    requires SameButSecrets(sch, l, m) && SameButSecrets(sch, r, s)
    ensures CompareOne(sch, l, r, name, limit) == CompareOne(sch, m, s, name, limit)
  {
    ValuesAlike(sch, l.attributes, m.attributes, name);
    ValuesAlike(sch, r.attributes, s.attributes, name);
    var lv, rv, mv, sv := ValuesOf(l, name), ValuesOf(r, name), ValuesOf(m, name), ValuesOf(s, name);
    SecretIff(sch, name);
    if NamesSecret(sch, name) {
      AlikeSchemes(lv, mv);
      AlikeSchemes(rv, sv);
    }
  }

  lemma SameNamed(sch: Schema, e: Entry, f: Entry, name: Name)
    requires SameButSecrets(sch, e, f) && exists a :: a in e.attributes && a.name == name
    ensures exists a :: a in f.attributes && a.name == name
  {
    var a :| a in e.attributes && a.name == name;
    var i: nat :| i < |e.attributes| && e.attributes[i] == a;
    assert AlikeButSecret(sch, e.attributes[i], f.attributes[i]);
    assert f.attributes[i] in f.attributes;
  }

  lemma AlikeBack(sch: Schema, e: Entry, f: Entry)
    requires SameButSecrets(sch, e, f)
    ensures SameButSecrets(sch, f, e)
  {
    forall i: nat | i < |e.attributes|
      ensures AlikeButSecret(sch, f.attributes[i], e.attributes[i])
    {
      assert AlikeButSecret(sch, e.attributes[i], f.attributes[i]);
    }
  }

  lemma SameUnion(sch: Schema, l: Entry, r: Entry, m: Entry, s: Entry, name: Name)
    requires SameButSecrets(sch, l, m) && SameButSecrets(sch, r, s) && Named(l, r, name)
    ensures Named(m, s, name)
  {
    if exists a :: a in l.attributes && a.name == name {
      SameNamed(sch, l, m, name);
    } else if exists a :: a in r.attributes && a.name == name {
      SameNamed(sch, r, s, name);
    }
  }

  /** Nothing in a comparison depends on the bytes of a secret. */
  lemma SecretsDoNotShow(sch: Schema, l: Entry, r: Entry, m: Entry, s: Entry, limit: int,
      names: seq<Name>, others: seq<Name>, a: Comparison, b: Comparison)
    requires SameButSecrets(sch, l, m) && SameButSecrets(sch, r, s)
    requires IsComparison(sch, l, r, limit, names, a) && IsComparison(sch, m, s, limit, others, b)
    ensures a == b
  {
    AlikeBack(sch, l, m);
    AlikeBack(sch, r, s);
    forall name
      ensures name in names <==> name in others
    {
      if Named(l, r, name) { SameUnion(sch, l, r, m, s, name); }
      if Named(m, s, name) { SameUnion(sch, m, s, l, r, name); }
    }
    UnionIsUnique(sch, names, others);
    forall i: nat | i < |names|
      ensures a.rows[i] == b.rows[i]
    {
      RowHidesSecrets(sch, l, r, m, s, names[i], Bound(limit));
    }
    assert a.rows == b.rows;
  }

  // ----- the comparison the other way round

  lemma {:induction false} CountsMirror(a: seq<Row>, b: seq<Row>, n: nat)
    requires n <= |a| && n <= |b| && forall i: nat :: i < n ==> b[i].status == Mirror(a[i].status)
    ensures var c, d := CountsOf(a, n), CountsOf(b, n);
      d == c.(leftOnly := c.rightOnly, rightOnly := c.leftOnly)
  {
    if n > 0 {
      CountsMirror(a, b, n - 1);
    }
  }

  lemma SameNamesBack(sch: Schema, left: Entry, right: Entry, names: seq<Name>, others: seq<Name>)
    requires IsUnion(sch, left, right, names) && IsUnion(sch, right, left, others)
    ensures names == others
  {
    assert forall name :: Named(left, right, name) <==> Named(right, left, name);
    UnionIsUnique(sch, names, others);
  }

  /** Exchanging the entries gives the same attributes in the same order, with every status and count mirrored. */
  lemma ComparisonMirrors(sch: Schema, left: Entry, right: Entry, limit: int,
      names: seq<Name>, others: seq<Name>, a: Comparison, b: Comparison)
    requires IsComparison(sch, left, right, limit, names, a) && IsComparison(sch, right, left, limit, others, b)
    ensures names == others
    ensures forall i: nat :: i < |names| ==> b.rows[i].name == a.rows[i].name == names[i]
    ensures forall i: nat :: i < |names| ==> b.rows[i].status == Mirror(a.rows[i].status)
    ensures b.counts == a.counts.(leftOnly := a.counts.rightOnly, rightOnly := a.counts.leftOnly)
  {
    SameNamesBack(sch, left, right, names, others);
    forall i: nat | i < |names|
      ensures b.rows[i].name == a.rows[i].name == names[i] && b.rows[i].status == Mirror(a.rows[i].status)
    {
      RowMirrors(sch, left, right, names[i], Bound(limit));
    }
    CountsMirror(a.rows, b.rows, |names|);
  }

  /** The listing of some attribute that is not a secret is longer than the limit, seen from this side. */
  ghost predicate SomeLonger(sch: Schema, left: Entry, right: Entry, names: seq<Name>, limit: nat)
  {
    exists i: nat :: i < |names| && Longer(sch, left, right, names[i], limit)
  }

  predicate Longer(sch: Schema, left: Entry, right: Entry, name: Name, limit: nat)
  {
    !IsSensitive(sch, name) &&
    ListingSize(KeysOf(sch, name, ValuesOf(left, name)), KeysOf(sch, name, ValuesOf(right, name))) > limit
  }

  lemma RowCutIff(sch: Schema, left: Entry, right: Entry, name: Name, limit: nat)
    ensures CompareOne(sch, left, right, name, limit).truncated <==> Longer(sch, left, right, name, limit)
  {
    var lv, rv := ValuesOf(left, name), ValuesOf(right, name);
    LengthMirrors(lv, rv, KeysOf(sch, name, lv), KeysOf(sch, name, rv));
  }

  lemma SomeCutIff(sch: Schema, left: Entry, right: Entry, limit: int, names: seq<Name>, a: Comparison)
    requires IsComparison(sch, left, right, limit, names, a)
    ensures a.truncated <==> SomeLonger(sch, left, right, names, Bound(limit))
  {
    forall i: nat | i < |names|
      ensures a.rows[i].truncated <==> Longer(sch, left, right, names[i], Bound(limit))
    {
      RowCutIff(sch, left, right, names[i], Bound(limit));
    }
    if a.truncated {
      var i: nat :| i < |a.rows| && a.rows[i].truncated;
      assert Longer(sch, left, right, names[i], Bound(limit));
    }
    if SomeLonger(sch, left, right, names, Bound(limit)) {
      var i: nat :| i < |names| && Longer(sch, left, right, names[i], Bound(limit));
      assert a.rows[i].truncated;
    }
  }

  /**
   Whether anything was cut short is the same either way exactly when, from both sides or
   from neither, the number of left keys and of right keys the left side does not share
   passes the limit for some attribute.
   */
  lemma CutMirrorsIff(sch: Schema, left: Entry, right: Entry, limit: int,
      names: seq<Name>, others: seq<Name>, a: Comparison, b: Comparison)
    requires IsComparison(sch, left, right, limit, names, a) && IsComparison(sch, right, left, limit, others, b)
    ensures a.truncated == b.truncated <==>
      (SomeLonger(sch, left, right, names, Bound(limit)) <==> SomeLonger(sch, right, left, names, Bound(limit)))
  {
    SameNamesBack(sch, left, right, names, others);
    SomeCutIff(sch, left, right, limit, names, a);
    SomeCutIff(sch, right, left, limit, others, b);
  }

  /** Whether anything was cut short is the same either way, where no entry holds one key twice. */
  lemma CutMirrors(sch: Schema, left: Entry, right: Entry, limit: int,
      names: seq<Name>, others: seq<Name>, a: Comparison, b: Comparison)
    requires IsComparison(sch, left, right, limit, names, a) && IsComparison(sch, right, left, limit, others, b)
    requires forall name :: name in names ==> DistinctKeys(sch, left, name) && DistinctKeys(sch, right, name)
    ensures a.truncated == b.truncated
  {
    SameNamesBack(sch, left, right, names, others);
    forall i: nat | i < |names|
      ensures a.rows[i].truncated == b.rows[i].truncated
    {
      RowMirrors(sch, left, right, names[i], Bound(limit));
    }
  }

  // ----- one-sided rows

  /** What asking the server about an attribute said. */
  datatype Probe = ProbeFailed | Absent | Denied

  function Asked(probes: map<Name, Probe>, name: Name): Probe
  {
    if name in probes then probes[name] else ProbeFailed
  }

  predicate OneSided(row: Row)
  {
    row.status.LeftOnly? || row.status.RightOnly?
  }

  function OneSidedIn(rows: seq<Row>, n: nat): (count: nat)
    requires n <= |rows|
    ensures count <= n
  {
    if n == 0 then 0 else OneSidedIn(rows, n - 1) + if OneSided(rows[n - 1]) then 1 else 0
  }

  /** The row once its missing side turned out to be one that may not be read. */
  function Unsettled(row: Row): Row
    requires OneSided(row)
  {
    if row.status.LeftOnly? then row.(status := Undetermined, right := row.right.(denied := true))
    else row.(status := Undetermined, left := row.left.(denied := true))
  }

  /** The `i`th row afterwards: changed only where it is one of the first one-sided rows, and denied. */
  function Settled(rows: seq<Row>, probes: map<Name, Probe>, i: nat): Row
    requires i < |rows|
  {
    if OneSided(rows[i]) && OneSidedIn(rows, i) < MAX_PROBES && Asked(probes, rows[i].name).Denied? then
      Unsettled(rows[i])
    else rows[i]
  }

  function SettledRows(rows: seq<Row>, probes: map<Name, Probe>): (after: seq<Row>)
    ensures |after| == |rows|
  {
    seq(|rows|, i requires 0 <= i < |rows| => Settled(rows, probes, i))
  }

  /** The one-sided rows before the `i`th. */
  function OneSidedBefore(rows: seq<Row>, i: nat): set<nat>
    requires i <= |rows|
  {
    set k: nat | k < i && OneSided(rows[k])
  }

  lemma {:induction false} OneSidedInIs(rows: seq<Row>, i: nat)
    requires i <= |rows|
    ensures OneSidedIn(rows, i) == |OneSidedBefore(rows, i)|
  {
    if i > 0 {
      OneSidedInIs(rows, i - 1);
      assert OneSidedBefore(rows, i) == OneSidedBefore(rows, i - 1) + if OneSided(rows[i - 1]) then {i - 1} else {};
    }
  }

  /**
   Which rows asking changes, and how: one that only one side holds, with fewer than fifty
   such rows before it, whose attribute the server will not show on the side that lacks it.
   That side is then said to be denied, and the row to be undetermined; nothing else changes.
   */
  lemma SettledSays(rows: seq<Row>, probes: map<Name, Probe>, i: nat)
    requires i < |rows|
    ensures var row, after := rows[i], SettledRows(rows, probes)[i];
      var denied := (row.status == LeftOnly || row.status == RightOnly) && |OneSidedBefore(rows, i)| < 50
        && row.name in probes && probes[row.name] == Denied;
      && (!denied ==> after == row)
      && (denied ==> after == row.(status := Undetermined, left := after.left, right := after.right))
      && (denied && row.status == LeftOnly ==> after.left == row.left && after.right == row.right.(denied := true))
      && (denied && row.status == RightOnly ==> after.right == row.right && after.left == row.left.(denied := true))
  {
    OneSidedInIs(rows, i);
  }

  /** How many of the first `n` rows have changed. */
  function Changed(rows: seq<Row>, after: seq<Row>, n: nat): nat
    requires n <= |rows| == |after|
  {
    if n == 0 then 0 else Changed(rows, after, n - 1) + if rows[n - 1] != after[n - 1] then 1 else 0
  }

  lemma {:induction false} OneSidedGrows(rows: seq<Row>, k: nat, n: nat)
    requires k <= n <= |rows|
    ensures OneSidedIn(rows, k) <= OneSidedIn(rows, n)
  {
    if k < n {
      OneSidedGrows(rows, k, n - 1);
    }
  }

  /** Past the last question nothing changes any more. */
  lemma {:induction false} RestUnchanged(rows: seq<Row>, probes: map<Name, Probe>, k: nat, n: nat)
    requires k <= n <= |rows| && OneSidedIn(rows, k) >= MAX_PROBES
    ensures Changed(rows, SettledRows(rows, probes), n) == Changed(rows, SettledRows(rows, probes), k)
    ensures forall i: nat :: k <= i < n ==> SettledRows(rows, probes)[i] == rows[i]
  {
    if k < n {
      RestUnchanged(rows, probes, k, n - 1);
      OneSidedGrows(rows, k, n - 1);
    }
  }

  lemma NoMoreAsked(rows: seq<Row>, probes: map<Name, Probe>, k: nat)
    requires k < |rows| && OneSided(rows[k]) && OneSidedIn(rows, k) >= MAX_PROBES
    ensures OneSidedIn(rows, |rows|) > MAX_PROBES
    ensures Changed(rows, SettledRows(rows, probes), |rows|) == Changed(rows, SettledRows(rows, probes), k)
    ensures forall i: nat :: k <= i < |rows| ==> SettledRows(rows, probes)[i] == rows[i]
  {
    RestUnchanged(rows, probes, k, |rows|);
    OneSidedGrows(rows, k + 1, |rows|);
  }

  /** Asks about the one-sided rows, a bounded number of them, and marks in place those that cannot be told. */
  method ResolveOneSided(rows: array<Row>, probes: map<Name, Probe>)
    returns (resolved: nat, truncated: bool, ghost spent: nat)
    modifies rows
    ensures rows[..] == SettledRows(old(rows[..]), probes)
    ensures resolved == Changed(old(rows[..]), rows[..], rows.Length)
    ensures truncated <==> OneSidedIn(old(rows[..]), rows.Length) > 50
    ensures spent == Min(50, OneSidedIn(old(rows[..]), rows.Length))
  {
    ghost var was := rows[..];
    ghost var after := SettledRows(was, probes);
    var asked := 0;
    resolved := 0;
    for i := 0 to rows.Length
      invariant asked == OneSidedIn(was, i) <= MAX_PROBES
      invariant resolved == Changed(was, after, i)
      invariant forall k: nat :: k < i ==> rows[k] == after[k]
      invariant forall k: nat :: i <= k < rows.Length ==> rows[k] == was[k]
    {
      var row := rows[i];
      if row.status.LeftOnly? || row.status.RightOnly? {
        if asked >= MAX_PROBES {
          NoMoreAsked(was, probes, i);
          return resolved, true, asked;
        }
        asked := asked + 1;
        if Asked(probes, row.name).Denied? {
          rows[i] := Unsettled(row);
          resolved := resolved + 1;
        }
      }
    }
    return resolved, false, asked;
  }

  /** A row stays as it is, or was one-sided and is undetermined now. */
  ghost predicate StaysOrUnsettled(row: Row, after: Row)
  {
    after == row || (OneSided(row) && after.status.Undetermined?)
  }

  /** Settling moves rows from the one-sided buckets to the undetermined one, and changes no other. */
  lemma {:induction false} SettledCounts(rows: seq<Row>, after: seq<Row>, n: nat)
    requires n <= |rows| == |after|
    requires forall i: nat {:trigger StaysOrUnsettled(rows[i], after[i])} :: i < |rows| ==>
      StaysOrUnsettled(rows[i], after[i])
    ensures BucketsMoved(CountsOf(rows, n), CountsOf(after, n), Changed(rows, after, n))
  {
    if n > 0 {
      SettledCounts(rows, after, n - 1);
      assert StaysOrUnsettled(rows[n - 1], after[n - 1]);
      OneMoved(CountsOf(rows, n - 1), CountsOf(after, n - 1), Changed(rows, after, n - 1), rows[n - 1], after[n - 1]);
    }
  }

  /** That many rows went from the one-sided buckets to the undetermined one. */
  predicate BucketsMoved(c: Counts, d: Counts, moved: nat)
  {
    && d.same == c.same && d.differs == c.differs && d.withheld == c.withheld
    && d.leftOnly + d.rightOnly + moved == c.leftOnly + c.rightOnly
    && d.undetermined == c.undetermined + moved
    && (moved == 0 ==> d == c)
    && d.leftOnly <= c.leftOnly && d.rightOnly <= c.rightOnly
  }

  lemma OneMoved(c: Counts, d: Counts, moved: nat, row: Row, after: Row)
    requires BucketsMoved(c, d, moved) && StaysOrUnsettled(row, after)
    ensures BucketsMoved(Counted(c, row.status), Counted(d, after.status), moved + if row != after then 1 else 0)
  {
  }

  lemma EachStaysOrUnsettled(rows: seq<Row>, probes: map<Name, Probe>, i: nat)
    requires i < |rows|
    ensures StaysOrUnsettled(rows[i], SettledRows(rows, probes)[i])
  {
  }

  /** What the answer says of the rows as they were compared first. */
  ghost predicate IsAnswer(first: Comparison, probes: map<Name, Probe>, out: Comparison)
  {
    && out.rows == SettledRows(first.rows, probes)
    && out.counts == CountsOf(out.rows, |out.rows|)
    && Total(out.counts) == |out.rows|
    && BucketsMoved(first.counts, out.counts, Changed(first.rows, out.rows, |out.rows|))
    && (out.truncated <==> first.truncated || OneSidedIn(first.rows, |first.rows|) > MAX_PROBES)
  }

  /** The whole answer: the rows settled as far as may be asked, and the counts of the rows as they are then. */
  method Answer(sch: Schema, left: Entry, right: Entry, limit: int, probes: map<Name, Probe>)
      returns (out: Comparison, first: Comparison, names: seq<Name>)
    ensures IsComparison(sch, left, right, limit, names, first)
    ensures IsAnswer(first, probes, out)
  {
    first, names := CompareEntries(sch, left, right, limit);
    out := Settle(first, probes);
  }

  method Settle(got: Comparison, probes: map<Name, Probe>) returns (out: Comparison)
    requires got.counts == CountsOf(got.rows, |got.rows|)
    ensures IsAnswer(got, probes, out)
  {
    var rows := new Row[|got.rows|](i requires 0 <= i < |got.rows| => got.rows[i]);
    assert rows[..] == got.rows;
    var resolved, probesTruncated, spent := ResolveOneSided(rows, probes);
    forall i: nat {:trigger StaysOrUnsettled(got.rows[i], rows[..][i])} | i < |got.rows|
      ensures StaysOrUnsettled(got.rows[i], rows[..][i])
    {
      EachStaysOrUnsettled(got.rows, probes, i);
    }
    SettledCounts(got.rows, rows[..], |got.rows|);
    CountsPartition(rows[..], |got.rows|);
    var counts := got.counts;
    if resolved > 0 {
      counts := Recount(rows[..]);
    }
    out := Comparison(rows[..], counts, got.truncated || probesTruncated);
  }
}
