/** The smaller and the larger of two numbers, sequences in which nothing comes twice, and places in a sequence. */
module Basics {
  function Min(a: int, b: int): (m: int)
    ensures m == a || m == b
    ensures m <= a && m <= b
  {
    if a < b then a else b
  }

  function Max(a: int, b: int): (m: int)
    ensures m == a || m == b
    ensures m >= a && m >= b
  {
    if a < b then b else a
  }

  ghost predicate NoDuplicates<T>(s: seq<T>)
  {
    forall i: nat, j: nat :: i < j < |s| ==> s[i] != s[j]
  }

  /** The places in the sequence where the test holds. */
  function Places<T(!new)>(s: seq<T>, test: T -> bool): set<nat>
  {
    set i: nat | i < |s| && test(s[i])
  }

  lemma PlacesMore<T(!new)>(s: seq<T>, test: T -> bool)
    requires s != []
    ensures |Places(s, test)| == |Places(s[..|s| - 1], test)| + if test(s[|s| - 1]) then 1 else 0
  {
    var front, n := s[..|s| - 1], |s| - 1;
    forall i: nat | i < n
      ensures i in Places(s, test) <==> i in Places(front, test)
    {
      assert front[i] == s[i];
    }
    assert Places(s, test) == Places(front, test) + if test(s[n]) then {n} else {};
  }

  lemma {:induction false} PlacesFirst<T(!new)>(s: seq<T>, test: T -> bool)
    requires s != []
    ensures |Places(s, test)| == |Places(s[1..], test)| + if test(s[0]) then 1 else 0
  {
    var n := |s| - 1;
    PlacesMore(s, test);
    if n == 0 {
      assert s[..0] == s[1..] == [];
    } else {
      PlacesFirst(s[..n], test);
      PlacesMore(s[1..], test);
      assert s[..n][1..] == s[1..][..n - 1];
    }
  }
}
