/**
 Where the audit searches for a set of names: few bases, none above the naming
 context it is in, which between them still see every name.
 */
module NarrowBases {
  import opened Basics
  import opened Dns

  const MAX_BASES := 50

  datatype Scope = OneLevel | Subtree

  datatype Base = Base(dn: Dn, scope: Scope)

  /** Whether a search of `b` looks at `d` (section 4.5.1.2 of RFC 4511). */
  predicate InScope(d: Dn, b: Base)
  {
    HasSuffix(d, b.dn) && (b.scope.OneLevel? ==> |d| == |b.dn| + 1)
  }

  // ----- naming contexts

  /** The longest context at or above `d`, or the empty DN when there is none. */
  function Context(contexts: seq<Dn>, d: Dn): (c: Dn)
    ensures c == [] || c in contexts
    ensures HasSuffix(d, c)
    ensures forall k: nat :: k < |contexts| && HasSuffix(d, contexts[k]) ==> |contexts[k]| <= |c|
  {
    if contexts == [] then []
    else
      var rest := Context(contexts[..|contexts| - 1], d);
      var last := contexts[|contexts| - 1];
      if HasSuffix(d, last) && |last| > |rest| then last else rest
  }

  method ContextOf(contexts: seq<Dn>, d: Dn) returns (best: Dn)
    ensures best == Context(contexts, d)
  {
    best := [];
    for k := 0 to |contexts|
      invariant best == Context(contexts[..k], d)
    {
      assert contexts[..k + 1][..k] == contexts[..k];
      if HasSuffix(d, contexts[k]) && |contexts[k]| > |best| {
        best := contexts[k];
      }
    }
    assert contexts[..|contexts|] == contexts;
  }

  /** One level up, but never above the context. */
  function Up(contexts: seq<Dn>, d: Dn): Dn
  {
    if |d| <= |Context(contexts, d)| then d else Parent(d)
  }

  /** `b` lies between the name and the innermost context of the name. */
  ghost predicate Between(contexts: seq<Dn>, n: Dn, b: Dn)
  {
    HasSuffix(n, b) && HasSuffix(b, Context(contexts, n))
  }

  lemma UpStaysBetween(contexts: seq<Dn>, n: Dn, b: Dn)
    requires Between(contexts, n, b)
    ensures Between(contexts, n, Up(contexts, b))
    ensures HasSuffix(b, Up(contexts, b))
  {
    ParentIsSuffix(b);
    if |b| > |Context(contexts, b)| {
      var c := Context(contexts, n);
      if c != [] {
        var k: nat :| k < |contexts| && contexts[k] == c;
        assert |c| <= |Context(contexts, b)|;
      }
      ParentStaysBelow(b, c);
      SuffixTrans(n, b, Parent(b));
    }
  }

  // ----- the outermost of a list of DNs

  /** The `j`th DN makes the `i`th redundant: it is above it, or the same one earlier. */
  predicate CoveredBy(dns: seq<Dn>, i: nat, j: nat)
    requires i < |dns| && j < |dns|
  {
    j != i && HasSuffix(dns[i], dns[j]) && (|dns[j]| < |dns[i]| || j < i)
  }

  ghost predicate Covered(dns: seq<Dn>, i: nat)
    requires i < |dns|
  {
    exists j: nat :: j < |dns| && CoveredBy(dns, i, j)
  }

  ghost function Outer(dns: seq<Dn>, k: nat): seq<Dn>
    requires k <= |dns|
  {
    if k == 0 then []
    else if Covered(dns, k - 1) then Outer(dns, k - 1)
    else Outer(dns, k - 1) + [dns[k - 1]]
  }

  method Outermost(dns: seq<Dn>) returns (out: seq<Dn>)
    ensures out == Outer(dns, |dns|)
  {
    out := [];
    for i := 0 to |dns|
      invariant out == Outer(dns, i)
    {
      var covered := false;
      for j := 0 to |dns|
        invariant !covered
        invariant forall m: nat :: m < j ==> !CoveredBy(dns, i, m)
      {
        if i == j {
          continue;
        }
        if HasSuffix(dns[i], dns[j]) && (|dns[j]| < |dns[i]| || j < i) {
          assert CoveredBy(dns, i, j);
          covered := true;
          break;
        }
      }
      if !covered {
        out := out + [dns[i]];
      }
    }
  }

  ghost predicate Kept(dns: seq<Dn>, i: nat)
  {
    i < |dns| && !Covered(dns, i)
  }

  /** The list keeps exactly the DNs that nothing makes redundant. */
  lemma {:induction false} OuterMembers(dns: seq<Dn>, k: nat, d: Dn)
    requires k <= |dns|
    ensures d in Outer(dns, k) <==> exists i: nat :: i < k && Kept(dns, i) && dns[i] == d
  {
    if k > 0 {
      OuterMembers(dns, k - 1, d);
      if Kept(dns, k - 1) {
        assert d in Outer(dns, k) <==> d in Outer(dns, k - 1) || d == dns[k - 1];
      }
    }
  }

  /** No DN is lost: one at or above it is kept. */
  lemma {:induction false} OuterCovers(dns: seq<Dn>, i: nat)
    requires i < |dns|
    ensures exists o :: o in Outer(dns, |dns|) && HasSuffix(dns[i], o)
    decreases |dns[i]|, i
  {
    if Covered(dns, i) {
      var j: nat :| j < |dns| && CoveredBy(dns, i, j);
      OuterCovers(dns, j);
      var o :| o in Outer(dns, |dns|) && HasSuffix(dns[j], o);
      SuffixTrans(dns[i], dns[j], o);
    } else {
      OuterMembers(dns, |dns|, dns[i]);
      assert Kept(dns, i);
      ParentIsSuffix(dns[i]);
    }
  }

  /** No DN of the list is at or below another of it. */
  ghost predicate Apart(dns: seq<Dn>)
  {
    forall i: nat, j: nat :: i < |dns| && j < |dns| && i != j ==> !HasSuffix(dns[i], dns[j])
  }

  lemma {:induction false} OuterApart(dns: seq<Dn>, k: nat)
    requires k <= |dns|
    ensures Apart(Outer(dns, k))
  {
    if k > 0 {
      OuterApart(dns, k - 1);
      if !Covered(dns, k - 1) {
        var outer := Outer(dns, k - 1);
        forall m: nat | m < |outer|
          ensures !HasSuffix(outer[m], dns[k - 1]) && !HasSuffix(dns[k - 1], outer[m])
        {
          OuterMembers(dns, k - 1, outer[m]);
          var i: nat :| i < k - 1 && Kept(dns, i) && dns[i] == outer[m];
          assert !CoveredBy(dns, i, k - 1) && !CoveredBy(dns, k - 1, i);
        }
      }
    }
  }

  // ----- why narrowing ends

  ghost function Total(dns: seq<Dn>): nat
  {
    if dns == [] then 0 else Total(dns[..|dns| - 1]) + |dns[|dns| - 1]|
  }

  lemma {:induction false} OuterTotal(dns: seq<Dn>, k: nat)
    requires k <= |dns|
    ensures Total(Outer(dns, k)) <= Total(dns[..k])
  {
    if k > 0 {
      OuterTotal(dns, k - 1);
      assert dns[..k][..k - 1] == dns[..k - 1];
      if !Covered(dns, k - 1) {
        assert Outer(dns, k)[..|Outer(dns, k)| - 1] == Outer(dns, k - 1);
      }
    }
  }

  /** Replacing DNs by shorter ones makes the total fall. */
  lemma {:induction false} TotalFalls(a: seq<Dn>, b: seq<Dn>)
    requires |a| == |b| && forall i: nat :: i < |a| ==> |b[i]| <= |a[i]|
    ensures Total(b) <= Total(a)
    ensures (exists i: nat :: i < |a| && |b[i]| < |a[i]|) ==> Total(b) < Total(a)
  {
    if a != [] {
      TotalFalls(a[..|a| - 1], b[..|b| - 1]);
    }
  }

  // ----- narrowing

  ghost predicate SeenFrom(bases: seq<Dn>, n: Dn)
  {
    exists b :: b in bases && HasSuffix(n, b)
  }

  ghost predicate IsFor(names: seq<Dn>, contexts: seq<Dn>, b: Dn)
  {
    exists n :: n in names && Between(contexts, n, b)
  }

  /** The bases still see every name, and each lies between some name and its context. */
  ghost predicate Sees(names: seq<Dn>, contexts: seq<Dn>, bases: seq<Dn>)
  {
    && (forall n {:trigger SeenFrom(bases, n)} :: n in names ==> SeenFrom(bases, n))
    && (forall b {:trigger IsFor(names, contexts, b)} :: b in bases ==> IsFor(names, contexts, b))
  }

  lemma OuterSees(names: seq<Dn>, contexts: seq<Dn>, bases: seq<Dn>)
    requires Sees(names, contexts, bases)
    ensures Sees(names, contexts, Outer(bases, |bases|))
  {
    var outer := Outer(bases, |bases|);
    forall n {:trigger SeenFrom(outer, n)} | n in names
      ensures SeenFrom(outer, n)
    {
      assert SeenFrom(bases, n);
      var b :| b in bases && HasSuffix(n, b);
      var i: nat :| i < |bases| && bases[i] == b;
      OuterCovers(bases, i);
      var o :| o in outer && HasSuffix(b, o);
      SuffixTrans(n, b, o);
    }
    forall o {:trigger IsFor(names, contexts, o)} | o in outer
      ensures IsFor(names, contexts, o)
    {
      OuterMembers(bases, |bases|, o);
      assert o in bases;
    }
  }

  /** Each of the bases is where it was, or one level up. */
  ghost predicate MovedUp(contexts: seq<Dn>, bases: seq<Dn>, moved: seq<Dn>)
  {
    && |moved| == |bases|
    && forall i: nat :: i < |bases| ==> moved[i] == bases[i] || moved[i] == Up(contexts, bases[i])
  }

  lemma MovedSeesName(contexts: seq<Dn>, bases: seq<Dn>, moved: seq<Dn>, n: Dn)
    requires MovedUp(contexts, bases, moved) && SeenFrom(bases, n)
    ensures SeenFrom(moved, n)
  {
    var b :| b in bases && HasSuffix(n, b);
    var i: nat :| i < |bases| && bases[i] == b;
    ParentIsSuffix(b);
    SuffixTrans(n, b, moved[i]);
    assert moved[i] in moved;
  }

  lemma MovedIsFor(names: seq<Dn>, contexts: seq<Dn>, bases: seq<Dn>, moved: seq<Dn>, i: nat)
    requires MovedUp(contexts, bases, moved) && i < |bases| && IsFor(names, contexts, bases[i])
    ensures IsFor(names, contexts, moved[i])
  {
    var n :| n in names && Between(contexts, n, bases[i]);
    UpStaysBetween(contexts, n, bases[i]);
    assert Between(contexts, n, moved[i]);
  }

  /** Moving some of the bases up keeps every name in sight. */
  lemma UpSees(names: seq<Dn>, contexts: seq<Dn>, bases: seq<Dn>, moved: seq<Dn>)
    requires Sees(names, contexts, bases) && MovedUp(contexts, bases, moved)
    ensures Sees(names, contexts, moved)
  {
    forall n {:trigger SeenFrom(moved, n)} | n in names
      ensures SeenFrom(moved, n)
    {
      MovedSeesName(contexts, bases, moved, n);
    }
    forall m {:trigger IsFor(names, contexts, m)} | m in moved
      ensures IsFor(names, contexts, m)
    {
      var i: nat :| i < |moved| && moved[i] == m;
      assert bases[i] in bases && IsFor(names, contexts, bases[i]);
      MovedIsFor(names, contexts, bases, moved, i);
    }
  }

  /** Bases that cannot be moved up any more are naming contexts, each once. */
  lemma ContextsBoundBases(contexts: seq<Dn>, bases: seq<Dn>)
    requires Apart(bases) && |bases| > 1
    requires forall b :: b in bases ==> !Below(contexts, b)
    ensures |bases| <= |contexts|
  {
    forall i: nat | i < |bases|
      ensures bases[i] in contexts
    {
      var b := bases[i];
      assert b in bases;
      assert Context(contexts, b) == b;
      if b == [] {
        var other := if i == 0 then 1 else 0;
        assert HasSuffix(bases[other], bases[i]);
      }
    }
    assert forall i: nat, j: nat :: i < j < |bases| ==> bases[i] != bases[j] by {
      forall i: nat, j: nat | i < j < |bases|
        ensures bases[i] != bases[j]
      {
        ParentIsSuffix(bases[i]);
      }
    }
    DistinctWithin(bases, contexts);
  }

  lemma {:induction false} DistinctWithin(a: seq<Dn>, b: seq<Dn>)
    requires forall i: nat :: i < |a| ==> a[i] in b
    requires forall i: nat, j: nat :: i < j < |a| ==> a[i] != a[j]
    ensures |a| <= |b|
  {
    if a != [] {
      var k: nat :| k < |b| && b[k] == a[0];
      var rest := b[..k] + b[k + 1..];
      forall i: nat | i < |a| - 1
        ensures a[1..][i] in rest
      {
        assert a[1..][i] in b && a[1..][i] != a[0];
      }
      DistinctWithin(a[1..], rest);
    }
  }

  ghost predicate InSomeScope(bases: seq<Base>, n: Dn)
  {
    exists k: nat :: k < |bases| && InScope(n, bases[k])
  }

  /** Every name at or below the base is a child of it. */
  ghost predicate OnlyChildren(names: seq<Dn>, b: Dn)
  {
    forall n :: n in names && HasSuffix(n, b) ==> Parent(n) == b
  }

  /**
   Everything asked of the bases: every name is in the scope of one of them; none rises
   above the context of some name it is for; none is at or below another; a base is
   searched one level down exactly when every name under it is a child of it; and there
   are few of them.
   */
  ghost predicate Narrowed(names: seq<Dn>, contexts: seq<Dn>, out: seq<Base>)
  {
    && (forall n {:trigger InSomeScope(out, n)} :: n in names && n != [] ==> InSomeScope(out, n))
    && (forall k: nat :: k < |out| ==> IsFor(names, contexts, out[k].dn))
    && (forall i: nat, j: nat :: i < |out| && j < |out| && i != j ==> !HasSuffix(out[i].dn, out[j].dn))
    && (forall k: nat :: k < |out| ==> (out[k].scope.OneLevel? <==> OnlyChildren(names, out[k].dn)))
    && (|out| <= MAX_BASES || |out| <= |contexts|)
  }

  // ----- narrowing, step by step

  /** The base can still be moved up. */
  predicate Below(contexts: seq<Dn>, b: Dn)
  {
    |b| > |Context(contexts, b)|
  }

  /** The length of the deepest base that can be moved up, or 0 when none can. */
  function DeepestOf(contexts: seq<Dn>, bases: seq<Dn>): nat
  {
    if bases == [] then 0
    else
      var rest := DeepestOf(contexts, bases[..|bases| - 1]);
      var b := bases[|bases| - 1];
      if Below(contexts, b) && |b| > rest then |b| else rest
  }

  /** The base can be moved up, and is of that length. */
  predicate Movable(contexts: seq<Dn>, b: Dn, length: nat)
  {
    |b| == length && Below(contexts, b)
  }

  lemma {:induction false} DeepestIs(contexts: seq<Dn>, bases: seq<Dn>)
    ensures forall b :: b in bases && Below(contexts, b) ==> |b| <= DeepestOf(contexts, bases)
    ensures DeepestOf(contexts, bases) > 0 ==>
      exists k: nat :: k < |bases| && Movable(contexts, bases[k], DeepestOf(contexts, bases))
  {
    if bases != [] {
      var rest, b := bases[..|bases| - 1], bases[|bases| - 1];
      DeepestIs(contexts, rest);
      assert bases == rest + [b];
      var deepest := DeepestOf(contexts, bases);
      if deepest > 0 {
        if DeepestOf(contexts, rest) == deepest {
          var k: nat :| k < |rest| && Movable(contexts, rest[k], deepest);
          assert Movable(contexts, bases[k], deepest);
        } else {
          assert Movable(contexts, bases[|bases| - 1], deepest);
        }
      }
    }
  }

  /** The bases of this length one level up, the others where they are. */
  function MovedFrom(contexts: seq<Dn>, bases: seq<Dn>, deepest: nat): (moved: seq<Dn>)
    ensures |moved| == |bases|
    ensures forall i: nat :: i < |bases| ==>
      moved[i] == if |bases[i]| == deepest then Up(contexts, bases[i]) else bases[i]
  {
    seq(|bases|, i requires 0 <= i < |bases| => if |bases[i]| == deepest then Up(contexts, bases[i]) else bases[i])
  }

  /** There are few enough of them, or none can be moved up. */
  predicate Stops(contexts: seq<Dn>, bases: seq<Dn>)
  {
    |bases| <= MAX_BASES || DeepestOf(contexts, bases) == 0
  }

  /** While more than fifty are left, the deepest go one level up, and the outermost of them all are kept. */
  ghost function Climb(contexts: seq<Dn>, bases: seq<Dn>): seq<Dn>
    decreases Total(bases)
  {
    if Stops(contexts, bases) then bases
    else
      ClimbFalls(contexts, bases);
      Climb(contexts, OneUp(contexts, bases))
  }

  ghost function OneUp(contexts: seq<Dn>, bases: seq<Dn>): seq<Dn>
  {
    var moved := MovedFrom(contexts, bases, DeepestOf(contexts, bases));
    Outer(moved, |moved|)
  }

  lemma ClimbFalls(contexts: seq<Dn>, bases: seq<Dn>)
    requires DeepestOf(contexts, bases) > 0
    ensures Total(OneUp(contexts, bases)) < Total(bases)
  {
    var moved := MovedFrom(contexts, bases, DeepestOf(contexts, bases));
    DeepestIs(contexts, bases);
    TotalFalls(bases, moved);
    OuterTotal(moved, |moved|);
    assert moved[..|moved|] == moved;
  }

  /** The parents of the names, or the names themselves where they are contexts. */
  function ParentsOf(names: seq<Dn>, contexts: seq<Dn>): (parents: seq<Dn>)
    ensures |parents| == |names| && forall k: nat :: k < |names| ==> parents[k] == Up(contexts, names[k])
  {
    seq(|names|, k requires 0 <= k < |names| => Up(contexts, names[k]))
  }

  ghost function BaseDns(names: seq<Dn>, contexts: seq<Dn>): seq<Dn>
  {
    var parents := ParentsOf(names, contexts);
    Climb(contexts, Outer(parents, |parents|))
  }

  /** The searches made for these names, in order. */
  ghost function Bases(names: seq<Dn>, contexts: seq<Dn>): (bases: seq<Base>)
  {
    WithScopesOf(names, BaseDns(names, contexts))
  }

  ghost function WithScopesOf(names: seq<Dn>, dns: seq<Dn>): (bases: seq<Base>)
    ensures |bases| == |dns|
    ensures forall k: nat :: k < |dns| ==> bases[k] == Base(dns[k], ScopeOf(names, dns[k]))
  {
    seq(|dns|, k requires 0 <= k < |dns| => Base(dns[k], ScopeOf(names, dns[k])))
  }

  ghost function ScopeOf(names: seq<Dn>, b: Dn): Scope
  {
    if OnlyChildren(names, b) then OneLevel else Subtree
  }

  method Deepest(contexts: seq<Dn>, bases: seq<Dn>) returns (deepest: nat)
    ensures deepest == DeepestOf(contexts, bases)
  {
    deepest := 0;
    for i := 0 to |bases|
      invariant deepest == DeepestOf(contexts, bases[..i])
    {
      assert bases[..i + 1][..i] == bases[..i];
      var b := bases[i];
      var c := ContextOf(contexts, b);
      if |b| > |c| && |b| > deepest {
        deepest := |b|;
      }
    }
    assert bases[..|bases|] == bases;
  }

  method MoveUp(contexts: seq<Dn>, bases: seq<Dn>, deepest: nat) returns (moved: seq<Dn>)
    ensures moved == MovedFrom(contexts, bases, deepest)
  {
    moved := bases;
    for i := 0 to |bases|
      invariant |moved| == |bases|
      invariant forall k: nat :: k < |bases| ==>
        moved[k] == if k < i && |bases[k]| == deepest then Up(contexts, bases[k]) else bases[k]
    {
      if |moved[i]| == deepest {
        var c := ContextOf(contexts, moved[i]);
        moved := moved[i := if |moved[i]| <= |c| then moved[i] else Parent(moved[i])];
      }
    }
  }

  /** The loop of narrowBases: up and merge until few enough are left. */
  method Merge(contexts: seq<Dn>, parents: seq<Dn>) returns (bases: seq<Dn>)
    ensures bases == Climb(contexts, Outer(parents, |parents|))
  {
    bases := Outermost(parents);
    while |bases| > MAX_BASES
      invariant Climb(contexts, bases) == Climb(contexts, Outer(parents, |parents|))
      decreases Total(bases)
    {
      var deepest := Deepest(contexts, bases);
      if deepest == 0 {
        break;
      }
      ClimbFalls(contexts, bases);
      var moved := MoveUp(contexts, bases, deepest);
      bases := Outermost(moved);
    }
  }

  /** One level when every name at or below the base is a child of it. */
  method ScopeFor(names: seq<Dn>, b: Dn) returns (scope: Scope)
    ensures scope == ScopeOf(names, b)
  {
    scope := OneLevel;
    for k := 0 to |names|
      invariant scope.OneLevel?
      invariant forall n :: n in names[..k] && HasSuffix(n, b) ==> Parent(n) == b
    {
      assert names[..k + 1] == names[..k] + [names[k]];
      if HasSuffix(names[k], b) && Parent(names[k]) != b {
        return Subtree;
      }
    }
    assert names[..|names|] == names;
  }

  method ParentsFor(names: seq<Dn>, contexts: seq<Dn>) returns (parents: seq<Dn>)
    ensures parents == ParentsOf(names, contexts)
  {
    parents := [];
    for i := 0 to |names|
      invariant |parents| == i && forall k: nat :: k < i ==> parents[k] == Up(contexts, names[k])
    {
      var c := ContextOf(contexts, names[i]);
      parents := parents + [if |names[i]| <= |c| then names[i] else Parent(names[i])];
    }
  }

  method Narrow(names: seq<Dn>, contexts: seq<Dn>) returns (out: seq<Base>)
    ensures out == Bases(names, contexts) && Narrowed(names, contexts, out)
  {
    var parents := ParentsFor(names, contexts);
    var bases := Merge(contexts, parents);
    out := WithScopes(names, bases);
    BasesNarrowed(names, contexts);
  }

  method WithScopes(names: seq<Dn>, bases: seq<Dn>) returns (out: seq<Base>)
    ensures out == WithScopesOf(names, bases)
  {
    out := [];
    for i := 0 to |bases|
      invariant out == WithScopesOf(names, bases)[..i]
    {
      var scope := ScopeFor(names, bases[i]);
      out := out + [Base(bases[i], scope)];
    }
  }

  // ----- what these searches are good for

  lemma {:induction false} ClimbSees(names: seq<Dn>, contexts: seq<Dn>, bases: seq<Dn>)
    requires Sees(names, contexts, bases) && Apart(bases)
    ensures Sees(names, contexts, Climb(contexts, bases)) && Apart(Climb(contexts, bases))
    ensures |Climb(contexts, bases)| <= MAX_BASES || |Climb(contexts, bases)| <= |contexts|
    decreases Total(bases)
  {
    if |bases| <= MAX_BASES {
    } else if DeepestOf(contexts, bases) == 0 {
      DeepestIs(contexts, bases);
      ContextsBoundBases(contexts, bases);
    } else {
      var moved := MovedFrom(contexts, bases, DeepestOf(contexts, bases));
      UpSees(names, contexts, bases, moved);
      OuterSees(names, contexts, moved);
      OuterApart(moved, |moved|);
      ClimbFalls(contexts, bases);
      ClimbSees(names, contexts, OneUp(contexts, bases));
    }
  }

  lemma ScopeSees(names: seq<Dn>, bases: seq<Dn>, n: Dn)
    requires SeenFrom(bases, n) && n in names && n != []
    ensures InSomeScope(WithScopesOf(names, bases), n)
  {
    var b :| b in bases && HasSuffix(n, b);
    var k: nat :| k < |bases| && bases[k] == b;
    assert InScope(n, WithScopesOf(names, bases)[k]);
  }

  lemma BasesNarrowed(names: seq<Dn>, contexts: seq<Dn>)
    ensures Narrowed(names, contexts, Bases(names, contexts))
  {
    var parents := ParentsOf(names, contexts);
    ParentsSee(names, contexts, parents);
    OuterSees(names, contexts, parents);
    OuterApart(parents, |parents|);
    ClimbSees(names, contexts, Outer(parents, |parents|));
    var bases, out := BaseDns(names, contexts), Bases(names, contexts);
    forall n {:trigger InSomeScope(out, n)} | n in names && n != []
      ensures InSomeScope(out, n)
    {
      assert SeenFrom(bases, n);
      ScopeSees(names, bases, n);
    }
    forall k: nat | k < |out|
      ensures IsFor(names, contexts, out[k].dn)
    {
      assert bases[k] in bases;
    }
  }

  lemma ParentsSee(names: seq<Dn>, contexts: seq<Dn>, parents: seq<Dn>)
    requires |parents| == |names| && forall k: nat :: k < |names| ==> parents[k] == Up(contexts, names[k])
    ensures Sees(names, contexts, parents)
  {
    forall n | n in names
      ensures SeenFrom(names, n) && IsFor(names, contexts, n)
    {
      ParentIsSuffix(n);
      assert Between(contexts, n, n);
    }
    UpSees(names, contexts, names, parents);
  }

  // ----- which searches they are

  /** The part of `d` that is `depth` levels long, or as long as its context when that is longer. */
  function CutTo(contexts: seq<Dn>, d: Dn, depth: nat): (c: Dn)
    ensures HasSuffix(d, c)
    ensures |c| == Min(|d|, Max(depth, |Context(contexts, d)|))
  {
    var least := Max(depth, |Context(contexts, d)|);
    if |d| <= least then d else d[|d| - least..]
  }

  function CutAll(contexts: seq<Dn>, dns: seq<Dn>, depth: nat): (cut: seq<Dn>)
    ensures |cut| == |dns| && forall k: nat :: k < |dns| ==> cut[k] == CutTo(contexts, dns[k], depth)
  {
    seq(|dns|, k requires 0 <= k < |dns| => CutTo(contexts, dns[k], depth))
  }

  /** The outermost of these DNs, each cut to that depth. */
  ghost function OuterCut(contexts: seq<Dn>, dns: seq<Dn>, depth: nat): seq<Dn>
  {
    Outer(CutAll(contexts, dns, depth), |dns|)
  }

  ghost predicate SameDns(a: seq<Dn>, b: seq<Dn>)
  {
    forall d :: d in a <==> d in b
  }

  /**
   The bases are the outermost of the parents cut to that depth: to leave more of them leaves
   the same or too many, and there are still too many only when nothing is left to cut.
   */
  ghost predicate CutAt(contexts: seq<Dn>, parents: seq<Dn>, bases: seq<Dn>, depth: nat)
  {
    && SameDns(bases, OuterCut(contexts, parents, depth))
    && (|bases| <= 50 || depth == 0)
    && NoneBetter(contexts, parents, bases, depth)
  }

  ghost predicate NoneBetter(contexts: seq<Dn>, parents: seq<Dn>, bases: seq<Dn>, depth: nat)
  {
    forall deeper: nat :: deeper > depth ==> NoBetter(contexts, parents, bases, deeper)
  }

  ghost predicate NoBetter(contexts: seq<Dn>, parents: seq<Dn>, bases: seq<Dn>, depth: nat)
  {
    |OuterCut(contexts, parents, depth)| > 50 || SameDns(bases, OuterCut(contexts, parents, depth))
  }

  /** Nothing in the list is above this DN of the list. */
  ghost predicate Outmost(dns: seq<Dn>, d: Dn)
  {
    d in dns && forall e :: e in dns && HasSuffix(d, e) ==> e == d
  }

  lemma AboveEachOther(d: Dn, e: Dn)
    requires HasSuffix(d, e) && HasSuffix(e, d)
    ensures d == e
  {
  }

  lemma OuterIsOutmost(dns: seq<Dn>, d: Dn)
    ensures d in Outer(dns, |dns|) <==> Outmost(dns, d)
  {
    if d in Outer(dns, |dns|) {
      OuterMembers(dns, |dns|, d);
      forall e | e in dns && HasSuffix(d, e)
        ensures e == d
      {
        NothingAboveOuter(dns, d, e);
      }
    } else if Outmost(dns, d) {
      OutmostIsOuter(dns, d);
    }
  }

  lemma OutmostIsOuter(dns: seq<Dn>, d: Dn)
    requires Outmost(dns, d)
    ensures d in Outer(dns, |dns|)
  {
    var i: nat :| i < |dns| && dns[i] == d;
    OuterCovers(dns, i);
    var o :| o in Outer(dns, |dns|) && HasSuffix(d, o);
    OuterMembers(dns, |dns|, o);
  }

  lemma NothingAboveOuter(dns: seq<Dn>, d: Dn, e: Dn)
    requires d in Outer(dns, |dns|) && e in dns && HasSuffix(d, e)
    ensures e == d
  {
    var outer := Outer(dns, |dns|);
    var i: nat :| i < |dns| && dns[i] == e;
    OuterCovers(dns, i);
    var o :| o in outer && HasSuffix(e, o);
    SuffixTrans(d, e, o);
    OuterApart(dns, |dns|);
    ApartIsOne(outer, d, o);
    AboveEachOther(d, e);
  }

  lemma ApartIsOne(dns: seq<Dn>, d: Dn, o: Dn)
    requires Apart(dns) && d in dns && o in dns && HasSuffix(d, o)
    ensures d == o
  {
    var i: nat, j: nat :| i < |dns| && j < |dns| && dns[i] == d && dns[j] == o;
    assert i == j;
  }

  /** A list with fewer DNs, but for each dropped one that is at or above it, has the same outermost. */
  lemma FewerSameOutmost(many: seq<Dn>, few: seq<Dn>)
    requires forall d :: d in few ==> d in many
    requires forall d {:trigger SeenFrom(few, d)} :: d in many ==> SeenFrom(few, d)
    ensures forall d :: Outmost(many, d) <==> Outmost(few, d)
  {
    forall d
      ensures Outmost(many, d) <==> Outmost(few, d)
    {
      if d in many {
        assert SeenFrom(few, d);
        var o :| o in few && HasSuffix(d, o);
        if Outmost(few, d) {
          forall e | e in many && HasSuffix(d, e)
            ensures e == d
          {
            assert SeenFrom(few, e);
            var f :| f in few && HasSuffix(e, f);
            SuffixTrans(d, e, f);
            AboveEachOther(d, e);
          }
        }
      }
    }
  }

  lemma CutKeepsContext(contexts: seq<Dn>, d: Dn, depth: nat)
    ensures Context(contexts, CutTo(contexts, d, depth)) == Context(contexts, d)
  {
    var cut, c := CutTo(contexts, d, depth), Context(contexts, d);
    var k := Context(contexts, cut);
    SuffixesNest(d, cut, c);
    SuffixTrans(d, cut, k);
    if k != [] {
      var i: nat :| i < |contexts| && contexts[i] == k;
    }
    if c != [] {
      var i: nat :| i < |contexts| && contexts[i] == c;
    }
    SuffixesNest(d, c, k);
  }

  lemma CutTwice(contexts: seq<Dn>, d: Dn, deep: nat, depth: nat)
    requires depth <= deep
    ensures CutTo(contexts, CutTo(contexts, d, deep), depth) == CutTo(contexts, d, depth)
  {
    var cut := CutTo(contexts, d, deep);
    CutKeepsContext(contexts, d, deep);
    SuffixTrans(d, cut, CutTo(contexts, cut, depth));
    SuffixesNest(d, CutTo(contexts, cut, depth), CutTo(contexts, d, depth));
  }

  lemma CutStaysBelow(contexts: seq<Dn>, d: Dn, e: Dn, depth: nat)
    requires HasSuffix(d, e)
    ensures HasSuffix(CutTo(contexts, d, depth), CutTo(contexts, e, depth))
  {
    var c := Context(contexts, e);
    SuffixTrans(d, e, c);
    if c != [] {
      var i: nat :| i < |contexts| && contexts[i] == c;
    }
    SuffixTrans(d, e, CutTo(contexts, e, depth));
    SuffixesNest(d, CutTo(contexts, d, depth), CutTo(contexts, e, depth));
  }

  /** To cut further, it is enough to cut the outermost. */
  lemma CutOutmost(contexts: seq<Dn>, parents: seq<Dn>, bases: seq<Dn>, level: nat, depth: nat)
    requires depth <= level && SameDns(bases, OuterCut(contexts, parents, level))
    ensures forall d :: Outmost(CutAll(contexts, parents, depth), d) <==> Outmost(CutAll(contexts, bases, depth), d)
  {
    var many, few := CutAll(contexts, parents, depth), CutAll(contexts, bases, depth);
    var whole := CutAll(contexts, parents, level);
    forall d | d in few
      ensures d in many
    {
      var i: nat :| i < |bases| && few[i] == d;
      assert bases[i] in bases;
      OuterMembers(whole, |parents|, bases[i]);
      var k: nat :| k < |parents| && whole[k] == bases[i];
      CutTwice(contexts, parents[k], level, depth);
      assert many[k] == d;
    }
    forall d {:trigger SeenFrom(few, d)} | d in many
      ensures SeenFrom(few, d)
    {
      var k: nat :| k < |parents| && many[k] == d;
      OuterCovers(whole, k);
      var o :| o in OuterCut(contexts, parents, level) && HasSuffix(whole[k], o);
      assert o in bases;
      var i: nat :| i < |bases| && bases[i] == o;
      CutStaysBelow(contexts, whole[k], o, depth);
      CutTwice(contexts, parents[k], level, depth);
      assert few[i] in few;
    }
    FewerSameOutmost(many, few);
  }

  lemma SameOuter(a: seq<Dn>, b: seq<Dn>)
    requires forall d :: Outmost(a, d) <==> Outmost(b, d)
    ensures SameDns(Outer(a, |a|), Outer(b, |b|))
  {
    forall d
      ensures d in Outer(a, |a|) <==> d in Outer(b, |b|)
    {
      OuterIsOutmost(a, d);
      OuterIsOutmost(b, d);
    }
  }

  lemma SameLength(a: seq<Dn>, b: seq<Dn>)
    requires SameDns(a, b) && Apart(a) && Apart(b)
    ensures |a| == |b|
  {
    ApartDiffer(a);
    ApartDiffer(b);
    DistinctWithin(a, b);
    DistinctWithin(b, a);
  }

  lemma ApartDiffer(a: seq<Dn>)
    requires Apart(a)
    ensures forall i: nat, j: nat :: i < j < |a| ==> a[i] != a[j]
  {
    forall i: nat, j: nat | i < j < |a|
      ensures a[i] != a[j]
    {
      ParentIsSuffix(a[i]);
    }
  }

  lemma CutLeavesOne(contexts: seq<Dn>, b: Dn, depth: nat)
    requires Below(contexts, b) ==> |b| <= depth
    ensures CutTo(contexts, b, depth) == b
  {
  }

  /** To cut a base one level less deep than the deepest moves it up when it is that deep. */
  lemma CutMovesOne(contexts: seq<Dn>, b: Dn, depth: nat)
    requires Below(contexts, b) ==> |b| <= depth + 1
    ensures CutTo(contexts, b, depth) == if |b| == depth + 1 then Up(contexts, b) else b
  {
    if |b| == depth + 1 && Below(contexts, b) {
      assert CutTo(contexts, b, depth) == b[1..] == Parent(b);
    } else {
      CutLeavesOne(contexts, b, depth);
    }
  }

  lemma CutLeaves(contexts: seq<Dn>, bases: seq<Dn>, depth: nat)
    requires depth >= DeepestOf(contexts, bases)
    ensures CutAll(contexts, bases, depth) == bases
  {
    DeepestIs(contexts, bases);
    forall k: nat | k < |bases|
      ensures CutAll(contexts, bases, depth)[k] == bases[k]
    {
      assert bases[k] in bases;
      CutLeavesOne(contexts, bases[k], depth);
    }
  }

  lemma CutMoves(contexts: seq<Dn>, bases: seq<Dn>, depth: nat)
    requires depth + 1 == DeepestOf(contexts, bases)
    ensures CutAll(contexts, bases, depth) == MovedFrom(contexts, bases, depth + 1)
  {
    DeepestIs(contexts, bases);
    forall k: nat | k < |bases|
      ensures CutAll(contexts, bases, depth)[k] == MovedFrom(contexts, bases, depth + 1)[k]
    {
      assert bases[k] in bases;
      CutMovesOne(contexts, bases[k], depth);
    }
  }

  lemma OuterOfApart(bases: seq<Dn>)
    requires Apart(bases)
    ensures SameDns(bases, Outer(bases, |bases|))
  {
    forall d
      ensures d in bases <==> d in Outer(bases, |bases|)
    {
      OuterIsOutmost(bases, d);
      forall e | d in bases && e in bases && HasSuffix(d, e)
        ensures e == d
      {
        ApartIsOne(bases, d, e);
      }
    }
  }

  /** From the depth the bases are cut to down to where one of them ends, nothing changes. */
  lemma CutBetween(contexts: seq<Dn>, parents: seq<Dn>, bases: seq<Dn>, level: nat, depth: nat)
    requires Apart(bases) && SameDns(bases, OuterCut(contexts, parents, level))
    requires DeepestOf(contexts, bases) <= depth <= level
    ensures SameDns(bases, OuterCut(contexts, parents, depth))
  {
    CutOutmost(contexts, parents, bases, level, depth);
    CutLeaves(contexts, bases, depth);
    SameOuter(CutAll(contexts, parents, depth), CutAll(contexts, bases, depth));
    OuterOfApart(bases);
  }

  lemma DeepestWithin(contexts: seq<Dn>, parents: seq<Dn>, bases: seq<Dn>, level: nat)
    requires SameDns(bases, OuterCut(contexts, parents, level))
    ensures DeepestOf(contexts, bases) <= level
  {
    var deepest := DeepestOf(contexts, bases);
    if deepest > 0 {
      DeepestIs(contexts, bases);
      var k: nat :| k < |bases| && Movable(contexts, bases[k], deepest);
      assert bases[k] in bases;
      var whole := CutAll(contexts, parents, level);
      OuterMembers(whole, |parents|, bases[k]);
      var i: nat :| i < |parents| && whole[i] == bases[k];
      CutKeepsContext(contexts, parents[i], level);
    }
  }

  /**
   What holds of the bases on the way to the end: they are the outermost cut to `level`, and
   to cut less will not do.
   */
  ghost predicate OnTheWay(contexts: seq<Dn>, parents: seq<Dn>, bases: seq<Dn>, level: nat, end: seq<Dn>)
  {
    CutSoFar(contexts, parents, bases, level) && end == Climb(contexts, bases)
  }

  ghost predicate CutSoFar(contexts: seq<Dn>, parents: seq<Dn>, bases: seq<Dn>, level: nat)
  {
    && Apart(bases) && SameDns(bases, OuterCut(contexts, parents, level))
    && NoneBetter(contexts, parents, bases, level)
  }

  lemma {:induction false} ClimbCuts(contexts: seq<Dn>, parents: seq<Dn>, bases: seq<Dn>, level: nat, end: seq<Dn>)
    returns (depth: nat)
    requires OnTheWay(contexts, parents, bases, level, end)
    ensures CutAt(contexts, parents, end, depth)
    decreases Total(bases)
  {
    if Stops(contexts, bases) {
      depth := ClimbStops(contexts, parents, bases, level, end);
    } else {
      var next, lower := ClimbGoesOn(contexts, parents, bases, level, end);
      depth := ClimbCuts(contexts, parents, next, lower, end);
    }
  }

  lemma ClimbGoesOn(contexts: seq<Dn>, parents: seq<Dn>, bases: seq<Dn>, level: nat, end: seq<Dn>)
    returns (next: seq<Dn>, lower: nat)
    requires OnTheWay(contexts, parents, bases, level, end) && !Stops(contexts, bases)
    ensures OnTheWay(contexts, parents, next, lower, end) && Total(next) < Total(bases)
  {
    lower := DeepestOf(contexts, bases) - 1;
    next := ClimbOnce(contexts, bases);
    OneUpCutSoFar(contexts, parents, bases, level, next, lower);
  }

  lemma ClimbStops(contexts: seq<Dn>, parents: seq<Dn>, bases: seq<Dn>, level: nat, end: seq<Dn>)
    returns (depth: nat)
    requires OnTheWay(contexts, parents, bases, level, end) && Stops(contexts, bases)
    ensures CutAt(contexts, parents, end, depth)
  {
    if |bases| <= MAX_BASES {
      return level;
    }
    CutBetween(contexts, parents, bases, level, 0);
    AllTooMany(contexts, parents, bases, level, bases, 0);
    return 0;
  }

  lemma OneUpCutSoFar(contexts: seq<Dn>, parents: seq<Dn>, bases: seq<Dn>, level: nat, next: seq<Dn>, lower: nat)
    requires CutSoFar(contexts, parents, bases, level) && IsOneUp(contexts, bases, next)
    requires |bases| > MAX_BASES && lower + 1 == DeepestOf(contexts, bases)
    ensures CutSoFar(contexts, parents, next, lower)
  {
    DeepestWithin(contexts, parents, bases, level);
    OneUpCuts(contexts, parents, bases, level, next);
    AllTooMany(contexts, parents, bases, level, next, lower);
  }

  lemma ClimbOnce(contexts: seq<Dn>, bases: seq<Dn>) returns (next: seq<Dn>)
    requires |bases| > MAX_BASES && DeepestOf(contexts, bases) > 0
    ensures IsOneUp(contexts, bases, next) && Total(next) < Total(bases)
    ensures Climb(contexts, bases) == Climb(contexts, next)
  {
    next := OneUp(contexts, bases);
    ClimbFalls(contexts, bases);
  }

  ghost predicate IsOneUp(contexts: seq<Dn>, bases: seq<Dn>, next: seq<Dn>)
  {
    next == OneUp(contexts, bases)
  }

  lemma AllTooMany(contexts: seq<Dn>, parents: seq<Dn>, bases: seq<Dn>, level: nat, next: seq<Dn>, depth: nat)
    requires Apart(bases) && |bases| > MAX_BASES && SameDns(bases, OuterCut(contexts, parents, level))
    requires NoneBetter(contexts, parents, bases, level) && depth + 1 >= DeepestOf(contexts, bases)
    ensures NoneBetter(contexts, parents, next, depth)
  {
    forall deeper: nat | deeper > depth
      ensures NoBetter(contexts, parents, next, deeper)
    {
      StillTooMany(contexts, parents, bases, level, deeper);
    }
  }

  lemma OneUpCuts(contexts: seq<Dn>, parents: seq<Dn>, bases: seq<Dn>, level: nat, next: seq<Dn>)
    requires SameDns(bases, OuterCut(contexts, parents, level)) && 0 < DeepestOf(contexts, bases) <= level
    requires IsOneUp(contexts, bases, next)
    ensures Apart(next) && SameDns(next, OuterCut(contexts, parents, DeepestOf(contexts, bases) - 1))
  {
    var depth := DeepestOf(contexts, bases) - 1;
    OuterApart(MovedFrom(contexts, bases, depth + 1), |bases|);
    CutOutmost(contexts, parents, bases, level, depth);
    CutMoves(contexts, bases, depth);
    SameOuter(CutAll(contexts, parents, depth), CutAll(contexts, bases, depth));
  }

  lemma StillTooMany(contexts: seq<Dn>, parents: seq<Dn>, bases: seq<Dn>, level: nat, depth: nat)
    requires Apart(bases) && |bases| > MAX_BASES && SameDns(bases, OuterCut(contexts, parents, level))
    requires depth >= DeepestOf(contexts, bases)
    requires depth > level ==> NoBetter(contexts, parents, bases, depth)
    ensures |OuterCut(contexts, parents, depth)| > MAX_BASES
  {
    if depth <= level {
      CutBetween(contexts, parents, bases, level, depth);
    }
    if SameDns(bases, OuterCut(contexts, parents, depth)) {
      OuterApart(CutAll(contexts, parents, depth), |parents|);
      SameLength(bases, OuterCut(contexts, parents, depth));
    }
  }

  /**
   The searches are under the outermost of the names' parents, each cut to the greatest depth
   that leaves at most fifty, or to its context when none does.
   */
  lemma BasesAreCut(names: seq<Dn>, contexts: seq<Dn>)
    ensures exists depth: nat :: CutAt(contexts, ParentsOf(names, contexts), BaseDns(names, contexts), depth)
  {
    var parents := ParentsOf(names, contexts);
    var bases := Outer(parents, |parents|);
    OuterApart(parents, |parents|);
    var level := Longest(parents);
    forall deep: nat | deep >= level
      ensures SameDns(bases, OuterCut(contexts, parents, deep))
    {
      assert CutAll(contexts, parents, deep) == parents;
    }
    var depth := ClimbCuts(contexts, parents, bases, level, BaseDns(names, contexts));
  }

  function Longest(dns: seq<Dn>): (n: nat)
    ensures forall k: nat :: k < |dns| ==> |dns[k]| <= n
  {
    if dns == [] then 0 else Max(Longest(dns[..|dns| - 1]), |dns[|dns| - 1]|)
  }
}
