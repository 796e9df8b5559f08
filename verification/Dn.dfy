/**
 Distinguished names, as the rest of the model uses them: a sequence of RDNs, most
 specific first. An RDN is its folded text, so two DNs are equal exactly when they
 name the same entry, and a DN serves as its own map key.
 */
module Dns {
  type Rdn = string
  type Dn = seq<Rdn>

  /** The DN one level up; the empty DN is its own parent. */
  function Parent(d: Dn): Dn
  {
    if d == [] then [] else d[1..]
  }

  /** `d` is at or below `base` in the tree. */
  predicate HasSuffix(d: Dn, base: Dn)
  {
    |base| <= |d| && d[|d| - |base|..] == base
  }

  lemma SuffixTrans(a: Dn, b: Dn, c: Dn)
    requires HasSuffix(a, b) && HasSuffix(b, c)
    ensures HasSuffix(a, c)
  {
    assert a[|a| - |c|..] == a[|a| - |b|..][|b| - |c|..];
  }

  /** Two ancestors of one entry lie on one line: the longer is at or below the shorter. */
  lemma SuffixesNest(a: Dn, b: Dn, c: Dn)
    requires HasSuffix(a, b) && HasSuffix(a, c) && |c| <= |b|
    ensures HasSuffix(b, c)
    ensures |b| == |c| ==> b == c
  {
    assert b[|b| - |c|..] == a[|a| - |b|..][|b| - |c|..] == a[|a| - |c|..];
  }

  lemma ParentIsSuffix(d: Dn)
    ensures HasSuffix(d, Parent(d))
    ensures HasSuffix(d, d)
  {
  }

  /** Below a proper ancestor, the parent is still below it. */
  lemma ParentStaysBelow(d: Dn, base: Dn)
    requires HasSuffix(d, base) && |base| < |d|
    ensures HasSuffix(Parent(d), base)
  {
    assert d[1..][|d| - 1 - |base|..] == d[|d| - |base|..];
  }
}
