/**
 What a clause says once it is read: whom it is about, and what it grants.
 */
module RulesLaws {
  import opened Text
  import opened Rules

  lemma UnquotedIs(s: string)
    ensures Unquote("\"" + s + "\"") == s
  {
    var t := "\"" + s + "\"";
    assert t[0] == '"' && t[|t| - 1] == '"' && t[1..|t| - 1] == s;
    TrimmedStays(t);
  }

  lemma PlainIsItself(t: string)
    requires t != [] && !IsTrimmed(t[0]) && !IsTrimmed(t[|t| - 1]) && (t[0] != '"' || t[|t| - 1] != '"')
    ensures Unquote(t) == t
  {
    TrimmedStays(t);
  }

  lemma SpaceGoes(s: string)
    requires s != [] && !IsTrimmed(s[0]) && !IsTrimmed(s[|s| - 1])
    ensures TrimSpace(" " + s) == s
  {
    var t := " " + s;
    FirstGoes(t);
    assert t[1..] == s;
    TrimmedStays(s);
  }

  lemma FirstGoes(t: string)
    requires t != [] && IsTrimmed(t[0])
    ensures TrimSpace(t) == TrimSpace(t[1..])
  {
    assert TrimLeft(t) == TrimLeft(t[1..]);
  }

  /** The text is one clause's: nothing to trim, and no other clause begins in it. */
  ghost predicate IsOneClause(s: string)
  {
    && s != [] && !IsTrimmed(s[0]) && !IsTrimmed(s[|s| - 1])
    && forall i: nat :: i < |s| ==> !ClauseAt(s, i)
  }

  lemma OneClauseIs(keyword: string, s: string)
    requires |keyword| == 2 && Lower(keyword) == "by" && IsOneClause(s)
    ensures Clauses(keyword + " " + s) == [Clause(keyword, Tokens(s))]
    ensures AllRead(keyword + " " + s) <==> |Tokens(s)| > 1
  {
    var text := keyword + " " + s;
    assert text[..2] == keyword && text[2..] == " " + s;
    SpaceGoes(s);
    TrimmedStays(s);
    assert FirstClause(s, 0) == |s|;
    assert s[..|s|] == s && s[|s|..] == [];
    assert TrimSpace([]) == [];
    assert Clauses([]) == [] && AllRead([]);
  }

  /**
   A clause written with the keyword, a subject and what it is granted gives that grant and no
   other: to the subject, without the quotes around it, and of the tokens after it. Without
   any the clause is not read in full.
   */
  lemma ClauseReadsBack(keyword: string, subject: string, access: seq<string>)
    requires |keyword| == 2 && Lower(keyword) == "by"
    requires AreTokens([subject] + access) && IsOneClause(Join([subject] + access))
    ensures var text := keyword + " " + Join([subject] + access);
      && GrantsOf(Clauses(text)) == [Grant(Unquote(subject), Join(access))]
      && (AllRead(text) <==> access != [])
  {
    var ts := [subject] + access;
    OneClauseIs(keyword, Join(ts));
    SplitJoined(ts);
    assert ts[0] == subject && ts[1..] == access;
    assert [Clause(keyword, ts)][1..] == [];
    assert GrantsOf([]) == [];
  }

  /** A quoted subject is read as what is between its quotes. */
  lemma SubjectReadsBack(keyword: string, dn: string, access: seq<string>)
    requires |keyword| == 2 && Lower(keyword) == "by"
    requires var subject := "\"" + dn + "\"";
      AreTokens([subject] + access) && IsOneClause(Join([subject] + access))
    ensures var text := keyword + " " + Join(["\"" + dn + "\""] + access);
      GrantsOf(Clauses(text)) == [Grant(dn, Join(access))]
  {
    UnquotedIs(dn);
    ClauseReadsBack(keyword, "\"" + dn + "\"", access);
  }

  /** Joined tokens are the tokens with one space between each two and nothing at either end. */
  lemma {:induction false} JoinedIs(a: seq<string>, b: seq<string>)
    ensures a == [] ==> Join(a) == []
    ensures |a| == 1 ==> Join(a) == a[0]
    ensures a != [] && b != [] ==> Join(a + b) == Join(a) + " " + Join(b)
  {
    if a != [] && b != [] {
      var front, t := b[..|b| - 1], b[|b| - 1];
      assert (a + b)[..|a + b| - 1] == a + front;
      assert Join(a + b) == Join(a + front) + " " + t;
      if front == [] {
        assert a + front == a;
        assert b == [t];
      } else {
        JoinedIs(a, front);
        assert Join(b) == Join(front) + " " + t;
        Spaced(Join(a), Join(front), t);
      }
    }
  }

  lemma Spaced(a: string, b: string, c: string)
    ensures (a + " " + b) + " " + c == a + " " + (b + " " + c)
  {
  }

  /** What is left of a text after its clauses. */
  function After(rest: string): string
    decreases |rest|
  {
    if !StartsWithBy(rest) then rest
    else
      var body := TrimSpace(rest[2..]);
      After(TrimSpace(body[FirstClause(body, 0)..]))
  }

  /** A text that begins with the keyword is its first clause and the rest. */
  lemma FirstAndRest(rest: string) returns (c: Clause, next: string)
    requires StartsWithBy(rest)
    ensures |next| < |rest| && Clauses(rest) == [c] + Clauses(next) && After(rest) == After(next)
    ensures AllRead(rest) <==> |c.tokens| > 1 && AllRead(next)
  {
    var body := TrimSpace(rest[2..]);
    var cut := FirstClause(body, 0);
    c, next := Clause(rest[..2], Tokens(TrimSpace(body[..cut]))), TrimSpace(body[cut..]);
  }

  /** A text is read in full exactly when every clause has a subject and an access and nothing is left after them. */
  lemma {:induction false} AllReadIff(rest: string)
    ensures AllRead(rest) <==> After(rest) == [] && forall c :: c in Clauses(rest) ==> |c.tokens| > 1
    decreases |rest|
  {
    if StartsWithBy(rest) {
      var c, next := FirstAndRest(rest);
      AllReadIff(next);
    }
  }
}
