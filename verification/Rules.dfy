/**
 Reading an olcAccess rule: cutting it at its by clauses and into tokens, with quotes
 respected, so that no token is lost on the way.
 */
module Rules {
  import opened Text

  // ----- tokens

  /** Where the splitting loop is: the tokens so far, inside quotes or not, and the one being built. */
  datatype Scan = Scan(out: seq<string>, quoted: bool, cur: string)

  const START := Scan([], false, [])

  function Flush(st: Scan): seq<string>
  {
    if st.cur != [] then st.out + [st.cur] else st.out
  }

  function Step(st: Scan, c: char): Scan
  {
    if c == '"' then Scan(st.out, !st.quoted, st.cur + [c])
    else if !st.quoted && IsSpace(c) then Scan(Flush(st), false, [])
    else Scan(st.out, st.quoted, st.cur + [c])
  }

  function Run(st: Scan, s: string): Scan
    decreases |s|
  {
    if s == [] then st else Run(Step(st, s[0]), s[1..])
  }

  function Tokens(s: string): seq<string>
  {
    Flush(Run(START, s))
  }

  lemma {:induction false} RunJoin(st: Scan, a: string, b: string)
    ensures Run(st, a + b) == Run(Run(st, a), b)
    decreases |a|
  {
    if a == [] {
      assert a + b == b;
    } else {
      RunJoin(Step(st, a[0]), a[1..], b);
      assert (a + b)[1..] == a[1..] + b;
    }
  }

  /** The tokens already made do not matter to the ones to come. */
  lemma {:induction false} RunOut(st: Scan, s: string)
    ensures Run(st, s) == var r := Run(Scan([], st.quoted, st.cur), s); Scan(st.out + r.out, r.quoted, r.cur)
    decreases |s|
  {
    if s == [] {
      assert st.out + [] == st.out;
    } else {
      var next := Step(st, s[0]);
      var bare := Step(Scan([], st.quoted, st.cur), s[0]);
      RunOut(next, s[1..]);
      RunOut(bare, s[1..]);
      assert next.out == st.out + bare.out;
      var r := Run(Scan([], next.quoted, next.cur), s[1..]);
      assert st.out + bare.out + r.out == st.out + (bare.out + r.out);
    }
  }

  method SplitTokens(s: string) returns (out: seq<string>)
    ensures out == Tokens(s)
  {
    out := [];
    var cur: string, quoted := [], false;
    for i := 0 to |s|
      invariant Run(START, s[..i]) == Scan(out, quoted, cur)
    {
      var c := s[i];
      assert s[..i + 1] == s[..i] + [c];
      RunJoin(START, s[..i], [c]);
      assert Run(Run(START, s[..i]), [c]) == Step(Run(START, s[..i]), c);
      if c == '"' {
        quoted := !quoted;
        cur := cur + [c];
      } else if !quoted && (c == ' ' || c == '\t') {
        if |cur| > 0 {
          out := out + [cur];
          cur := [];
        }
      } else {
        cur := cur + [c];
      }
    }
    assert s[..|s|] == s;
    if |cur| > 0 {
      out := out + [cur];
    }
  }

  // ----- joining tokens and splitting again

  /** An odd number of quotes. */
  function Open(s: string): bool
  {
    if s == [] then false else (s[0] == '"') != Open(s[1..])
  }

  /** Read outside quotes, the text is one token: no blank in it is outside quotes. */
  ghost predicate Solid(s: string, quoted: bool)
  {
    s == [] || ((s[0] == '"' || quoted || !IsSpace(s[0])) && Solid(s[1..], (s[0] == '"') != quoted))
  }

  lemma {:induction false} RunSolid(st: Scan, s: string)
    requires Solid(s, st.quoted)
    ensures Run(st, s) == Scan(st.out, st.quoted != Open(s), st.cur + s)
    decreases |s|
  {
    if s == [] {
      assert st.cur + [] == st.cur;
    } else {
      RunSolid(Step(st, s[0]), s[1..]);
      assert st.cur + [s[0]] + s[1..] == st.cur + s;
    }
  }

  lemma {:induction false} SolidMore(s: string, quoted: bool, c: char)
    requires Solid(s, quoted)
    requires c == '"' || (quoted != Open(s)) || !IsSpace(c)
    ensures Solid(s + [c], quoted)
    ensures Open(s + [c]) == (Open(s) != (c == '"'))
  {
    if s == [] {
      assert Solid([c][1..], (c == '"') != quoted);
      assert Open([c][1..]) == false;
    } else {
      SolidMore(s[1..], (s[0] == '"') != quoted, c);
      assert (s + [c])[1..] == s[1..] + [c];
    }
  }

  /** Tokens as splitting makes them: each whole, and only the last with a quote left open. */
  ghost predicate AreTokens(ts: seq<string>)
  {
    && (forall i: nat :: i < |ts| ==> ts[i] != [] && Solid(ts[i], false))
    && (forall i: nat :: i < |ts| - 1 ==> !Open(ts[i]))
  }

  ghost predicate ScanOk(st: Scan)
  {
    && (forall i: nat :: i < |st.out| ==> st.out[i] != [] && Solid(st.out[i], false) && !Open(st.out[i]))
    && Solid(st.cur, false) && Open(st.cur) == st.quoted
  }

  lemma {:induction false} RunOk(st: Scan, s: string)
    requires ScanOk(st)
    ensures ScanOk(Run(st, s))
    decreases |s|
  {
    if s != [] {
      if s[0] == '"' || st.quoted || !IsSpace(s[0]) {
        SolidMore(st.cur, false, s[0]);
      }
      RunOk(Step(st, s[0]), s[1..]);
    }
  }

  lemma {:induction false} TokensAreTokens(s: string)
    ensures AreTokens(Tokens(s))
  {
    RunOk(START, s);
  }

  /** The tokens with one space between them. */
  function Join(ts: seq<string>): string
  {
    if ts == [] then [] else if |ts| == 1 then ts[0] else Join(ts[..|ts| - 1]) + " " + ts[|ts| - 1]
  }

  /** Splitting what was joined gives the tokens back. */
  lemma {:induction false} SplitJoined(ts: seq<string>)
    requires AreTokens(ts)
    ensures Tokens(Join(ts)) == ts
  {
    if ts != [] {
      JoinRuns(ts);
    }
  }

  lemma {:induction false} JoinRuns(ts: seq<string>)
    requires AreTokens(ts) && ts != []
    ensures Run(START, Join(ts)) == Scan(ts[..|ts| - 1], Open(ts[|ts| - 1]), ts[|ts| - 1])
  {
    var front, last := ts[..|ts| - 1], ts[|ts| - 1];
    if |ts| == 1 {
      RunSolid(START, last);
      assert [] + last == last;
    } else {
      JoinRuns(front);
      RunJoin(START, Join(front) + " ", last);
      RunJoin(START, Join(front), " ");
      var st := Run(START, Join(front));
      assert Run(st, " ") == Step(st, ' ');
      assert front == front[..|front| - 1] + [front[|front| - 1]];
      RunSolid(Scan(front, false, []), last);
      assert [] + last == last;
    }
  }

  // ----- the first by clause

  predicate StartsWithBy(s: string)
  {
    |s| >= 2 && Lower(s[..2]) == "by"
  }

  /** A clause starts here: "by " in any case, at the start or after a blank, outside quotes. */
  predicate ClauseAt(s: string, i: nat)
    requires i < |s|
  {
    && !Open(s[..i])
    && |s| - i >= 3 && Lower(s[i..i + 3]) == "by "
    && (i == 0 || IsSpace(s[i - 1]))
  }

  /** The first clause start at or after `from`, or the end of the text. */
  function FirstClause(s: string, from: nat): (i: nat)
    requires from <= |s|
    ensures from <= i <= |s|
    ensures forall j: nat :: from <= j < i ==> !ClauseAt(s, j)
    ensures i < |s| ==> ClauseAt(s, i)
    decreases |s| - from
  {
    if from == |s| then from else if ClauseAt(s, from) then from else FirstClause(s, from + 1)
  }

  lemma {:induction false} OpenMore(s: string, c: char)
    ensures Open(s + [c]) == (Open(s) != (c == '"'))
  {
    if s == [] {
      assert Open([c][1..]) == false;
    } else {
      OpenMore(s[1..], c);
      assert (s + [c])[1..] == s[1..] + [c];
    }
  }

  /** Cuts the text at the first clause; nothing is lost and no earlier clause is missed. */
  method SplitFirstBy(s: string) returns (what: string, rest: string)
    ensures what + rest == s && |what| == FirstClause(s, 0)
  {
    var quoted := false;
    for i := 0 to |s|
      invariant quoted == Open(s[..i])
      invariant FirstClause(s, 0) == FirstClause(s, i)
    {
      assert s[..i + 1] == s[..i] + [s[i]];
      OpenMore(s[..i], s[i]);
      if s[i] == '"' {
        assert Lower(s[i..])[0] != 'b';
        NotClauseAtQuote(s, i);
        quoted := !quoted;
      } else if quoted {
      } else if |s| - i >= 3 && Lower(s[i..i + 3]) == "by " && (i == 0 || IsSpace(s[i - 1])) {
        return s[..i], s[i..];
      }
    }
    return s, [];
  }

  lemma {:induction false} NotClauseAtQuote(s: string, i: nat)
    requires i < |s| && s[i] == '"'
    ensures !ClauseAt(s, i)
  {
    if |s| - i >= 3 {
      assert Lower(s[i..i + 3])[0] == s[i];
      assert "by "[0] == 'b';
    }
  }

  // ----- the clauses

  /** A clause: its keyword as written, and its tokens. */
  datatype Clause = Clause(keyword: string, tokens: seq<string>)

  datatype Grant = Grant(subject: string, access: string)

  function Unquote(s: string): string
  {
    var t := TrimSpace(s);
    if |t| >= 2 && t[0] == '"' && t[|t| - 1] == '"' then t[1..|t| - 1] else t
  }

  /** The clauses of a trimmed text, one after the other, for as long as each begins with "by". */
  function Clauses(rest: string): seq<Clause>
    decreases |rest|
  {
    if !StartsWithBy(rest) then []
    else
      var body := TrimSpace(rest[2..]);
      var cut := FirstClause(body, 0);
      [Clause(rest[..2], Tokens(TrimSpace(body[..cut])))] + Clauses(TrimSpace(body[cut..]))
  }

  /** Every clause names a subject and an access, and the text ends with the last of them. */
  predicate AllRead(rest: string)
    decreases |rest|
  {
    rest == [] ||
    (StartsWithBy(rest) &&
     var body := TrimSpace(rest[2..]);
     var cut := FirstClause(body, 0);
     |Tokens(TrimSpace(body[..cut]))| > 1 && AllRead(TrimSpace(body[cut..])))
  }

  function GrantsOf(clauses: seq<Clause>): seq<Grant>
  {
    if clauses == [] then [] else GrantOf(clauses[0].tokens) + GrantsOf(clauses[1..])
  }

  /** The grant one clause gives, if it names anything. */
  function GrantOf(tokens: seq<string>): seq<Grant>
  {
    if tokens == [] then [] else [Grant(Unquote(tokens[0]), Join(tokens[1..]))]
  }

  method NextClause(rest: string) returns (tokens: seq<string>, after: string)
    requires StartsWithBy(rest)
    ensures |after| < |rest|
    ensures GrantsOf(Clauses(rest)) == GrantOf(tokens) + GrantsOf(Clauses(after))
    ensures AllRead(rest) <==> |tokens| > 1 && AllRead(after)
  {
    var body := TrimSpace(rest[2..]);
    var clause, next := SplitFirstBy(body);
    assert clause == body[..FirstClause(body, 0)] && next == body[FirstClause(body, 0)..];
    after := TrimSpace(next);
    tokens := SplitTokens(TrimSpace(clause));
    assert Clauses(rest)[1..] == Clauses(after);
  }

  lemma {:induction false} Shift(a: seq<Grant>, b: seq<Grant>, c: seq<Grant>)
    ensures a + (b + c) == a + b + c
  {
  }

  method ParseByClauses(text: string) returns (grants: seq<Grant>, ok: bool)
    ensures grants == GrantsOf(Clauses(TrimSpace(text)))
    ensures ok == AllRead(TrimSpace(text))
  {
    var rest := TrimSpace(text);
    grants, ok := [], true;
    ghost var wanted, left, allRead := GrantsOf(Clauses(rest)), GrantsOf(Clauses(rest)), AllRead(rest);
    while rest != []
      invariant left == GrantsOf(Clauses(rest)) && grants + left == wanted
      invariant ok && AllRead(rest) <==> allRead
      decreases |rest|
    {
      if !StartsWithBy(rest) {
        ok := false;
        return;
      }
      var tokens;
      tokens, rest := NextClause(rest);
      ghost var was, right := grants, GrantsOf(Clauses(rest));
      assert was + (GrantOf(tokens) + right) == wanted;
      var one := GrantFrom(tokens);
      grants := grants + one;
      if |tokens| <= 1 {
        ok := false;
      }
      Shift(was, GrantOf(tokens), right);
      left := right;
    }
  }

  method GrantFrom(tokens: seq<string>) returns (grant: seq<Grant>)
    ensures grant == GrantOf(tokens)
  {
    if |tokens| == 0 {
      return [];
    }
    var access := "";
    if |tokens| > 1 {
      access := Join(tokens[1..]);
    } else {
      assert tokens[1..] == [];
    }
    return [Grant(Unquote(tokens[0]), access)];
  }

  // ----- nothing is lost

  /** What trimming takes off at the front separates tokens. */
  predicate PlainLeft(s: string)
  {
    s == [] || !IsTrimmed(s[0]) || (IsSpace(s[0]) && PlainLeft(s[1..]))
  }

  /** What trimming takes off at the end does. */
  predicate PlainRight(s: string)
  {
    s == [] || !IsTrimmed(s[|s| - 1]) || (IsSpace(s[|s| - 1]) && PlainRight(s[..|s| - 1]))
  }

  /** Trimming takes off nothing but spaces and tabs. */
  predicate PlainEdges(s: string)
  {
    PlainLeft(s) && PlainRight(TrimLeft(s))
  }

  /** How many characters the tokens have together. */
  function Weight(ts: seq<string>): nat
  {
    if ts == [] then 0 else Weight(ts[..|ts| - 1]) + |ts[|ts| - 1]|
  }

  lemma {:induction false} WeightJoin(a: seq<string>, b: seq<string>)
    ensures Weight(a + b) == Weight(a) + Weight(b)
    decreases |b|
  {
    if b == [] {
      assert a + b == a;
    } else {
      WeightJoin(a, b[..|b| - 1]);
      assert (a + b)[..|a + b| - 1] == a + b[..|b| - 1];
    }
  }

  lemma WeightOne(t: string)
    ensures Weight([t]) == |t|
  {
    assert [t][..0] == [];
  }

  /** The characters of a text that separate nothing. */
  function Heavy(s: string, quoted: bool): nat
  {
    if s == [] then 0
    else (if s[0] == '"' || quoted || !IsSpace(s[0]) then 1 else 0) + Heavy(s[1..], (s[0] == '"') != quoted)
  }

  lemma {:induction false} RunWeight(st: Scan, s: string)
    ensures Weight(Flush(Run(st, s))) == Weight(Flush(st)) + Heavy(s, st.quoted)
    decreases |s|
  {
    if s != [] {
      StepWeight(st, s[0]);
      RunWeight(Step(st, s[0]), s[1..]);
    }
  }

  lemma FlushWeight(st: Scan)
    ensures Weight(Flush(st)) == Weight(st.out) + |st.cur|
  {
    if st.cur != [] {
      WeightJoin(st.out, [st.cur]);
      WeightOne(st.cur);
    }
  }

  lemma StepWeight(st: Scan, c: char)
    ensures Weight(Flush(Step(st, c))) ==
      Weight(Flush(st)) + if c == '"' || st.quoted || !IsSpace(c) then 1 else 0
  {
    FlushWeight(st);
    FlushWeight(Step(st, c));
  }

  /** The tokens have exactly the characters that separate nothing. */
  lemma TokensWeight(s: string)
    ensures Weight(Tokens(s)) == Heavy(s, false)
  {
    RunWeight(START, s);
  }

  lemma {:induction false} HeavyMore(s: string, quoted: bool, c: char)
    ensures Heavy(s + [c], quoted) ==
      Heavy(s, quoted) + if c == '"' || (quoted != Open(s)) || !IsSpace(c) then 1 else 0
  {
    if s == [] {
      assert Heavy([c][1..], (c == '"') != quoted) == 0;
    } else {
      HeavyMore(s[1..], (s[0] == '"') != quoted, c);
      assert (s + [c])[1..] == s[1..] + [c];
    }
  }

  lemma {:induction false} TrimLeftWeight(s: string)
    ensures PlainLeft(s) ==> Heavy(TrimLeft(s), false) == Heavy(s, false)
    ensures !PlainLeft(s) ==> Heavy(TrimLeft(s), false) < Heavy(s, false)
  {
    if s != [] && IsTrimmed(s[0]) {
      TrimLeftWeight(s[1..]);
    }
  }

  lemma {:induction false} TrimRightWeight(s: string)
    requires !Open(s)
    ensures PlainRight(s) ==> Heavy(TrimRight(s), false) == Heavy(s, false)
    ensures !PlainRight(s) ==> Heavy(TrimRight(s), false) < Heavy(s, false)
  {
    if s != [] && IsTrimmed(s[|s| - 1]) {
      var front, last := s[..|s| - 1], s[|s| - 1];
      assert s == front + [last];
      OpenMore(front, last);
      HeavyMore(front, false, last);
      TrimRightWeight(front);
    }
  }

  lemma {:induction false} RunQuoted(st: Scan, s: string)
    ensures Run(st, s).quoted == (st.quoted != Open(s))
    decreases |s|
  {
    if s != [] {
      RunQuoted(Step(st, s[0]), s[1..]);
    }
  }

  /** Cutting at a place that is outside quotes, and after a blank, cuts no token. */
  lemma {:induction false} TokensCut(a: string, b: string)
    requires !Open(a) && (a == [] || IsSpace(a[|a| - 1]))
    ensures Tokens(a + b) == Tokens(a) + Tokens(b)
  {
    RunJoin(START, a, b);
    if a == [] {
      assert a + b == b;
    } else {
      var front, last := a[..|a| - 1], a[|a| - 1];
      assert a == front + [last];
      RunJoin(START, front, [last]);
      OpenMore(front, last);
      RunQuoted(START, front);
      var st := Run(START, front);
      assert Run(st, [last]) == Step(st, last) == Scan(Flush(st), false, []);
      RunOut(Scan(Flush(st), false, []), b);
    }
  }

  lemma {:induction false} TokensTrimLeft(s: string)
    requires PlainLeft(s)
    ensures Tokens(TrimLeft(s)) == Tokens(s)
    decreases |s|
  {
    if s != [] && IsTrimmed(s[0]) {
      TokensTrimLeft(s[1..]);
    }
  }

  lemma {:induction false} TokensTrimRight(s: string)
    requires PlainRight(s) && !Open(s)
    ensures Tokens(TrimRight(s)) == Tokens(s)
    decreases |s|
  {
    if s != [] && IsTrimmed(s[|s| - 1]) {
      var front, last := s[..|s| - 1], s[|s| - 1];
      assert s == front + [last];
      OpenMore(front, last);
      TokensTrimRight(front);
      RunJoin(START, front, [last]);
      RunQuoted(START, front);
      var st := Run(START, front);
      assert Run(st, [last]) == Step(st, last);
    }
  }

  lemma {:induction false} TrimLeftOpen(s: string)
    ensures Open(TrimLeft(s)) == Open(s)
    decreases |s|
  {
    if s != [] && IsTrimmed(s[0]) {
      TrimLeftOpen(s[1..]);
    }
  }

  lemma {:induction false} TrimLeftEnd(s: string)
    requires s != [] && !IsTrimmed(s[|s| - 1])
    ensures TrimLeft(s) != [] && TrimLeft(s)[|TrimLeft(s)| - 1] == s[|s| - 1]
    decreases |s|
  {
    if IsTrimmed(s[0]) {
      TrimLeftEnd(s[1..]);
    }
  }

  /** The text ends outside quotes, or in no blank. */
  predicate EndsWell(s: string)
  {
    s == [] || !Open(s) || !IsTrimmed(s[|s| - 1])
  }

  /** What is left is all of it when nothing but separators went, and otherwise weighs less. */
  ghost predicate Loses(left: seq<string>, all: seq<string>, plain: bool)
  {
    if plain then left == all else Weight(left) < Weight(all)
  }

  lemma LosesBoth(a: seq<string>, b: seq<string>, c: seq<string>, d: seq<string>, p: bool, q: bool)
    requires Loses(a, b, p) && Loses(c, d, q)
    ensures Loses(a + c, b + d, p && q)
  {
    WeightJoin(a, c);
    WeightJoin(b, d);
  }

  lemma LosesTwice(a: seq<string>, b: seq<string>, c: seq<string>, p: bool, q: bool)
    requires Loses(a, b, p) && Loses(b, c, q)
    ensures Loses(a, c, p && q)
  {
  }

  lemma TrimWeighs(s: string)
    requires EndsWell(s)
    ensures Loses(Tokens(TrimSpace(s)), Tokens(s), PlainEdges(s))
  {
    var t := TrimLeft(s);
    TrimLeftOpen(s);
    TrimLeftWeight(s);
    TokensWeight(s);
    TokensWeight(TrimSpace(s));
    if PlainLeft(s) {
      TokensTrimLeft(s);
    }
    if s != [] && !IsTrimmed(s[|s| - 1]) {
      TrimLeftEnd(s);
    } else {
      TrimRightWeight(t);
      if PlainRight(t) {
        TokensTrimRight(t);
      }
    }
  }

  /** Trimming loses no token exactly when it takes off nothing but what separates tokens. */
  lemma TokensTrimIff(s: string)
    requires EndsWell(s)
    ensures Tokens(TrimSpace(s)) == Tokens(s) <==> PlainEdges(s)
  {
    TrimWeighs(s);
  }

  /** The text begins with the keyword as a token of its own. */
  predicate KeywordFirst(s: string)
  {
    StartsWithBy(s) && (|s| == 2 || IsSpace(s[2]))
  }

  lemma {:induction false} KeywordToken(rest: string)
    requires KeywordFirst(rest)
    ensures Tokens(rest) == [rest[..2]] + Tokens(rest[2..])
  {
    var keyword := rest[..2];
    NoQuoteInBy(rest);
    RunSolid(START, keyword);
    assert [] + keyword == keyword;
    if |rest| == 2 {
      assert rest[2..] == [] && keyword == rest;
    } else {
      var a := rest[..3];
      assert a == keyword + [rest[2]];
      RunJoin(START, keyword, [rest[2]]);
      var st := Run(START, keyword);
      assert Run(st, [rest[2]]) == Step(st, rest[2]);
      OpenMore(keyword, rest[2]);
      assert rest == a + rest[3..];
      TokensCut(a, rest[3..]);
      assert rest[2..][1..] == rest[3..];
    }
  }

  lemma {:induction false} NoQuoteInBy(rest: string)
    requires StartsWithBy(rest)
    ensures !Open(rest[..2]) && Solid(rest[..2], false)
    ensures !IsTrimmed(rest[0]) && !IsTrimmed(rest[1])
  {
    var k := rest[..2];
    assert Lower(k)[0] == 'b' && Lower(k)[1] == 'y';
    assert k[0] != '"' && k[1] != '"';
    var y := k[1..];
    assert y[0] == k[1] && y[1..] == [];
    assert !Open(y) && Solid(y, false);
  }

  function Spell(clauses: seq<Clause>): seq<string>
  {
    if clauses == [] then [] else [clauses[0].keyword] + clauses[0].tokens + Spell(clauses[1..])
  }

  lemma {:induction false} SpellMore(c: Clause, more: seq<Clause>)
    ensures Spell([c] + more) == [c.keyword] + c.tokens + Spell(more)
  {
    assert ([c] + more)[1..] == more;
  }

  /** Everything trimmed off on the way through the clauses, after a keyword or before the next, separates tokens. */
  predicate PlainCuts(rest: string)
    decreases |rest|
  {
    !StartsWithBy(rest) ||
    (PlainEdges(rest[2..]) &&
     var body := TrimSpace(rest[2..]);
     var cut := FirstClause(body, 0);
     PlainEdges(body[..cut]) && PlainCuts(TrimSpace(body[cut..])))
  }

  lemma TailEndsWell(rest: string)
    requires Trimmed(rest) && StartsWithBy(rest)
    ensures EndsWell(rest[2..])
  {
    assert rest[2..] != [] ==> rest[2..][|rest| - 3] == rest[|rest| - 1];
  }

  /** The text is these two, cut before its first clause. */
  ghost predicate CutInto(body: string, clause: string, after: string)
  {
    |clause| == FirstClause(body, 0) && clause == body[..|clause|] && after == body[|clause|..]
  }

  /** Cut there, the text loses no token, and the second part is as it would be trimmed. */
  ghost predicate IsCut(body: string, clause: string, after: string)
  {
    && CutInto(body, clause, after) && EndsWell(clause)
    && Tokens(body) == Tokens(clause) + Tokens(after)
    && TrimSpace(after) == after && Trimmed(after) && (after == [] || KeywordFirst(after))
  }

  /** The tokens of the parts a trimmed text is cut into, before they are trimmed. */
  lemma CutTokens(body: string) returns (clause: string, after: string)
    requires Trimmed(body)
    ensures IsCut(body, clause, after) && |after| <= |body|
  {
    clause, after := body[..FirstClause(body, 0)], body[FirstClause(body, 0)..];
    if after == [] {
      CutNowhere(body, clause, after);
    } else {
      CutAt(body, clause, after);
    }
  }

  lemma CutNowhere(body: string, clause: string, after: string)
    requires Trimmed(body) && CutInto(body, clause, after) && after == []
    ensures IsCut(body, clause, after)
  {
    assert clause == body;
    WholeIsCut(body, after);
  }

  lemma WholeIsCut(body: string, after: string)
    requires Trimmed(body) && after == []
    ensures EndsWell(body) && Tokens(body) == Tokens(body) + Tokens(after)
    ensures TrimSpace(after) == after && Trimmed(after)
  {
    NothingToTrim(after);
    NothingMore(Tokens(body), Tokens(after));
  }

  lemma NothingMore(a: seq<string>, b: seq<string>)
    requires b == []
    ensures a + b == a
  {
  }

  /** The clauses weigh as much as the text exactly when nothing is lost on the way, and then are its tokens. */
  lemma {:induction false} ClausesWeigh(rest: string)
    requires Trimmed(rest) && (rest == [] || KeywordFirst(rest))
    ensures Loses(Spell(Clauses(rest)), Tokens(rest), PlainCuts(rest))
    decreases |rest|
  {
    if rest == [] {
      NothingWeighs(rest);
    } else {
      var clause, after := CutTokens(TrimSpace(rest[2..]));
      ClausesWeigh(after);
      ClauseStep(rest, clause, after);
    }
  }

  lemma NothingWeighs(rest: string)
    requires rest == []
    ensures Loses(Spell(Clauses(rest)), Tokens(rest), PlainCuts(rest))
  {
    NothingToTrim(rest);
    assert Clauses(rest) == [];
  }

  lemma ClauseStep(rest: string, clause: string, after: string)
    requires Trimmed(rest) && KeywordFirst(rest) && IsCut(TrimSpace(rest[2..]), clause, after)
    requires Loses(Spell(Clauses(after)), Tokens(after), PlainCuts(after))
    ensures Loses(Spell(Clauses(rest)), Tokens(rest), PlainCuts(rest))
  {
    ClauseWeighs(rest, TrimSpace(rest[2..]), clause, after);
    Unfold(rest, TrimSpace(rest[2..]), clause, after);
  }

  lemma ClauseWeighs(rest: string, body: string, clause: string, after: string)
    requires Trimmed(rest) && KeywordFirst(rest) && body == TrimSpace(rest[2..]) && EndsWell(clause)
    requires Tokens(body) == Tokens(clause) + Tokens(after)
    requires Loses(Spell(Clauses(after)), Tokens(after), PlainCuts(after))
    ensures Loses(Spell([Clause(rest[..2], Tokens(TrimSpace(clause)))] + Clauses(after)), Tokens(rest),
      PlainEdges(rest[2..]) && PlainEdges(clause) && PlainCuts(after))
  {
    var trimmed, spelled := Tokens(TrimSpace(clause)), Spell(Clauses(after));
    var plain := PlainEdges(clause) && PlainCuts(after);
    KeywordToken(rest);
    TailEndsWell(rest);
    TrimWeighs(rest[2..]);
    TrimWeighs(clause);
    LosesBoth(trimmed, Tokens(clause), spelled, Tokens(after), PlainEdges(clause), PlainCuts(after));
    LosesTwice(trimmed + spelled, Tokens(body), Tokens(rest[2..]), plain, PlainEdges(rest[2..]));
    LosesBoth([rest[..2]], [rest[..2]], trimmed + spelled, Tokens(rest[2..]), true, PlainEdges(rest[2..]) && plain);
    SpellMore(Clause(rest[..2], trimmed), Clauses(after));
    Regroup(rest[..2], trimmed, spelled);
  }

  lemma Unfold(rest: string, body: string, clause: string, after: string)
    requires StartsWithBy(rest) && body == TrimSpace(rest[2..])
    requires CutInto(body, clause, after) && TrimSpace(after) == after
    ensures Clauses(rest) == [Clause(rest[..2], Tokens(TrimSpace(clause)))] + Clauses(after)
    ensures PlainCuts(rest) <==> PlainEdges(rest[2..]) && PlainEdges(clause) && PlainCuts(after)
  {
  }

  /** A text that begins with a clause is its clauses, token for token, exactly when no cut loses a character. */
  lemma ClausesKeepTokens(rest: string)
    requires Trimmed(rest) && (rest == [] || KeywordFirst(rest))
    ensures Spell(Clauses(rest)) == Tokens(rest) <==> PlainCuts(rest)
  {
    ClausesWeigh(rest);
  }

  lemma {:induction false} Regroup(k: string, a: seq<string>, b: seq<string>)
    ensures [k] + a + b == [k] + (a + b)
  {
  }

  lemma {:induction false} ClausesUnfold(rest: string)
    requires StartsWithBy(rest)
    ensures var body := TrimSpace(rest[2..]);
      var cut := FirstClause(body, 0);
      Clauses(rest) == [Clause(rest[..2], Tokens(TrimSpace(body[..cut])))] + Clauses(TrimSpace(body[cut..]))
  {
  }

  lemma {:induction false} ClauseIsKeyword(body: string, cut: nat)
    requires cut < |body| && ClauseAt(body, cut)
    ensures KeywordFirst(body[cut..])
  {
    var next := body[cut..];
    var word := body[cut..cut + 3];
    assert Lower(word)[0] == 'b' && Lower(word)[1] == 'y' && Lower(word)[2] == ' ';
    assert word[0] == next[0] && word[1] == next[1] && word[2] == next[2];
    assert Lower(next[..2]) == ['b', 'y'];
  }

  lemma {:induction false} NothingToTrim(s: string)
    requires s == []
    ensures TrimSpace(s) == [] && Tokens(s) == []
  {
  }

  lemma CutAt(body: string, clause: string, after: string)
    requires Trimmed(body) && CutInto(body, clause, after) && after != []
    ensures IsCut(body, clause, after)
  {
    var cut := |clause|;
    PartsAtClause(body, cut);
    ClauseIsKeyword(body, cut);
    JoinedParts(clause, after);
  }

  lemma JoinedParts(clause: string, after: string)
    requires !Open(clause) && (clause == [] || IsSpace(clause[|clause| - 1]))
    requires KeywordFirst(after) && !IsTrimmed(after[|after| - 1])
    ensures Tokens(clause + after) == Tokens(clause) + Tokens(after)
    ensures TrimSpace(after) == after && Trimmed(after)
  {
    NoQuoteInBy(after);
    TokensCut(clause, after);
    TrimmedStays(after);
  }

  lemma {:induction false} PartsAtClause(body: string, cut: nat)
    requires Trimmed(body) && cut < |body| && ClauseAt(body, cut)
    ensures body == body[..cut] + body[cut..]
    ensures cut > 0 ==> IsSpace(body[..cut][cut - 1])
    ensures !IsTrimmed(body[cut..][|body| - cut - 1])
  {
  }

  /** Once a token has begun, the first token of the result begins with it, and goes on as the text does. */
  lemma {:induction false} FirstToken(st: Scan, s: string)
    requires st.out == [] && st.cur != []
    ensures Flush(Run(st, s)) != []
    ensures st.cur <= Flush(Run(st, s))[0] <= st.cur + s
    decreases |s|
  {
    if s != [] {
      var next := Step(st, s[0]);
      if next.out == [] {
        FirstToken(next, s[1..]);
        assert st.cur + [s[0]] + s[1..] == st.cur + s;
        assert st.cur <= next.cur;
        PrefixTrans(st.cur, next.cur, Flush(Run(next, s[1..]))[0]);
      } else {
        RunOut(next, s[1..]);
        assert Flush(Run(next, s[1..]))[0] == st.cur;
      }
    }
  }

  lemma {:induction false} PrefixTrans(a: string, b: string, c: string)
    requires a <= b <= c
    ensures a <= c
  {
  }

  predicate FirstIsBy(ts: seq<string>)
  {
    ts != [] && Lower(ts[0]) == "by"
  }

  /** The first token of a trimmed text is "by", in some case, exactly when a clause begins there. */
  lemma {:induction false} FirstTokenIsBy(rest: string)
    requires Trimmed(rest) && rest != []
    ensures Tokens(rest) != []
    ensures FirstIsBy(Tokens(rest)) <==> KeywordFirst(rest)
  {
    var st := Step(START, rest[0]);
    FirstToken(st, rest[1..]);
    assert [rest[0]] + rest[1..] == rest;
    var t := Tokens(rest)[0];
    if Lower(t) == "by" {
      assert |t| == 2 && t == rest[..2];
      if |rest| > 2 && !IsSpace(rest[2]) {
        LongerToken(rest);
      }
    }
    if KeywordFirst(rest) {
      KeywordCut(rest);
    }
  }

  lemma {:induction false} LongerToken(rest: string)
    requires StartsWithBy(rest) && |rest| > 2 && !IsSpace(rest[2])
    ensures Tokens(rest) != [] && |Tokens(rest)[0]| > 2
  {
    var k := rest[..2];
    NoQuoteInBy(rest);
    RunSolid(START, k);
    RunJoin(START, k, rest[2..]);
    assert rest == k + rest[2..] && [] + k == k;
    FirstToken(Step(Scan([], false, k), rest[2]), rest[3..]);
    assert rest[2..][1..] == rest[3..];
  }

  lemma {:induction false} KeywordCut(rest: string)
    requires KeywordFirst(rest)
    ensures Tokens(rest) != [] && Tokens(rest)[0] == rest[..2]
  {
    var k := rest[..2];
    NoQuoteInBy(rest);
    RunSolid(START, k);
    RunJoin(START, k, rest[2..]);
    assert rest == k + rest[2..] && [] + k == k;
    if |rest| > 2 {
      RunOut(Step(Scan([], false, k), rest[2]), rest[2..][1..]);
    }
  }

  /**
   The clauses of a text spell its tokens exactly when its first token is the word "by" and
   no cut loses a character. A text that begins with another word is not read at all; one
   whose first word only starts with "by" has that word cut in two.
   */
  lemma {:induction false} ClausesKeepTokensIff(text: string)
    ensures var rest := TrimSpace(text);
      Spell(Clauses(rest)) == Tokens(rest) <==> rest == [] || (FirstIsBy(Tokens(rest)) && PlainCuts(rest))
  {
    var rest := TrimSpace(text);
    if rest != [] {
      FirstTokenIsBy(rest);
      if KeywordFirst(rest) {
        ClausesWeigh(rest);
      } else if StartsWithBy(rest) {
        LongerToken(rest);
        ClausesUnfold(rest);
        assert Spell(Clauses(rest))[0] == rest[..2];
      }
    } else {
      ClausesWeigh(rest);
    }
  }

  /**
   A whole rule, cut into what it is about and its clauses, keeps every token exactly when
   what is trimmed off before the first clause, and at each cut after it, is spaces and tabs.
   */
  lemma {:induction false} RuleKeepsTokens(body: string, what: string, rest: string)
    requires Trimmed(body) && CutInto(body, what, rest)
    ensures TrimSpace(rest) == rest
    ensures Tokens(body) == Tokens(TrimSpace(what)) + Spell(Clauses(rest)) <==> PlainEdges(what) && PlainCuts(rest)
  {
    var clause, after := CutTokens(body);
    SameCut(body, what, rest, clause, after);
    RuleStep(body, what, rest);
  }

  lemma SameCut(body: string, a: string, b: string, c: string, d: string)
    requires CutInto(body, a, b) && CutInto(body, c, d)
    ensures a == c && b == d
  {
  }

  lemma RuleStep(body: string, what: string, rest: string)
    requires IsCut(body, what, rest)
    ensures Tokens(body) == Tokens(TrimSpace(what)) + Spell(Clauses(rest)) <==> PlainEdges(what) && PlainCuts(rest)
  {
    TrimWeighs(what);
    ClausesWeigh(rest);
    LosesBoth(Tokens(TrimSpace(what)), Tokens(what), Spell(Clauses(rest)), Tokens(rest),
      PlainEdges(what), PlainCuts(rest));
  }

  /** The only blanks are those that separate tokens. */
  ghost predicate PlainBlanks(s: string)
  {
    forall i: nat :: i < |s| ==> IsTrimmed(s[i]) ==> IsSpace(s[i])
  }

  lemma PlainPart(s: string, first: nat, upTo: nat)
    requires PlainBlanks(s) && first <= upTo <= |s|
    ensures PlainBlanks(s[first..upTo])
  {
    assert forall i: nat :: i < upTo - first ==> s[first..upTo][i] == s[i + first];
  }

  lemma {:induction false} PlainLeftOf(s: string)
    requires PlainBlanks(s)
    ensures PlainLeft(s)
  {
    if s != [] {
      PlainPart(s, 1, |s|);
      assert s[1..|s|] == s[1..];
      PlainLeftOf(s[1..]);
    }
  }

  lemma {:induction false} PlainRightOf(s: string)
    requires PlainBlanks(s)
    ensures PlainRight(s)
  {
    if s != [] {
      PlainPart(s, 0, |s| - 1);
      assert s[0..|s| - 1] == s[..|s| - 1];
      PlainRightOf(s[..|s| - 1]);
    }
  }

  lemma PlainTrimmed(s: string)
    requires PlainBlanks(s)
    ensures PlainEdges(s) && PlainBlanks(TrimSpace(s))
  {
    var t := TrimLeft(s);
    PlainPart(s, |s| - |t|, |s|);
    assert t == s[|s| - |t|..|s|];
    var u := TrimRight(t);
    PlainPart(t, 0, |u|);
    assert u == t[0..|u|];
    PlainLeftOf(s);
    PlainRightOf(t);
  }

  /** A text without line breaks and the like loses nothing. */
  lemma {:induction false} PlainCutsOf(rest: string)
    requires PlainBlanks(rest)
    ensures PlainCuts(rest)
    decreases |rest|
  {
    if StartsWithBy(rest) {
      var tail := rest[2..];
      PlainPart(rest, 2, |rest|);
      assert rest[2..|rest|] == tail;
      PlainTrimmed(tail);
      var cut := FirstClause(TrimSpace(tail), 0);
      PlainParts(TrimSpace(tail), cut);
      PlainCutsOf(TrimSpace(TrimSpace(tail)[cut..]));
    }
  }

  lemma PlainParts(body: string, cut: nat)
    requires PlainBlanks(body) && cut <= |body|
    ensures PlainEdges(body[..cut]) && PlainBlanks(TrimSpace(body[cut..]))
  {
    PlainPart(body, 0, cut);
    PlainPart(body, cut, |body|);
    assert body[0..cut] == body[..cut] && body[cut..|body|] == body[cut..];
    PlainTrimmed(body[..cut]);
    PlainTrimmed(body[cut..]);
  }

  /** A grant's access, split again, is the tokens it was made from. */
  lemma {:induction false} AccessSplitsBack(clause: string)
    requires |Tokens(clause)| > 1
    ensures Tokens(GrantOf(Tokens(clause))[0].access) == Tokens(clause)[1..]
  {
    TokensAreTokens(clause);
    SplitJoined(Tokens(clause)[1..]);
  }

  // ----- a rule that loses a character

  const FOLDED: string := "by a r\n by b w"
  const FOLDED_BODY: string := "a r\n by b w"

  lemma FoldedBody()
    ensures StartsWithBy(FOLDED) && Trimmed(FOLDED) && KeywordFirst(FOLDED)
    ensures TrimSpace(FOLDED[2..]) == FOLDED_BODY
  {
    var word, tail := FOLDED[..2], FOLDED[2..];
    assert word == ['b', 'y'];
    LowerBy(word);
    assert tail == [' '] + FOLDED_BODY;
    BlankFirst(' ', FOLDED_BODY);
  }

  lemma LowerBy(word: string)
    requires word == ['b', 'y']
    ensures Lower(word) == "by"
  {
  }

  lemma BlankFirst(c: char, s: string)
    requires IsTrimmed(c) && s != [] && !IsTrimmed(s[0]) && !IsTrimmed(s[|s| - 1])
    ensures TrimSpace([c] + s) == s
  {
    assert ([c] + s)[1..] == s;
    FirstStays(s);
    TrimmedStays(s);
  }

  lemma FirstStays(s: string)
    requires s != [] && !IsTrimmed(s[0])
    ensures TrimLeft(s) == s
  {
  }

  lemma FoldedCut()
    ensures FirstClause(FOLDED_BODY, 0) == 5
  {
    assert forall j: nat :: j < 5 ==> LowerChar(FOLDED_BODY[j]) != 'b';
    forall j: nat | j < 5
      ensures !ClauseAt(FOLDED_BODY, j)
    {
      NotAtOther(FOLDED_BODY, j);
    }
    ClauseAtFive();
  }

  lemma NotAtOther(s: string, j: nat)
    requires j < |s| && LowerChar(s[j]) != 'b'
    ensures !ClauseAt(s, j)
  {
    if |s| - j >= 3 {
      assert Lower(s[j..j + 3])[0] == LowerChar(s[j]) && "by "[0] == 'b';
    }
  }

  lemma ClauseAtFive()
    ensures ClauseAt(FOLDED_BODY, 5)
  {
    assert FOLDED_BODY[..5] == ['a', ' ', 'r', '\n', ' '];
    NoQuotes(FOLDED_BODY[..5]);
    assert FOLDED_BODY[5..8] == ['b', 'y', ' '];
    assert Lower(FOLDED_BODY[5..8]) == ['b', 'y', ' '];
  }

  lemma {:induction false} NoQuotes(s: string)
    requires '"' !in s
    ensures !Open(s)
  {
    if s != [] {
      NoQuotes(s[1..]);
    }
  }

  lemma CutFolded(clause: string) returns (after: string)
    requires clause == FOLDED_BODY[..5]
    ensures CutInto(FOLDED_BODY, clause, after) && TrimSpace(after) == after
  {
    FoldedCut();
    FoldedBody();
    var c;
    c, after := CutTokens(FOLDED_BODY);
  }

  lemma FoldedNotPlain(clause: string)
    requires clause == ['a', ' ', 'r', '\n', ' ']
    ensures !PlainEdges(clause)
  {
    FirstStays(clause);
    var front := clause[..4];
    assert front == ['a', ' ', 'r', '\n'];
    assert !PlainRight(front);
  }

  /** The first clause of that rule, as it is before it is trimmed. */
  lemma FoldedUnfolds() returns (clause: string, after: string)
    ensures KeywordFirst(FOLDED) && Trimmed(FOLDED)
    ensures clause == ['a', ' ', 'r', '\n', ' ']
    ensures PlainCuts(FOLDED) ==> PlainEdges(clause)
  {
    FoldedBody();
    clause := FOLDED_BODY[..5];
    assert clause == ['a', ' ', 'r', '\n', ' '];
    after := CutFolded(clause);
    Unfold(FOLDED, FOLDED_BODY, clause, after);
  }

  /** A rule folded over two lines: the line break is trimmed off the token it belongs to. */
  lemma LineBreakLost()
    ensures Spell(Clauses(FOLDED)) != Tokens(FOLDED)
  {
    var clause, after := FoldedUnfolds();
    FoldedNotPlain(clause);
    ClausesKeepTokens(FOLDED);
  }
}
