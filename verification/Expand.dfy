/**
 Who is in a group through nesting: a depth-first walk with a bound on depth, on reads
 and on members, which reports the groups that contain themselves, the members that are
 not there, and whether it stopped short.
 */
module Expand {
  import opened Basics
  import opened Dns
  import opened Paths
  import opened Text

  const MAX_DEPTH := 10
  const MAX_READS := 1000

  /** One membership value of a group, with the attribute that holds it. */
  datatype Value =
    | Blank
    | NotDn(attribute: string, text: string)
    | Names(attribute: string, target: Dn)

  /** What reading a member answers; an ended request fails like any other read, and says so. */
  datatype ReadResult =
    | Entry(values: seq<Value>, isGroup: bool)
    | Nothing
    | Error(ended: bool)

  /** The group expanded, and what every other DN reads as. */
  datatype Directory = Directory(root: Dn, rootValues: seq<Value>, read: Dn -> ReadResult)

  datatype Member = Member(dn: Dn, group: bool, direct: bool, via: seq<Dn>, through: string)

  // ----- the membership graph

  predicate IsGroupNode(dir: Directory, d: Dn)
  {
    d == dir.root || (dir.read(d).Entry? && dir.read(d).isGroup)
  }

  function ValuesOf(dir: Directory, d: Dn): seq<Value>
  {
    if d == dir.root then dir.rootValues
    else if IsGroupNode(dir, d) then dir.read(d).values
    else []
  }

  ghost predicate Holds(values: seq<Value>, d: Dn)
  {
    exists attribute :: Names(attribute, d) in values
  }

  /** From a group to what it names. */
  ghost function StepOf(dir: Directory): Step<Dn>
  {
    (a: Dn, b: Dn) => Holds(ValuesOf(dir, a), b)
  }

  // ----- what the walk found so far

  datatype Outcome = Read | Missing | Failed

  function OutcomeOf(dir: Directory, d: Dn): Outcome
  {
    match dir.read(d)
    case Entry(_, _) => Read
    case Nothing => Missing
    case Error(_) => Failed
  }

  function Pick(dir: Directory, log: seq<Dn>, o: Outcome): seq<Dn>
  {
    if log == [] then []
    else
      var d := log[|log| - 1];
      Pick(dir, log[..|log| - 1], o) + if OutcomeOf(dir, d) == o then [d] else []
  }

  function DnsOf(members: seq<Member>): (dns: seq<Dn>)
    ensures |dns| == |members| && forall i: nat :: i < |dns| ==> dns[i] == members[i].dn
  {
    seq(|members|, i requires 0 <= i < |members| => members[i].dn)
  }

  // ----- values that are not DNs

  /** How such a value is reported. */
  function Line(attribute: string, text: string): string
  {
    attribute + ": " + text
  }

  predicate SameText(a: string, b: string)
  {
    Lower(a) == Lower(b)
  }

  predicate Known(into: seq<string>, x: string)
  {
    exists k: nat :: k < |into| && SameText(into[k], x)
  }

  /** A text is added unless one like it, but for case, is there. */
  function WithText(into: seq<string>, x: string): seq<string>
  {
    if Known(into, x) then into else into + [x]
  }

  method AppendText(into: seq<string>, x: string) returns (r: seq<string>)
    ensures r == WithText(into, x)
  {
    for k := 0 to |into|
      invariant !Known(into[..k], x)
    {
      if Lower(into[k]) == Lower(x) {
        assert SameText(into[k], x);
        return into;
      }
      assert into[..k + 1] == into[..k] + [into[k]];
    }
    assert into[..|into|] == into;
    return into + [x];
  }

  /** The texts met, added one after the other. */
  ghost function Firsts(met: seq<string>): seq<string>
  {
    if met == [] then [] else WithText(Firsts(met[..|met| - 1]), met[|met| - 1])
  }

  lemma FirstsMore(met: seq<string>, x: string)
    ensures Firsts(met + [x]) == WithText(Firsts(met), x)
  {
    assert (met + [x])[..|met|] == met;
  }

  /** Something like this text, but for case, is met before the text itself is. */
  ghost predicate TwinFirst(met: seq<string>, u: string)
  {
    exists j: nat :: j < |met| && TwinAt(met, u, j)
  }

  ghost predicate TwinAt(met: seq<string>, u: string, j: nat)
    requires j < |met|
  {
    SameText(met[j], u) && forall i: nat :: i <= j ==> met[i] != u
  }

  /** Something like a text is kept exactly when something like it was met. */
  lemma {:induction false} KnownFirsts(met: seq<string>, u: string)
    ensures Known(Firsts(met), u) <==> Known(met, u)
  {
    if met != [] {
      var rest, x := met[..|met| - 1], met[|met| - 1];
      KnownFirsts(rest, u);
      KnownMore(rest, x, u);
      KnownMore(Firsts(rest), x, u);
      assert met == rest + [x];
      if Known(Firsts(rest), x) && SameText(x, u) {
        KnownAlike(Firsts(rest), x, u);
      }
    }
  }

  lemma KnownMore(into: seq<string>, x: string, u: string)
    ensures Known(into + [x], u) <==> Known(into, u) || SameText(x, u)
  {
    var more := into + [x];
    if Known(into, u) {
      var k: nat :| k < |into| && SameText(into[k], u);
      assert SameText(more[k], u);
    } else if SameText(x, u) {
      assert SameText(more[|into|], u);
    }
  }

  lemma KnownAlike(into: seq<string>, x: string, u: string)
    requires Known(into, x) && SameText(x, u)
    ensures Known(into, u)
  {
    var k: nat :| k < |into| && SameText(into[k], x);
    assert SameText(into[k], u);
  }

  /** Of texts alike but for case the one met first is kept, and no other. */
  lemma {:induction false} FirstsAre(met: seq<string>, u: string)
    ensures u in Firsts(met) <==> u in met && !TwinFirst(met, u)
  {
    if met != [] {
      var rest, x := met[..|met| - 1], met[|met| - 1];
      FirstsAre(rest, u);
      KnownFirsts(rest, x);
      assert met == rest + [x];
      TwinLater(rest, x, u);
      if x == u && u !in rest && Known(rest, u) {
        KnownIsTwin(rest, u);
      } else if TwinFirst(rest, u) {
        TwinIsKnown(rest, u);
      }
    }
  }

  lemma TwinIsKnown(met: seq<string>, u: string)
    requires TwinFirst(met, u)
    ensures Known(met, u)
  {
    var j: nat :| j < |met| && TwinAt(met, u, j);
  }

  lemma KnownIsTwin(met: seq<string>, u: string)
    requires Known(met, u) && u !in met
    ensures TwinFirst(met, u)
  {
    var j: nat :| j < |met| && SameText(met[j], u);
    assert TwinAt(met, u, j);
  }

  lemma TwinLater(rest: seq<string>, x: string, u: string)
    ensures TwinFirst(rest, u) ==> TwinFirst(rest + [x], u)
    ensures TwinFirst(rest + [x], u) ==> TwinFirst(rest, u) || (x != u && u !in rest)
  {
    var met := rest + [x];
    if TwinFirst(rest, u) {
      var j: nat :| j < |rest| && TwinAt(rest, u, j);
      assert TwinAt(met, u, j);
    } else if TwinFirst(met, u) {
      var j: nat :| j < |met| && TwinAt(met, u, j);
      if j < |rest| {
        assert forall i: nat :: i <= j ==> rest[i] == met[i];
        assert TwinAt(rest, u, j);
      } else {
        assert forall i: nat :: i < |rest| ==> rest[i] == met[i];
      }
    }
  }

  /** No two of the texts kept are alike but for case. */
  lemma {:induction false} FirstsApart(met: seq<string>)
    ensures forall i: nat, j: nat :: i < j < |Firsts(met)| ==> !SameText(Firsts(met)[i], Firsts(met)[j])
  {
    if met != [] {
      FirstsApart(met[..|met| - 1]);
    }
  }

  /**
   `log` is the DNs read, and `met` the values that are not DNs, in order; `rank` numbers the
   groups walked to their end.
   */
  datatype Found = Found(
    log: seq<Dn>, members: seq<Member>, cycles: seq<Dn>, dangling: seq<Dn>, errors: seq<Dn>,
    unresolvable: seq<string>, truncated: bool, readCount: nat,
    seen: set<Dn>, path: set<Dn>, met: seq<string>, rank: map<Dn, nat>, clock: nat)

  /** A member with the groups that lead to it from the root. */
  ghost predicate MemberOk(dir: Directory, m: Member)
  {
    && IsPath(StepOf(dir), [dir.root] + m.via + [m.dn])
    && NoDuplicates([dir.root] + m.via + [m.dn])
    && |m.via| < MAX_DEPTH
    && (m.direct <==> m.via == [])
    && (m.group <==> IsGroupNode(dir, m.dn))
    && Names(m.through, m.dn) in ValuesOf(dir, ([dir.root] + m.via)[|m.via|])
  }

  /** A value the walk has dealt with; a group it names was walked to its end before `before`. */
  ghost predicate Handled(dir: Directory, s: Found, v: Value, before: nat)
  {
    match v
    case Blank => true
    case NotDn(attribute, text) => Line(attribute, text) in s.met
    case Names(_, t) =>
      t in s.seen && (t in s.cycles || !IsGroupNode(dir, t) || (t in s.rank && s.rank[t] < before))
  }

  /** The lists are what was read, each DN once, sorted by what reading it answered. */
  ghost predicate Accounts(dir: Directory, limit: nat, s: Found)
  {
    && NoDuplicates(s.log) && dir.root !in s.log
    && s.seen == {dir.root} + (set d | d in s.log)
    && s.readCount == |s.log| <= MAX_READS
    && DnsOf(s.members) == Pick(dir, s.log, Read) && |s.members| <= limit
    && s.dangling == Pick(dir, s.log, Missing)
    && s.errors == Pick(dir, s.log, Failed)
    && s.unresolvable == Firsts(s.met)
  }

  /** Everything reported is there in the graph. */
  ghost predicate Truthful(dir: Directory, s: Found)
  {
    && (forall m :: m in s.members ==> MemberOk(dir, m))
    && (forall d :: d in s.log ==> Reach(StepOf(dir), dir.root, d))
    && (forall c :: c in s.cycles ==> OnCycle(StepOf(dir), c) && Reach(StepOf(dir), dir.root, c))
    && NoDuplicates(s.cycles)
    && (forall u :: u in s.met ==> InSomeGroup(dir, u))
  }

  /** Some group that is reached holds a value that is not a DN and is reported like this. */
  ghost predicate InSomeGroup(dir: Directory, u: string)
  {
    exists g, attribute, text ::
      Reach(StepOf(dir), dir.root, g) && NotDn(attribute, text) in ValuesOf(dir, g) && u == Line(attribute, text)
  }

  ghost predicate WalkedToEnd(dir: Directory, s: Found, g: Dn)
  {
    && g in s.rank && g in s.seen && IsGroupNode(dir, g) && s.rank[g] < s.clock
    && forall v :: v in ValuesOf(dir, g) ==> Handled(dir, s, v, s.rank[g])
  }

  /** Every group seen is on the way, or was walked to its end -- unless the walk stopped short. */
  ghost predicate Progress(dir: Directory, s: Found)
  {
    && s.path <= s.seen && s.path !! s.rank.Keys
    && (forall g :: g in s.rank ==> WalkedToEnd(dir, s, g))
    && (!s.truncated ==> forall d :: d in s.seen && IsGroupNode(dir, d) ==> d in s.rank || d in s.path)
  }

  /** A group that is a member is nested as deep as the walk goes. */
  ghost predicate TooDeep(s: Found)
  {
    exists m :: m in s.members && m.group && |m.via| == MAX_DEPTH - 1
  }

  ghost predicate RequestEnded(dir: Directory, s: Found)
  {
    exists d :: d in s.errors && dir.read(d) == Error(true)
  }

  /** A walk stops short only at a bound, at the deepest level, or with the request. */
  ghost predicate Stopped(dir: Directory, limit: nat, s: Found)
  {
    |s.members| >= limit || s.readCount >= MAX_READS || TooDeep(s) || RequestEnded(dir, s)
  }

  lemma StoppedLater(dir: Directory, limit: nat, s: Found, t: Found)
    requires Stopped(dir, limit, s)
    requires s.members <= t.members && s.errors <= t.errors && s.readCount <= t.readCount
    ensures Stopped(dir, limit, t)
  {
    if TooDeep(s) {
      var m :| m in s.members && m.group && |m.via| == MAX_DEPTH - 1;
      assert m in t.members;
    } else if RequestEnded(dir, s) {
      var d :| d in s.errors && dir.read(d) == Error(true);
      assert d in t.errors;
    }
  }

  ghost predicate Inv(dir: Directory, limit: nat, s: Found)
  {
    && Accounts(dir, limit, s) && Truthful(dir, s) && Progress(dir, s)
    && (s.truncated ==> Stopped(dir, limit, s))
  }

  /** What a stretch of the walk leaves in place. */
  ghost predicate Extends(s: Found, t: Found)
  {
    && s.path == t.path && s.seen <= t.seen && s.clock <= t.clock
    && (s.truncated ==> t.truncated)
    && (forall c :: c in s.cycles ==> c in t.cycles)
    && (forall u :: u in s.met ==> u in t.met)
    && (forall g :: g in s.rank ==> g in t.rank && t.rank[g] == s.rank[g])
  }

  lemma HandledLater(dir: Directory, s: Found, t: Found, v: Value, before: nat, later: nat)
    requires Handled(dir, s, v, before) && before <= later
    requires s.seen <= t.seen
    requires forall c :: c in s.cycles ==> c in t.cycles
    requires forall u :: u in s.met ==> u in t.met
    requires forall g :: g in s.rank ==> g in t.rank && t.rank[g] == s.rank[g]
    ensures Handled(dir, t, v, later)
  {
  }

  ghost predicate HandledAll(dir: Directory, s: Found, values: seq<Value>)
  {
    forall v :: v in values ==> Handled(dir, s, v, s.clock)
  }

  lemma HandledAllLater(dir: Directory, s: Found, t: Found, values: seq<Value>)
    requires Extends(s, t)
    ensures HandledAll(dir, s, values) ==> HandledAll(dir, t, values)
  {
    forall v | HandledAll(dir, s, values) && v in values
      ensures Handled(dir, t, v, t.clock)
    {
      HandledLater(dir, s, t, v, s.clock, t.clock);
    }
  }

  lemma ProgressLater(dir: Directory, s: Found, t: Found)
    requires Progress(dir, s) && Extends(s, t) && t.rank == s.rank && s.truncated == t.truncated
    requires forall d :: d in t.seen && d !in s.seen ==> !IsGroupNode(dir, d)
    ensures Progress(dir, t)
  {
    forall g | g in t.rank
      ensures WalkedToEnd(dir, t, g)
    {
      assert WalkedToEnd(dir, s, g);
      forall v | v in ValuesOf(dir, g)
        ensures Handled(dir, t, v, t.rank[g])
      {
        HandledLater(dir, s, t, v, s.rank[g], t.rank[g]);
      }
    }
  }

  // ----- the steps of the walk

  /** The chain of groups from the root to the one being walked. */
  ghost predicate AtGroup(dir: Directory, s: Found, via: seq<Dn>)
  {
    && IsPath(StepOf(dir), [dir.root] + via) && NoDuplicates([dir.root] + via)
    && (forall d :: d in s.path <==> d in [dir.root] + via)
    && IsGroupNode(dir, Current(dir, via))
  }

  function Current(dir: Directory, via: seq<Dn>): Dn
  {
    ([dir.root] + via)[|via|]
  }

  lemma ChainReaches(dir: Directory, via: seq<Dn>, t: Dn)
    requires IsPath(StepOf(dir), [dir.root] + via) && Holds(ValuesOf(dir, Current(dir, via)), t)
    ensures IsPath(StepOf(dir), [dir.root] + via + [t])
    ensures Reach(StepOf(dir), dir.root, t)
  {
    var p := [dir.root] + via + [t];
    forall j: nat, k: nat | j < |p| && k == j + 1 < |p|
      ensures StepOf(dir)(p[j], p[k])
    {
      if k == |p| - 1 {
        assert p[j] == Current(dir, via);
      } else {
        assert p[j] == ([dir.root] + via)[j] && p[k] == ([dir.root] + via)[k];
      }
    }
    assert PathFrom(StepOf(dir), dir.root, t, p);
  }

  /** A group on the way that the current one names is on a cycle. */
  lemma PathMemberCycles(dir: Directory, via: seq<Dn>, t: Dn)
    requires IsPath(StepOf(dir), [dir.root] + via) && Holds(ValuesOf(dir, Current(dir, via)), t)
    requires t in [dir.root] + via
    ensures OnCycle(StepOf(dir), t) && Reach(StepOf(dir), dir.root, t)
  {
    ChainReaches(dir, via, t);
    var p := [dir.root] + via + [t];
    var i: nat :| i < |via| + 1 && ([dir.root] + via)[i] == t;
    assert p[i] == t;
    assert IsPath(StepOf(dir), p[i..]) by {
      forall j: nat, k: nat | j < |p[i..]| && k == j + 1 < |p[i..]|
        ensures StepOf(dir)(p[i..][j], p[i..][k])
      {
        assert StepOf(dir)(p[i + j], p[i + k]);
      }
    }
    assert PathFrom(StepOf(dir), t, t, p[i..]) && |p[i..]| > 1;
  }

  function AppendNew<T(==,!new)>(into: seq<T>, x: T): (r: seq<T>)
    ensures forall y :: y in r <==> y in into || y == x
    ensures |r| == |into| + if x in into then 0 else 1
  {
    if x in into then into else into + [x]
  }

  lemma CycleKeeps(dir: Directory, limit: nat, s: Found, via: seq<Dn>, t: Dn)
    requires Inv(dir, limit, s) && AtGroup(dir, s, via)
    requires Holds(ValuesOf(dir, Current(dir, via)), t) && t in s.path
    ensures Inv(dir, limit, s.(cycles := AppendNew(s.cycles, t)))
    ensures Extends(s, s.(cycles := AppendNew(s.cycles, t)))
  {
    PathMemberCycles(dir, via, t);
    ProgressLater(dir, s, s.(cycles := AppendNew(s.cycles, t)));
  }

  /** The state once a value that is not a DN is recorded. */
  ghost function AfterText(s: Found, u: string): Found
  {
    s.(unresolvable := WithText(s.unresolvable, u), met := s.met + [u])
  }

  lemma UnresolvableKeeps(dir: Directory, limit: nat, s: Found, via: seq<Dn>, attribute: string, text: string)
    requires Inv(dir, limit, s) && AtGroup(dir, s, via)
    requires NotDn(attribute, text) in ValuesOf(dir, Current(dir, via))
    ensures Inv(dir, limit, AfterText(s, Line(attribute, text)))
    ensures Extends(s, AfterText(s, Line(attribute, text)))
    ensures Handled(dir, AfterText(s, Line(attribute, text)), NotDn(attribute, text), s.clock)
  {
    var u := Line(attribute, text);
    TextIsThere(dir, s, via, attribute, text);
    FirstsMore(s.met, u);
    ProgressLater(dir, s, AfterText(s, u));
    if s.truncated {
      StoppedLater(dir, limit, s, AfterText(s, u));
    }
  }

  lemma TextIsThere(dir: Directory, s: Found, via: seq<Dn>, attribute: string, text: string)
    requires AtGroup(dir, s, via) && NotDn(attribute, text) in ValuesOf(dir, Current(dir, via))
    ensures InSomeGroup(dir, Line(attribute, text))
  {
    assert PathFrom(StepOf(dir), dir.root, Current(dir, via), [dir.root] + via);
  }

  lemma {:induction false} PickIn(dir: Directory, log: seq<Dn>, o: Outcome)
    ensures forall d :: d in Pick(dir, log, o) <==> d in log && OutcomeOf(dir, d) == o
  {
    if log != [] {
      PickIn(dir, log[..|log| - 1], o);
      assert log == log[..|log| - 1] + [log[|log| - 1]];
    }
  }

  lemma PickMore(dir: Directory, log: seq<Dn>, t: Dn, o: Outcome)
    ensures Pick(dir, log + [t], o) == Pick(dir, log, o) + if OutcomeOf(dir, t) == o then [t] else []
  {
    assert (log + [t])[..|log|] == log;
  }

  /** The state after one more read, before anything is done about it. */
  function AfterRead(s: Found, t: Dn): Found
  {
    s.(log := s.log + [t], readCount := s.readCount + 1, seen := s.seen + {t})
  }

  /** A read about to be made: a DN the current group names, not seen before, within the bounds. */
  ghost predicate CanRead(dir: Directory, limit: nat, s: Found, via: seq<Dn>, attribute: string, t: Dn)
  {
    && Inv(dir, limit, s) && AtGroup(dir, s, via)
    && Names(attribute, t) in ValuesOf(dir, Current(dir, via))
    && t !in s.seen && |s.members| < limit && s.readCount < MAX_READS
  }

  /** The state once a read that found nothing, or failed, is recorded. */
  function AfterNoEntry(dir: Directory, s: Found, t: Dn): Found
    requires !dir.read(t).Entry?
  {
    match dir.read(t)
    case Nothing => AfterRead(s, t).(dangling := s.dangling + [t])
    case Error(ended) => AfterRead(s, t).(errors := s.errors + [t], truncated := s.truncated || ended)
  }

  /** The part of the accounts that any read keeps. */
  lemma LogGrows(dir: Directory, s: Found, t: Dn)
    requires NoDuplicates(s.log) && dir.root !in s.log && s.seen == {dir.root} + (set d | d in s.log)
    requires t !in s.seen
    ensures NoDuplicates(s.log + [t]) && dir.root !in s.log + [t]
    ensures s.seen + {t} == {dir.root} + (set d | d in s.log + [t])
  {
    assert forall i: nat :: i < |s.log| ==> s.log[i] in s.log;
  }

  lemma NewIsNotDangling(dir: Directory, s: Found, t: Dn)
    requires s.dangling == Pick(dir, s.log, Missing) && t !in s.log
    ensures t !in s.dangling
  {
    PickIn(dir, s.log, Missing);
  }

  lemma NoEntryAccounts(dir: Directory, limit: nat, s: Found, t: Dn)
    requires Accounts(dir, limit, s) && t !in s.seen && s.readCount < MAX_READS && !dir.read(t).Entry?
    ensures Accounts(dir, limit, AfterNoEntry(dir, s, t))
  {
    LogGrows(dir, s, t);
    PickMore(dir, s.log, t, Read);
    PickMore(dir, s.log, t, Missing);
    PickMore(dir, s.log, t, Failed);
  }

  lemma NoEntryProgress(dir: Directory, s: Found, t: Dn)
    requires Progress(dir, s) && t !in s.seen && t != dir.root && !dir.read(t).Entry?
    ensures Progress(dir, AfterNoEntry(dir, s, t)) && Extends(s, AfterNoEntry(dir, s, t))
  {
    var u := AfterNoEntry(dir, s, t);
    forall g | g in u.rank
      ensures WalkedToEnd(dir, u, g)
    {
      assert WalkedToEnd(dir, s, g);
      forall v | v in ValuesOf(dir, g)
        ensures Handled(dir, u, v, u.rank[g])
      {
        HandledLater(dir, s, u, v, s.rank[g], u.rank[g]);
      }
    }
  }

  lemma NoEntryKeeps(dir: Directory, limit: nat, s: Found, via: seq<Dn>, attribute: string, t: Dn)
    requires CanRead(dir, limit, s, via, attribute, t) && !dir.read(t).Entry?
    ensures Inv(dir, limit, AfterNoEntry(dir, s, t)) && Extends(s, AfterNoEntry(dir, s, t))
    ensures Handled(dir, AfterNoEntry(dir, s, t), Names(attribute, t), s.clock)
  {
    assert Holds(ValuesOf(dir, Current(dir, via)), t);
    ChainReaches(dir, via, t);
    NoEntryAccounts(dir, limit, s, t);
    NoEntryProgress(dir, s, t);
    NoEntryStops(dir, limit, s, t);
  }

  lemma NoEntryStops(dir: Directory, limit: nat, s: Found, t: Dn)
    requires !dir.read(t).Entry? && (s.truncated ==> Stopped(dir, limit, s))
    ensures var u := AfterNoEntry(dir, s, t); u.truncated ==> Stopped(dir, limit, u)
  {
    var u := AfterNoEntry(dir, s, t);
    if s.truncated {
      StoppedLater(dir, limit, s, u);
    } else if u.truncated {
      assert t in u.errors;
    }
  }

  function NewMember(dir: Directory, via: seq<Dn>, attribute: string, t: Dn): Member
  {
    Member(t, IsGroupNode(dir, t), |via| == 0, via, attribute)
  }

  /** The state with the member added, and on the way when it is a group. */
  function AfterMember(dir: Directory, s: Found, via: seq<Dn>, attribute: string, t: Dn): Found
  {
    AfterRead(s, t).(members := s.members + [NewMember(dir, via, attribute, t)],
                     path := s.path + if IsGroupNode(dir, t) then {t} else {})
  }

  lemma MemberAccounts(dir: Directory, limit: nat, s: Found, via: seq<Dn>, attribute: string, t: Dn)
    requires CanRead(dir, limit, s, via, attribute, t) && dir.read(t).Entry? && |via| < MAX_DEPTH
    ensures Accounts(dir, limit, AfterMember(dir, s, via, attribute, t))
  {
    var u := AfterMember(dir, s, via, attribute, t);
    LogGrows(dir, s, t);
    PickMore(dir, s.log, t, Read);
    PickMore(dir, s.log, t, Missing);
    PickMore(dir, s.log, t, Failed);
    assert DnsOf(u.members) == DnsOf(s.members) + [t];
  }

  lemma MemberTruthful(dir: Directory, limit: nat, s: Found, via: seq<Dn>, attribute: string, t: Dn)
    requires CanRead(dir, limit, s, via, attribute, t) && dir.read(t).Entry? && |via| < MAX_DEPTH
    ensures Truthful(dir, AfterMember(dir, s, via, attribute, t))
  {
    assert Holds(ValuesOf(dir, Current(dir, via)), t);
    ChainReaches(dir, via, t);
    assert MemberOk(dir, NewMember(dir, via, attribute, t));
  }

  lemma MemberProgress(dir: Directory, limit: nat, s: Found, via: seq<Dn>, attribute: string, t: Dn)
    requires CanRead(dir, limit, s, via, attribute, t) && dir.read(t).Entry?
    ensures Progress(dir, AfterMember(dir, s, via, attribute, t))
  {
    var u := AfterMember(dir, s, via, attribute, t);
    forall g | g in u.rank
      ensures WalkedToEnd(dir, u, g)
    {
      assert WalkedToEnd(dir, s, g);
      forall v | v in ValuesOf(dir, g)
        ensures Handled(dir, u, v, u.rank[g])
      {
        HandledLater(dir, s, u, v, s.rank[g], u.rank[g]);
      }
    }
  }

  lemma MemberKeeps(dir: Directory, limit: nat, s: Found, via: seq<Dn>, attribute: string, t: Dn)
    requires CanRead(dir, limit, s, via, attribute, t) && dir.read(t).Entry? && |via| < MAX_DEPTH
    ensures Inv(dir, limit, AfterMember(dir, s, via, attribute, t))
    ensures IsGroupNode(dir, t) ==> AtGroup(dir, AfterMember(dir, s, via, attribute, t), via + [t])
  {
    MemberAccounts(dir, limit, s, via, attribute, t);
    MemberTruthful(dir, limit, s, via, attribute, t);
    MemberProgress(dir, limit, s, via, attribute, t);
    if s.truncated {
      StoppedLater(dir, limit, s, AfterMember(dir, s, via, attribute, t));
    }
    assert Holds(ValuesOf(dir, Current(dir, via)), t);
    ChainReaches(dir, via, t);
    assert [dir.root] + (via + [t]) == [dir.root] + via + [t];
  }

  /** A group taken off the way again, and numbered when it was walked to its end. */
  function Closed(s: Found, t: Dn): Found
  {
    if s.truncated then s.(path := s.path - {t})
    else s.(path := s.path - {t}, rank := s.rank[t := s.clock], clock := s.clock + 1)
  }

  lemma CloseKeeps(dir: Directory, limit: nat, s: Found, t: Dn)
    requires Inv(dir, limit, s) && t in s.path && IsGroupNode(dir, t)
    requires !s.truncated ==> HandledAll(dir, s, ValuesOf(dir, t))
    ensures Inv(dir, limit, Closed(s, t))
  {
    var u := Closed(s, t);
    if s.truncated {
      StoppedLater(dir, limit, s, u);
    }
    forall g | g in u.rank
      ensures WalkedToEnd(dir, u, g)
    {
      if g in s.rank {
        assert WalkedToEnd(dir, s, g);
      }
      forall v | v in ValuesOf(dir, g)
        ensures Handled(dir, u, v, u.rank[g])
      {
        HandledLater(dir, s, u, v, if g in s.rank then s.rank[g] else s.clock, u.rank[g]);
      }
    }
  }

  lemma TruncateKeeps(dir: Directory, limit: nat, s: Found)
    requires Inv(dir, limit, s) && Stopped(dir, limit, s)
    ensures Inv(dir, limit, s.(truncated := true)) && Extends(s, s.(truncated := true))
  {
    var t := s.(truncated := true);
    StoppedLater(dir, limit, s, t);
    forall g | g in t.rank
      ensures WalkedToEnd(dir, t, g)
    {
      assert WalkedToEnd(dir, s, g);
      forall v | v in ValuesOf(dir, g)
        ensures Handled(dir, t, v, t.rank[g])
      {
        HandledLater(dir, s, t, v, s.rank[g], t.rank[g]);
      }
    }
  }

  lemma HandledByOther(dir: Directory, limit: nat, s: Found, attribute: string, t: Dn)
    requires Inv(dir, limit, s) && !s.truncated && t in s.seen && t !in s.path
    ensures Handled(dir, s, Names(attribute, t), s.clock)
  {
    if IsGroupNode(dir, t) {
      assert WalkedToEnd(dir, s, t);
    }
  }

  lemma MemberEnd(dir: Directory, s: Found, u: Found, w: Found, attribute: string, t: Dn)
    requires s.path + {t} == u.path && t !in s.path && t in u.seen && IsGroupNode(dir, t)
    requires Extends(s, u.(path := s.path)) && Extends(u, w.(path := u.path)) && w.path == u.path - {t}
    requires !w.truncated ==> t in w.rank && w.rank[t] < w.clock
    ensures Extends(s, w)
    ensures !w.truncated ==> Handled(dir, w, Names(attribute, t), w.clock)
  {
  }

  /** Everything one walk found; `seen` and `path` are shared by all its calls. */
  class Expansion {
    const dir: Directory
    const limit: nat
    var members: seq<Member>
    var cycles: seq<Dn>
    var dangling: seq<Dn>
    var errors: seq<Dn>
    var unresolvable: seq<string>
    var truncated: bool
    var readCount: nat
    var seen: set<Dn>
    var path: set<Dn>
    ghost var log: seq<Dn>
    ghost var met: seq<string>
    ghost var rank: map<Dn, nat>
    ghost var clock: nat

    ghost function Now(): Found
      reads this
    {
      Found(log, members, cycles, dangling, errors, unresolvable, truncated, readCount, seen, path, met, rank, clock)
    }

    constructor (dir: Directory, limit: nat)
      ensures this.dir == dir && this.limit == limit
      ensures Now() == Found([], [], [], [], [], [], false, 0, {dir.root}, {dir.root}, [], map[], 0)
    {
      this.dir, this.limit := dir, limit;
      members, cycles, dangling, errors, unresolvable := [], [], [], [], [];
      truncated, readCount := false, 0;
      seen, path := {dir.root}, {dir.root};
      log, met, rank, clock := [], [], map[], 0;
    }

    /** Walks the membership values of one group. */
    method Walk(values: seq<Value>, via: seq<Dn>, depth: nat)
      requires Inv(dir, limit, Now()) && AtGroup(dir, Now(), via)
      requires values == ValuesOf(dir, Current(dir, via)) && depth == |via| + 1 <= MAX_DEPTH + 1
      requires depth > MAX_DEPTH ==> TooDeep(Now())
      modifies this
      ensures Inv(dir, limit, Now()) && Extends(old(Now()), Now())
      ensures !truncated ==> HandledAll(dir, Now(), values)
      decreases MAX_DEPTH + 1 - depth, 1
    {
      if depth > MAX_DEPTH {
        TruncateKeeps(dir, limit, Now());
        truncated := true;
        return;
      }
      ghost var s0 := Now();
      for i := 0 to |values|
        invariant Inv(dir, limit, Now()) && Extends(s0, Now())
        invariant !truncated ==> HandledAll(dir, Now(), values[..i])
      {
        assert values[..i + 1] == values[..i] + [values[i]];
        ghost var s := Now();
        var stop := Visit(values[i], via, depth);
        if stop {
          return;
        }
        HandledAllLater(dir, s, Now(), values[..i]);
      }
      assert values[..|values|] == values;
    }

    /** One membership value of the group at the end of `via`; says whether the walk of the group stops here. */
    method Visit(v: Value, via: seq<Dn>, depth: nat) returns (stop: bool)
      requires Inv(dir, limit, Now()) && AtGroup(dir, Now(), via)
      requires v in ValuesOf(dir, Current(dir, via)) && depth == |via| + 1 <= MAX_DEPTH
      modifies this
      ensures Inv(dir, limit, Now()) && Extends(old(Now()), Now())
      ensures stop ==> truncated
      ensures !truncated ==> Handled(dir, Now(), v, clock)
      decreases MAX_DEPTH + 1 - depth, 0
    {
      ghost var s := Now();
      if v.Blank? {
        return false;
      }
      if |members| >= limit || readCount >= MAX_READS {
        TruncateKeeps(dir, limit, s);
        truncated := true;
        return true;
      }
      if v.NotDn? {
        UnresolvableKeeps(dir, limit, s, via, v.attribute, v.text);
        Meet(Line(v.attribute, v.text));
        return false;
      }
      var t := v.target;
      assert Holds(ValuesOf(dir, Current(dir, via)), t);
      if t in path {
        CycleKeeps(dir, limit, s, via, t);
        cycles := AppendNew(cycles, t);
        return false;
      }
      if t in seen {
        if !truncated {
          HandledByOther(dir, limit, s, v.attribute, t);
        }
        return false;
      }
      stop := ReadOne(v.attribute, t, via, depth);
    }

    /** A value that is not a DN. */
    method Meet(u: string)
      modifies this`unresolvable, this`met
      ensures Now() == AfterText(old(Now()), u)
    {
      unresolvable := AppendText(unresolvable, u);
      met := met + [u];
    }

    /** A DN not seen before, which is read to find out what it is. */
    method ReadOne(attribute: string, t: Dn, via: seq<Dn>, depth: nat) returns (stop: bool)
      requires CanRead(dir, limit, Now(), via, attribute, t) && depth == |via| + 1 <= MAX_DEPTH
      modifies this
      ensures Inv(dir, limit, Now()) && Extends(old(Now()), Now())
      ensures stop ==> truncated
      ensures !truncated ==> Handled(dir, Now(), Names(attribute, t), clock)
      decreases MAX_DEPTH - depth, 4
    {
      if dir.read(t).Entry? {
        ghost var s := Now();
        seen, readCount, log := seen + {t}, readCount + 1, log + [t];
        ReadMember(s, attribute, t, via, depth);
        stop := false;
      } else {
        NoEntryKeeps(dir, limit, Now(), via, attribute, t);
        NewIsNotDangling(dir, Now(), t);
        stop := Record(t);
      }
    }

    /** A read that found nothing, or failed. */
    method Record(t: Dn) returns (stop: bool)
      requires !dir.read(t).Entry? && t !in dangling
      modifies this
      ensures Now() == AfterNoEntry(dir, old(Now()), t)
      ensures stop ==> truncated
    {
      seen, readCount, log := seen + {t}, readCount + 1, log + [t];
      match dir.read(t) {
        case Nothing =>
          dangling := AppendNew(dangling, t);
          stop := false;
        case Error(ended) =>
          errors := errors + [t];
          if ended {
            truncated := true;
          }
          stop := ended;
      }
    }

    /** A member that was read, and when it is a group, what is in it. */
    method ReadMember(ghost s: Found, attribute: string, t: Dn, via: seq<Dn>, depth: nat)
      requires CanRead(dir, limit, s, via, attribute, t) && dir.read(t).Entry?
      requires Now() == AfterRead(s, t) && depth == |via| + 1 <= MAX_DEPTH
      modifies this
      ensures Inv(dir, limit, Now()) && Extends(s, Now())
      ensures !truncated ==> Handled(dir, Now(), Names(attribute, t), clock)
      decreases MAX_DEPTH - depth, 3
    {
      ghost var u := AfterMember(dir, s, via, attribute, t);
      MemberKeeps(dir, limit, s, via, attribute, t);
      var nested := AddMember(attribute, t, via, depth);
      assert Now() == u;
      if nested {
        assert NewMember(dir, via, attribute, t) in u.members;
        WalkNested(t, via + [t], depth + 1);
        MemberEnd(dir, s, u, Now(), attribute, t);
      }
    }

    method AddMember(attribute: string, t: Dn, via: seq<Dn>, depth: nat) returns (nested: bool)
      requires dir.read(t).Entry?
      modifies this`members, this`path
      ensures nested == dir.read(t).isGroup
      ensures members == old(members) + [Member(t, nested, depth == 1, via, attribute)]
      ensures path == old(path) + if nested then {t} else {}
    {
      nested := dir.read(t).isGroup;
      members := members + [Member(t, nested, depth == 1, via, attribute)];
      if nested {
        path := path + {t};
      }
    }

    /** Walks a group just put on the way, and takes it off again. */
    method WalkNested(t: Dn, via: seq<Dn>, depth: nat)
      requires Inv(dir, limit, Now()) && AtGroup(dir, Now(), via)
      requires t == Current(dir, via) != dir.root && t in path && dir.read(t).Entry?
      requires depth == |via| + 1 <= MAX_DEPTH + 1 && (depth > MAX_DEPTH ==> TooDeep(Now()))
      modifies this
      ensures Inv(dir, limit, Now()) && Extends(old(Now()), Now().(path := old(path))) && path == old(path) - {t}
      ensures !truncated ==> t in rank && rank[t] < clock
      decreases MAX_DEPTH + 1 - depth, 2
    {
      ghost var u := Now();
      Walk(dir.read(t).values, via, depth);
      ghost var w := Now();
      CloseKeeps(dir, limit, w, t);
      assert t !in w.rank;
      Leave(t);
    }

    /** Takes a group off the way, and numbers it when it was walked to its end. */
    method Leave(t: Dn)
      modifies this`path, this`rank, this`clock
      ensures Now() == Closed(old(Now()), t)
    {
      path := path - {t};
      if !truncated {
        rank, clock := rank[t := clock], clock + 1;
      }
    }
  }

  // ----- what a whole walk says

  lemma {:induction false} PickCount(dir: Directory, log: seq<Dn>)
    ensures |Pick(dir, log, Read)| + |Pick(dir, log, Missing)| + |Pick(dir, log, Failed)| == |log|
  {
    if log != [] {
      PickCount(dir, log[..|log| - 1]);
    }
  }

  /** The DNs read are exactly those reached from the root through groups. */
  ghost predicate ReadsWhatIsReached(dir: Directory, log: seq<Dn>)
  {
    forall d :: d in log <==> d != dir.root && Reach(StepOf(dir), dir.root, d)
  }

  /** Every cycle that can be reached goes through a reported group. */
  ghost predicate EveryCycleReported(dir: Directory, cycles: seq<Dn>)
  {
    forall c, p :: Reach(StepOf(dir), dir.root, c) && PathFrom(StepOf(dir), c, c, p) && |p| > 1 ==>
      exists k: nat :: k < |p| && p[k] in cycles
  }

  lemma WalkedStep(dir: Directory, s: Found, a: Dn, b: Dn)
    requires Progress(dir, s) && s.path == {} && !s.truncated
    requires a in s.seen && StepOf(dir)(a, b)
    ensures a in s.rank && b in s.seen
    ensures b in s.cycles || !IsGroupNode(dir, b) || (b in s.rank && s.rank[b] < s.rank[a])
  {
    assert IsGroupNode(dir, a);
    assert WalkedToEnd(dir, s, a);
    var attribute :| Names(attribute, b) in ValuesOf(dir, a);
    assert Handled(dir, s, Names(attribute, b), s.rank[a]);
  }

  /** The values met that are not DNs are those of the groups reached. */
  ghost predicate MeetsEveryText(dir: Directory, met: seq<string>)
  {
    forall u :: u in met <==> InSomeGroup(dir, u)
  }

  lemma WholeWalkMeetsText(dir: Directory, limit: nat, s: Found)
    requires Inv(dir, limit, s) && s.path == {} && !s.truncated
    ensures MeetsEveryText(dir, s.met)
  {
    WholeWalkReadsAll(dir, limit, s);
    forall u | InSomeGroup(dir, u)
      ensures u in s.met
    {
      var g, attribute, text :| Reach(StepOf(dir), dir.root, g) && NotDn(attribute, text) in ValuesOf(dir, g) &&
        u == Line(attribute, text);
      assert g in s.seen && IsGroupNode(dir, g);
      assert WalkedToEnd(dir, s, g);
      assert Handled(dir, s, NotDn(attribute, text), s.rank[g]);
    }
  }

  /** No two values of the groups reached, that are not DNs, are alike but for case. */
  ghost predicate OneSpelling(dir: Directory)
  {
    forall u, w :: InSomeGroup(dir, u) && InSomeGroup(dir, w) && SameText(u, w) ==> u == w
  }

  ghost predicate EveryTextReported(dir: Directory, unresolvable: seq<string>)
  {
    forall u :: InSomeGroup(dir, u) ==> u in unresolvable
  }

  /**
   What a whole walk reports of the values that are not DNs: each is missing exactly when one
   like it but for case was met first, and then that one is reported.
   */
  lemma WholeWalkReportsText(dir: Directory, limit: nat, e: Found, u: string)
    requires Promise(dir, limit, e) && !e.truncated
    ensures u in e.unresolvable <==> InSomeGroup(dir, u) && !TwinFirst(e.met, u)
    ensures InSomeGroup(dir, u) ==> exists w :: w in e.unresolvable && Lower(w) == Lower(u)
    ensures forall i: nat, j: nat :: i < j < |e.unresolvable| ==> !SameText(e.unresolvable[i], e.unresolvable[j])
  {
    FirstsApart(e.met);
    FirstsAre(e.met, u);
    KnownFirsts(e.met, u);
    if u in e.met {
      var k: nat :| k < |e.met| && e.met[k] == u;
      assert SameText(e.met[k], u);
      var n: nat :| n < |e.unresolvable| && SameText(e.unresolvable[n], u);
      assert e.unresolvable[n] in e.unresolvable;
    }
  }

  /** Every such value is reported exactly when no two of them are alike but for case. */
  lemma EveryTextIff(dir: Directory, limit: nat, e: Found)
    requires Promise(dir, limit, e) && !e.truncated
    ensures EveryTextReported(dir, e.unresolvable) <==> OneSpelling(dir)
  {
    if EveryTextReported(dir, e.unresolvable) {
      forall u, w | InSomeGroup(dir, u) && InSomeGroup(dir, w) && SameText(u, w)
        ensures u == w
      {
        ReportedApart(dir, limit, e, u, w);
      }
    }
    if OneSpelling(dir) {
      forall u | InSomeGroup(dir, u)
        ensures u in e.unresolvable
      {
        NoTwin(dir, e.met, u);
        WholeWalkReportsText(dir, limit, e, u);
      }
    }
  }

  lemma ReportedApart(dir: Directory, limit: nat, e: Found, u: string, w: string)
    requires Promise(dir, limit, e) && !e.truncated
    requires u in e.unresolvable && w in e.unresolvable && SameText(u, w)
    ensures u == w
  {
    FirstsApart(e.met);
    var i: nat, j: nat :|
      i < |e.unresolvable| && j < |e.unresolvable| && e.unresolvable[i] == u && e.unresolvable[j] == w;
    assert i == j;
  }

  lemma NoTwin(dir: Directory, met: seq<string>, u: string)
    requires OneSpelling(dir) && InSomeGroup(dir, u) && forall w :: w in met ==> InSomeGroup(dir, w)
    ensures !TwinFirst(met, u)
  {
    forall j: nat | j < |met|
      ensures !TwinAt(met, u, j)
    {
      assert met[j] in met;
    }
  }

  lemma WholeWalkReadsAll(dir: Directory, limit: nat, s: Found)
    requires Inv(dir, limit, s) && s.path == {} && !s.truncated
    ensures ReadsWhatIsReached(dir, s.log)
  {
    var inside := iset d | d in s.seen;
    forall d | d != dir.root && Reach(StepOf(dir), dir.root, d)
      ensures d in s.log
    {
      forall a, b | a in inside && StepOf(dir)(a, b)
        ensures b in inside
      {
        WalkedStep(dir, s, a, b);
      }
      ClosedUnderReach(StepOf(dir), inside, dir.root, d);
    }
  }

  /** Along a path that meets no reported group, each group was walked to its end before the one naming it. */
  lemma {:induction false} RanksFall(dir: Directory, s: Found, p: seq<Dn>, k: nat)
    requires Progress(dir, s) && s.path == {} && !s.truncated
    requires IsPath(StepOf(dir), p) && p[0] in s.seen && 0 < k < |p|
    requires forall i: nat :: i < |p| ==> p[i] !in s.cycles && IsGroupNode(dir, p[i])
    ensures p[0] in s.rank && p[k] in s.rank && s.rank[p[k]] < s.rank[p[0]]
  {
    if k > 1 {
      RanksFall(dir, s, p, k - 1);
    }
    assert WalkedToEnd(dir, s, p[k - 1]) || k == 1;
    assert StepOf(dir)(p[k - 1], p[k]);
    WalkedStep(dir, s, p[k - 1], p[k]);
  }

  lemma StepsLeaveGroups(dir: Directory, a: Dn, b: Dn)
    requires StepOf(dir)(a, b)
    ensures IsGroupNode(dir, a)
  {
    assert Holds(ValuesOf(dir, a), b);
  }

  lemma CycleMeetsReported(dir: Directory, limit: nat, s: Found, c: Dn, p: seq<Dn>)
    requires Inv(dir, limit, s) && s.path == {} && !s.truncated
    requires Reach(StepOf(dir), dir.root, c) && PathFrom(StepOf(dir), c, c, p) && |p| > 1
    ensures exists k: nat :: k < |p| && p[k] in s.cycles
  {
    WholeWalkReadsAll(dir, limit, s);
    if forall i: nat :: i < |p| ==> p[i] !in s.cycles {
      forall i: nat | i < |p|
        ensures IsGroupNode(dir, p[i])
      {
        var j := if i == |p| - 1 then 0 else i;
        var k := j + 1;
        assert p[j] == p[i] && StepOf(dir)(p[j], p[k]);
        StepsLeaveGroups(dir, p[j], p[k]);
      }
      RanksFall(dir, s, p, |p| - 1);
    }
  }

  /** What an expansion promises, whatever the graph, the limit and the reads. */
  ghost predicate Promise(dir: Directory, limit: nat, e: Found)
  {
    && Accounts(dir, limit, e) && Truthful(dir, e)
    && |e.members| + |e.dangling| + |e.errors| == e.readCount
    && (e.truncated ==> Stopped(dir, limit, e))
    && (!e.truncated ==>
          && ReadsWhatIsReached(dir, e.log)
          && EveryCycleReported(dir, e.cycles)
          && MeetsEveryText(dir, e.met))
  }

  /** Resolves a group's membership, following nested groups. */
  method ExpandGroup(dir: Directory, limit: nat) returns (out: Expansion)
    ensures fresh(out) && out.dir == dir && out.limit == limit
    ensures Promise(dir, limit, out.Now()) && out.path == {dir.root}
  {
    out := new Expansion(dir, limit);
    StartHolds(dir, limit);
    out.Walk(dir.rootValues, [], 1);
    ghost var w := out.Now();
    CloseKeeps(dir, limit, w, dir.root);
    PickCount(dir, w.log);
    if !w.truncated {
      ghost var s := Closed(w, dir.root);
      WholeWalkReadsAll(dir, limit, s);
      WholeWalkMeetsText(dir, limit, s);
      forall c, p | Reach(StepOf(dir), dir.root, c) && PathFrom(StepOf(dir), c, c, p) && |p| > 1
        ensures exists k: nat :: k < |p| && p[k] in w.cycles
      {
        CycleMeetsReported(dir, limit, s, c, p);
      }
    }
  }

  // ----- what is listed where

  /** A DN read is listed by what reading it answered: an entry, "no such object", or anything else. */
  lemma ListedByAnswer(dir: Directory, limit: nat, e: Found, d: Dn)
    requires Promise(dir, limit, e)
    ensures (exists m :: m in e.members && m.dn == d) <==> d in e.log && dir.read(d).Entry?
    ensures d in e.dangling <==> d in e.log && dir.read(d).Nothing?
    ensures d in e.errors <==> d in e.log && dir.read(d).Error?
  {
    PickIn(dir, e.log, Read);
    PickIn(dir, e.log, Missing);
    PickIn(dir, e.log, Failed);
    var dns := DnsOf(e.members);
    if m :| m in e.members && m.dn == d {
      var i: nat :| i < |e.members| && e.members[i] == m;
      assert dns[i] == d;
    }
    if d in dns {
      var i: nat :| i < |dns| && dns[i] == d;
      assert e.members[i] in e.members;
    }
  }

  /** A walk that did not stop short lists every DN reached, once, by what reading it answers. */
  lemma WholeWalkLists(dir: Directory, limit: nat, e: Found, d: Dn)
    requires Promise(dir, limit, e) && !e.truncated && d != dir.root
    ensures Reach(StepOf(dir), dir.root, d) <==>
      d in e.dangling || d in e.errors || exists m :: m in e.members && m.dn == d
    ensures NoDuplicates(e.dangling) && NoDuplicates(e.errors) && NoDuplicates(DnsOf(e.members))
  {
    ListedByAnswer(dir, limit, e, d);
    PickOnce(dir, e.log, Read);
    PickOnce(dir, e.log, Missing);
    PickOnce(dir, e.log, Failed);
  }

  lemma {:induction false} PickOnce(dir: Directory, log: seq<Dn>, o: Outcome)
    requires NoDuplicates(log)
    ensures NoDuplicates(Pick(dir, log, o))
  {
    if log != [] {
      PickOnce(dir, log[..|log| - 1], o);
      PickIn(dir, log[..|log| - 1], o);
      assert forall k: nat :: k < |log| - 1 ==> log[k] != log[|log| - 1];
    }
  }

  /** The graph that is walked: from the root, and from a DN that reads as a group, to what the values name. */
  lemma GraphIsRead(dir: Directory, a: Dn, b: Dn)
    ensures StepOf(dir)(a, b) <==>
      if a == dir.root then Gives(dir.rootValues, b)
      else dir.read(a).Entry? && dir.read(a).isGroup && Gives(dir.read(a).values, b)
  {
    HoldsIsGives(ValuesOf(dir, a), b);
  }

  lemma HoldsIsGives(values: seq<Value>, d: Dn)
    ensures Holds(values, d) <==> Gives(values, d)
  {
    if Holds(values, d) {
      var attribute :| Names(attribute, d) in values;
    }
  }

  /** What is said of a member is what it reads as, and what the group that names it holds. */
  lemma MembersAreRead(dir: Directory, limit: nat, e: Found, m: Member)
    requires Promise(dir, limit, e) && m in e.members
    ensures dir.read(m.dn).Entry? && (m.group <==> dir.read(m.dn).isGroup)
    ensures m.direct <==> m.via == []
    ensures m.via == [] ==> Names(m.through, m.dn) in dir.rootValues
    ensures m.via != [] ==>
      dir.read(m.via[|m.via| - 1]).Entry? && Names(m.through, m.dn) in dir.read(m.via[|m.via| - 1]).values
  {
    ListedByAnswer(dir, limit, e, m.dn);
    assert MemberOk(dir, m);
    var p := [dir.root] + m.via + [m.dn];
    assert p[|p| - 1] == m.dn && p[0] == dir.root;
    if m.via != [] {
      assert p[|m.via|] == ([dir.root] + m.via)[|m.via|] == m.via[|m.via| - 1];
    }
  }

  /** Some value names the DN. */
  ghost predicate Gives(values: seq<Value>, d: Dn)
  {
    exists k: nat, attribute :: k < |values| && values[k] == Names(attribute, d)
  }

  // ----- when a walk is whole

  /** A path through groups from the root, without a repetition, to a group ten levels down. */
  ghost predicate DeepChain(dir: Directory, p: seq<Dn>)
  {
    && |p| == 11 && p[0] == dir.root && NoDuplicates(p) && IsPath(StepOf(dir), p)
    && IsGroupNode(dir, p[10])
  }

  /** A walk is whole where few DNs are reached, no group is that deep, and the request does not end. */
  lemma WholeWhenSmall(dir: Directory, limit: nat, e: Found, reached: set<Dn>)
    requires Promise(dir, limit, e)
    requires forall d :: Reach(StepOf(dir), dir.root, d) ==> d in reached
    requires |reached| <= limit && |reached| <= 1000
    requires forall p :: !DeepChain(dir, p)
    requires forall d :: d in reached ==> dir.read(d) != Error(true)
    ensures !e.truncated
  {
    LogWithin(dir, e, reached);
    PickCount(dir, e.log);
    if TooDeep(e) {
      var m :| m in e.members && m.group && |m.via| == MAX_DEPTH - 1;
      assert MemberOk(dir, m);
      assert DeepChain(dir, [dir.root] + m.via + [m.dn]);
    }
    if RequestEnded(dir, e) {
      var d :| d in e.errors && dir.read(d) == Error(true);
      PickIn(dir, e.log, Failed);
      assert d in e.log;
    }
  }

  /** Fewer DNs are read than are reached, since the root is not read. */
  lemma LogWithin(dir: Directory, e: Found, reached: set<Dn>)
    requires NoDuplicates(e.log) && dir.root !in e.log && Truthful(dir, e)
    requires forall d :: Reach(StepOf(dir), dir.root, d) ==> d in reached
    ensures |e.log| < |reached|
  {
    assert PathFrom(StepOf(dir), dir.root, dir.root, [dir.root]);
    DistinctIn(e.log, reached - {dir.root});
  }

  lemma {:induction false} DistinctIn(s: seq<Dn>, all: set<Dn>)
    requires NoDuplicates(s) && forall d :: d in s ==> d in all
    ensures |s| <= |all|
  {
    if s != [] {
      var rest, d := s[..|s| - 1], s[|s| - 1];
      assert d in all;
      DistinctIn(rest, all - {d});
    }
  }

  // ----- two login names alike but for case

  const TWO_NAMES: seq<Value> := [NotDn("memberUid", "Bob"), NotDn("memberUid", "bob")]

  function Flat(root: Dn): Directory
  {
    Directory(root, TWO_NAMES, d => Nothing)
  }

  /**
   Of a group of two login names alike but for case, every walk with room for a member is
   whole and reports one of them only.
   */
  lemma TwoNamesOneReported(root: Dn, limit: nat, e: Found)
    requires limit >= 1 && Promise(Flat(root), limit, e)
    ensures !e.truncated && (e.unresolvable == ["memberUid: Bob"] || e.unresolvable == ["memberUid: bob"])
    ensures InSomeGroup(Flat(root), "memberUid: Bob") && InSomeGroup(Flat(root), "memberUid: bob")
  {
    FlatReaches(root);
    WholeWhenSmall(Flat(root), limit, e, {root});
    FlatTexts(root);
    FlatReportsOne(root, limit, e);
    OneOfTwo(root, limit, e, e.unresolvable[0]);
    TwoLines();
  }

  lemma TwoLines()
    ensures Line("memberUid", "Bob") == "memberUid: Bob" && Line("memberUid", "bob") == "memberUid: bob"
  {
  }

  lemma FlatReportsOne(root: Dn, limit: nat, e: Found)
    requires Promise(Flat(root), limit, e) && !e.truncated
    ensures |e.unresolvable| == 1
  {
    FlatTexts(root);
    WholeWalkReportsText(Flat(root), limit, e, Line("memberUid", "Bob"));
    if |e.unresolvable| > 1 {
      OneOfTwo(root, limit, e, e.unresolvable[0]);
      OneOfTwo(root, limit, e, e.unresolvable[1]);
      TwoAlike(e.unresolvable[0], e.unresolvable[1]);
    }
  }

  predicate IsOneOfTwo(u: string)
  {
    u == Line("memberUid", "Bob") || u == Line("memberUid", "bob")
  }

  lemma NoStep(root: Dn, a: Dn, b: Dn)
    ensures !StepOf(Flat(root))(a, b)
  {
    assert ValuesOf(Flat(root), a) == TWO_NAMES || ValuesOf(Flat(root), a) == [];
  }

  lemma FlatReaches(root: Dn)
    ensures forall d :: Reach(StepOf(Flat(root)), root, d) ==> d == root
    ensures forall p :: !DeepChain(Flat(root), p)
  {
    var step := StepOf(Flat(root));
    forall d | Reach(step, root, d)
      ensures d == root
    {
      forall x, y
        ensures !step(x, y)
      {
        NoStep(root, x, y);
      }
      ClosedUnderReach(step, iset{root}, root, d);
    }
    forall p: seq<Dn> | |p| > 1
      ensures !IsPath(step, p)
    {
      NoStep(root, p[0], p[1]);
    }
  }

  lemma FlatTexts(root: Dn)
    ensures forall u :: InSomeGroup(Flat(root), u) <==> IsOneOfTwo(u)
  {
    var dir := Flat(root);
    FlatReaches(root);
    assert PathFrom(StepOf(dir), root, root, [root]);
    assert TWO_NAMES[0] in ValuesOf(dir, root) && TWO_NAMES[1] in ValuesOf(dir, root);
  }

  lemma OneOfTwo(root: Dn, limit: nat, e: Found, u: string)
    requires Promise(Flat(root), limit, e) && !e.truncated && u in e.unresolvable
    ensures IsOneOfTwo(u)
  {
    WholeWalkReportsText(Flat(root), limit, e, u);
    FlatTexts(root);
  }

  lemma LowerConcat(a: string, b: string)
    ensures Lower(a + b) == Lower(a) + Lower(b)
  {
  }

  lemma TwoAlike(u: string, w: string)
    requires IsOneOfTwo(u) && IsOneOfTwo(w)
    ensures SameText(u, w)
  {
    assert Lower("Bob") == Lower("bob");
    LowerConcat("memberUid" + ": ", "Bob");
    LowerConcat("memberUid" + ": ", "bob");
  }

  lemma StartHolds(dir: Directory, limit: nat)
    ensures var s := Found([], [], [], [], [], [], false, 0, {dir.root}, {dir.root}, [], map[], 0);
            Inv(dir, limit, s) && AtGroup(dir, s, [])
  {
  }

  /** When the walk did not stop short, it reports a cycle exactly when there is one to be reached. */
  lemma CyclesIffCyclic(dir: Directory, limit: nat, e: Found)
    requires Promise(dir, limit, e) && !e.truncated
    ensures e.cycles != [] <==> exists c :: Reach(StepOf(dir), dir.root, c) && OnCycle(StepOf(dir), c)
  {
    if e.cycles != [] {
      assert e.cycles[0] in e.cycles;
    }
    if c :| Reach(StepOf(dir), dir.root, c) && OnCycle(StepOf(dir), c) {
      var p :| PathFrom(StepOf(dir), c, c, p) && |p| > 1;
      assert exists k: nat :: k < |p| && p[k] in e.cycles;
    }
  }
}
