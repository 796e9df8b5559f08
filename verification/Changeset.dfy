/**
 Applying a list of changes: what is said of the list before it runs, what a run leaves
 behind when it stops, and how the two meet.
 */
module Changeset {
  import opened Options
  import opened Dns

  /** An entry: what it was added as, and what was done to it since, in order. */
  type Entry = seq<string>

  datatype Directory = Directory(entries: map<Dn, Entry>)

  datatype Change =
    | Add(attrs: string)
    | Modify(mods: string)
    | Delete
    | Rename(newRdn: Rdn, newSuperior: Dn)
    | SetPassword(password: string)

  datatype Record = Record(dn: Dn, change: Change)

  // ----- what a directory does with a change

  /** The DN the entry has after a rename. */
  function Target(r: Record): Dn
    requires r.change.Rename?
  {
    [r.change.newRdn] + if r.change.newSuperior != [] then r.change.newSuperior else Parent(r.dn)
  }

  predicate HasChild(dir: Directory, d: Dn)
  {
    exists n :: n in dir.entries && n != [] && Parent(n) == d
  }

  /** The tree has a place for the entry there. */
  predicate CanMoveTo(dir: Directory, from: Dn, to: Dn)
  {
    to !in dir.entries && !HasSuffix(to, from) && Parent(to) in dir.entries
  }

  /** The tree allows the change (sections 4.6 to 4.9 of RFC 4511); a context needs no parent. */
  predicate Allowed(contexts: set<Dn>, dir: Directory, r: Record)
  {
    match r.change
    case Add(_) => r.dn !in dir.entries && (r.dn in contexts || Parent(r.dn) in dir.entries)
    case Modify(_) => r.dn in dir.entries
    case SetPassword(_) => r.dn in dir.entries
    case Delete => r.dn in dir.entries && !HasChild(dir, r.dn)
    case Rename(_, _) =>
      r.dn in dir.entries && (Target(r) == r.dn || CanMoveTo(dir, r.dn, Target(r)))
  }

  function Rebase(n: Dn, from: Dn, to: Dn): Dn
    requires HasSuffix(n, from)
  {
    n[..|n| - |from|] + to
  }

  lemma RebaseBack(n: Dn, from: Dn, to: Dn)
    requires HasSuffix(n, from)
    ensures HasSuffix(Rebase(n, from, to), to)
    ensures Rebase(Rebase(n, from, to), to, from) == n
  {
    assert n == n[..|n| - |from|] + from;
    assert Rebase(n, from, to)[..|n| - |from|] == n[..|n| - |from|];
  }

  /** The names of a directory once the entry at `from`, and all below it, are moved to `to`. */
  function MovedName(n: Dn, from: Dn, to: Dn): Dn
  {
    if HasSuffix(n, from) then Rebase(n, from, to) else n
  }

  lemma MovedNames(dir: Directory, from: Dn, to: Dn, m: Dn)
    requires m in (set n | n in dir.entries :: MovedName(n, from, to))
    ensures (HasSuffix(m, to) && Rebase(m, to, from) in dir.entries) || m in dir.entries
  {
    var n :| n in dir.entries && MovedName(n, from, to) == m;
    if HasSuffix(n, from) {
      RebaseBack(n, from, to);
    }
  }

  function Moved(dir: Directory, from: Dn, to: Dn): (after: Directory)
    ensures forall n :: n in dir.entries && !HasSuffix(n, from) ==> n in after.entries
  {
    var names := set n | n in dir.entries :: MovedName(n, from, to);
    assert forall n :: n in dir.entries ==> MovedName(n, from, to) in names;
    Directory(map m | m in names ::
      MovedNames(dir, from, to, m);
      if HasSuffix(m, to) && Rebase(m, to, from) in dir.entries then dir.entries[Rebase(m, to, from)]
      else dir.entries[m])
  }

  function More(dir: Directory, d: Dn, text: string): Directory
  {
    if d in dir.entries then Directory(dir.entries[d := dir.entries[d] + [text]]) else dir
  }

  /** The directory after a change it allowed. */
  function Effect(dir: Directory, r: Record): Directory
  {
    match r.change
    case Add(attrs) => Directory(dir.entries[r.dn := [attrs]])
    case Modify(mods) => More(dir, r.dn, mods)
    case SetPassword(password) => More(dir, r.dn, password)
    case Delete => Directory(dir.entries - {r.dn})
    case Rename(_, _) => Moved(dir, r.dn, Target(r))
  }

  /** The directory after the first `n` of a list of changes. */
  function Fold(dir: Directory, records: seq<Record>, n: nat): Directory
    requires n <= |records|
  {
    if n == 0 then dir else Effect(Fold(dir, records, n - 1), records[n - 1])
  }

  lemma {:induction false} FoldJoin(dir: Directory, records: seq<Record>, n: nat, m: nat)
    requires n + m <= |records|
    ensures Fold(Fold(dir, records, n), records[n..], m) == Fold(dir, records, n + m)
  {
    if m > 0 {
      FoldJoin(dir, records, n, m - 1);
    }
  }

  // ----- running the list

  /**
   What the server and the network make of a change the tree allows: it is done, it is
   refused, or the connection is lost with the change done or not.
   */
  datatype Fate = Done | Refused | Lost(kept: bool)

  datatype ApplyError = NoError | RefusedError | WriteOutcomeUnknown

  class Connection {
    const contexts: set<Dn>
    var dir: Directory

    constructor (contexts: set<Dn>, dir: Directory)
      ensures this.contexts == contexts && this.dir == dir
    {
      this.contexts := contexts;
      this.dir := dir;
    }

    method Apply(r: Record, fate: Fate) returns (err: ApplyError)
      modifies this`dir
      ensures err.NoError? <==> fate.Done? && Allowed(contexts, old(dir), r)
      ensures err.WriteOutcomeUnknown? <==> fate.Lost?
      ensures dir == if Happens(contexts, old(dir), r, fate) then Effect(old(dir), r) else old(dir)
    {
      var allowed := Allowed(contexts, dir, r);
      if allowed && (fate.Done? || (fate.Lost? && fate.kept)) {
        dir := Effect(dir, r);
      }
      err := if fate.Lost? then WriteOutcomeUnknown else if fate.Done? && allowed then NoError else RefusedError;
    }
  }

  ghost predicate Happens(contexts: set<Dn>, dir: Directory, r: Record, fate: Fate)
  {
    Allowed(contexts, dir, r) && (fate.Done? || (fate.Lost? && fate.kept))
  }

  datatype Status = Applied | Failed | Unknown | NotAttempted

  datatype Outcome = Outcome(index: nat, dn: Dn, status: Status)

  datatype Report = Report(outcomes: seq<Outcome>, appliedCount: nat, failedIndex: Option<nat>)

  /** The change is allowed in its turn, after all the ones before it. */
  predicate AllowedInTurn(contexts: set<Dn>, dir: Directory, records: seq<Record>, k: nat)
    requires k < |records|
  {
    Allowed(contexts, Fold(dir, records, k), records[k])
  }

  ghost predicate AllDone(contexts: set<Dn>, dir: Directory, records: seq<Record>, n: nat)
    requires n <= |records|
  {
    forall k: nat {:trigger AllowedInTurn(contexts, dir, records, k)} ::
      k < n ==> AllowedInTurn(contexts, dir, records, k)
  }

  /** What the outcome of the `i`th change says when the run stopped after `n`, as `stop` says. */
  function Said(records: seq<Record>, n: nat, stop: Status, i: nat): Outcome
    requires i < |records|
  {
    Outcome(i, records[i].dn, if i < n then Applied else if i == n then stop else NotAttempted)
  }

  /** One outcome for each of the first changes, in order. */
  ghost predicate AllSaid(records: seq<Record>, outcomes: seq<Outcome>, n: nat, stop: Status)
    requires |outcomes| <= |records|
  {
    forall k: nat :: k < |outcomes| ==> outcomes[k] == Said(records, n, stop, k)
  }

  lemma SaidDone(records: seq<Record>, outcomes: seq<Outcome>, stop: Status)
    requires |outcomes| < |records| && AllSaid(records, outcomes, |outcomes|, stop)
    ensures AllSaid(records, outcomes + [Outcome(|outcomes|, records[|outcomes|].dn, Applied)], |outcomes| + 1, stop)
  {
  }

  lemma SaidStops(records: seq<Record>, outcomes: seq<Outcome>, stop: Status, status: Status)
    requires |outcomes| < |records| && AllSaid(records, outcomes, |outcomes|, stop)
    ensures AllSaid(records, outcomes + [Outcome(|outcomes|, records[|outcomes|].dn, status)], |outcomes|, status)
  {
  }

  /** The directory is what the first `n` changes made of it, or perhaps one more where the outcome is unknown. */
  ghost predicate LeftBy(contexts: set<Dn>, before: Directory, after: Directory,
      records: seq<Record>, n: nat, stop: Status)
    requires n < |records|
  {
    || after == Fold(before, records, n)
    || (stop.Unknown? && AllDone(contexts, before, records, n + 1) && after == Fold(before, records, n + 1))
  }

  /** The run after `i` of the changes have been looked at, stopped as `stop` says if it stopped. */
  ghost predicate Midway(contexts: set<Dn>, before: Directory, dir: Directory,
      records: seq<Record>, report: Report, stop: Status, i: nat)
    requires i <= |records|
  {
    var n := report.appliedCount;
    && n <= i == |report.outcomes|
    && (stop.Failed? || stop.Unknown?)
    && AllDone(contexts, before, records, n)
    && report.failedIndex == (if n < i then Some(n) else None)
    && AllSaid(records, report.outcomes, n, stop)
    && (if n < i then LeftBy(contexts, before, dir, records, n, stop) else dir == Fold(before, records, i))
  }

  /**
   A run: some first changes applied, each of them allowed in its turn, then at most one
   failed or unknown, and the rest not attempted; the directory is what the applied ones
   made of it, and, where the outcome is unknown, perhaps that one too.
   */
  ghost predicate IsRun(contexts: set<Dn>, before: Directory, after: Directory,
      records: seq<Record>, report: Report, stop: Status)
  {
    Midway(contexts, before, after, records, report, stop, |records|)
  }

  lemma OneMoreDone(contexts: set<Dn>, dir: Directory, records: seq<Record>, n: nat)
    requires n < |records| && AllDone(contexts, dir, records, n)
    requires Allowed(contexts, Fold(dir, records, n), records[n])
    ensures AllDone(contexts, dir, records, n + 1)
    ensures Fold(dir, records, n + 1) == Effect(Fold(dir, records, n), records[n])
  {
    assert AllowedInTurn(contexts, dir, records, n);
  }

  lemma StepDone(contexts: set<Dn>, before: Directory, dir: Directory,
      records: seq<Record>, report: Report, stop: Status, i: nat)
    requires i < |records| && Midway(contexts, before, dir, records, report, stop, i)
    requires report.failedIndex.None? && Allowed(contexts, dir, records[i])
    ensures Midway(contexts, before, Effect(dir, records[i]), records,
      Report(report.outcomes + [Outcome(i, records[i].dn, Applied)], report.appliedCount + 1, None), stop, i + 1)
  {
    SaidDone(records, report.outcomes, stop);
    OneMoreDone(contexts, before, records, i);
  }

  lemma StepStops(contexts: set<Dn>, before: Directory, dir: Directory, after: Directory,
      records: seq<Record>, report: Report, stop: Status, status: Status, i: nat)
    requires i < |records| && Midway(contexts, before, dir, records, report, stop, i)
    requires report.failedIndex.None? && (status.Failed? || status.Unknown?)
    requires after == dir || (status.Unknown? && Allowed(contexts, dir, records[i]) && after == Effect(dir, records[i]))
    ensures Midway(contexts, before, after, records,
      Report(report.outcomes + [Outcome(i, records[i].dn, status)], report.appliedCount, Some(i)), status, i + 1)
  {
    SaidStops(records, report.outcomes, stop, status);
    if after != dir {
      OneMoreDone(contexts, before, records, i);
    }
  }

  lemma StopsHere(contexts: set<Dn>, before: Directory, dir: Directory, after: Directory,
      records: seq<Record>, fate: Fate, n: nat, stop: Status)
    requires n < |records| && dir == Fold(before, records, n)
    requires !(fate.Done? && Allowed(contexts, dir, records[n])) && (stop.Unknown? <==> fate.Lost?)
    requires after == if Happens(contexts, dir, records[n], fate) then Effect(dir, records[n]) else dir
    ensures StoppedBy(contexts, before, after, records, fate, n, stop)
  {
  }

  /** The run stopped because of what became of that change, and for no other reason. */
  ghost predicate StoppedBy(contexts: set<Dn>, before: Directory, after: Directory,
      records: seq<Record>, fate: Fate, n: nat, stop: Status)
    requires n < |records|
  {
    var happens := AllowedInTurn(contexts, before, records, n) && (fate.Done? || (fate.Lost? && fate.kept));
    && !(fate.Done? && happens)
    && (stop.Unknown? <==> fate.Lost?)
    && after == Fold(before, records, if happens then n + 1 else n)
  }

  method ApplyChangeset(conn: Connection, records: seq<Record>, fates: seq<Fate>) returns (report: Report, stop: Status)
    requires |fates| == |records|
    modifies conn`dir
    ensures IsRun(conn.contexts, old(conn.dir), conn.dir, records, report, stop)
    ensures report.failedIndex.Some? ==>
      StoppedBy(conn.contexts, old(conn.dir), conn.dir, records, fates[report.appliedCount], report.appliedCount, stop)
  {
    report, stop := Report([], 0, None), Failed;
    ghost var before := conn.dir;
    for i := 0 to |records|
      invariant Midway(conn.contexts, before, conn.dir, records, report, stop, i)
      invariant report.failedIndex.Some? ==>
        StoppedBy(conn.contexts, before, conn.dir, records, fates[report.appliedCount], report.appliedCount, stop)
    {
      var record := records[i];
      if report.failedIndex.Some? {
        report := report.(outcomes := report.outcomes + [Outcome(i, record.dn, NotAttempted)]);
        continue;
      }
      ghost var dir := conn.dir;
      var err := conn.Apply(record, fates[i]);
      if !err.NoError? {
        var status := if err.WriteOutcomeUnknown? then Unknown else Failed;
        StepStops(conn.contexts, before, dir, conn.dir, records, report, stop, status, i);
        report := report.(outcomes := report.outcomes + [Outcome(i, record.dn, status)], failedIndex := Some(i));
        stop := status;
        StopsHere(conn.contexts, before, dir, conn.dir, records, fates[i], i, stop);
        continue;
      }
      StepDone(conn.contexts, before, dir, records, report, stop, i);
      report := report.(
        outcomes := report.outcomes + [Outcome(i, record.dn, Applied)],
        appliedCount := report.appliedCount + 1);
    }
  }

  /**
   What a report says of each change: those before the one that stopped the run, and only
   those, were applied; that one, if there is one, failed or is unknown; and none after it
   was attempted.
   */
  lemma ReportSays(contexts: set<Dn>, before: Directory, after: Directory,
      records: seq<Record>, report: Report, stop: Status, k: nat)
    requires IsRun(contexts, before, after, records, report, stop) && k < |records|
    ensures |report.outcomes| == |records|
    ensures report.outcomes[k].index == k && report.outcomes[k].dn == records[k].dn
    ensures report.failedIndex == if report.appliedCount < |records| then Some(report.appliedCount) else None
    ensures report.outcomes[k].status.Applied? <==> k < report.appliedCount
    ensures report.outcomes[k].status.NotAttempted? <==> report.failedIndex.Some? && k > report.failedIndex.value
    ensures report.outcomes[k].status.Failed? || report.outcomes[k].status.Unknown? <==> report.failedIndex == Some(k)
    ensures report.outcomes[k].status.Unknown? <==> report.failedIndex == Some(k) && stop.Unknown?
  {
    assert report.outcomes[k] == Said(records, report.appliedCount, stop, k);
  }

  /** As many changes are reported applied as the report counts. */
  lemma AppliedAreCounted(contexts: set<Dn>, before: Directory, after: Directory,
      records: seq<Record>, report: Report, stop: Status)
    requires IsRun(contexts, before, after, records, report, stop)
    ensures |set k: nat | k < |report.outcomes| && report.outcomes[k].status.Applied?| == report.appliedCount
  {
    forall k: nat | k < |records|
      ensures report.outcomes[k].status.Applied? <==> k < report.appliedCount
    {
      ReportSays(contexts, before, after, records, report, stop, k);
    }
    FirstApplied(report.outcomes, report.appliedCount);
  }

  lemma {:induction false} FirstApplied(outcomes: seq<Outcome>, n: nat)
    requires n <= |outcomes| && forall k: nat :: k < |outcomes| ==> (outcomes[k].status.Applied? <==> k < n)
    ensures |set k: nat | k < |outcomes| && outcomes[k].status.Applied?| == n
  {
    if outcomes != [] {
      var front, last := outcomes[..|outcomes| - 1], |outcomes| - 1;
      FirstApplied(front, if n == |outcomes| then n - 1 else n);
      assert (set k: nat | k < |outcomes| && outcomes[k].status.Applied?) ==
        (set k: nat | k < |front| && front[k].status.Applied?) + if outcomes[last].status.Applied? then {last} else {};
    }
  }

  /** The change adds a text to what is held of an entry that is there. */
  predicate Writes(change: Change, text: string)
  {
    change == Modify(text) || change == SetPassword(text)
  }

  /**
   What the changes after the first `start` leave of an entry that is there by then, if they neither
   add nor delete it and rename nothing: what it held, which is what it was added as if that was
   the last change; and after that the texts of what was done to it, in the order of the list.
   */
  lemma {:induction false} EntryHolds(contexts: set<Dn>, dir: Directory, records: seq<Record>,
      start: nat, n: nat, d: Dn) returns (places: seq<nat>)
    requires start <= n <= |records| && AllDone(contexts, dir, records, n)
    requires d in Fold(dir, records, start).entries
    requires forall k :: start <= k < n ==> !records[k].change.Rename?
    requires forall k :: start <= k < n && records[k].dn == d ==> !records[k].change.Add? && !records[k].change.Delete?
    ensures forall i: nat, j: nat :: i < j < |places| ==> places[i] < places[j]
    ensures forall k: nat :: k in places <==> start <= k < n && records[k].dn == d
    ensures var held, after := Fold(dir, records, start).entries[d], Fold(dir, records, n).entries;
      && (start > 0 && records[start - 1].change.Add? && records[start - 1].dn == d ==>
            held == [records[start - 1].change.attrs])
      && d in after && |after[d]| == |held| + |places| && after[d][..|held|] == held
      && forall i: nat :: i < |places| ==>
           places[i] < n && Writes(records[places[i]].change, after[d][|held| + i])
    decreases n
  {
    if n == start {
      places := [];
    } else {
      places := EntryHolds(contexts, dir, records, start, n - 1, d);
      if records[n - 1].dn == d {
        places := places + [n - 1];
      }
    }
  }

  /** A rename takes the contents of every entry it moves with it, and leaves those of the others. */
  lemma MovedContents(dir: Directory, from: Dn, to: Dn, n: Dn)
    requires n in dir.entries && !HasSuffix(to, from)
    requires forall m :: m in dir.entries ==> !HasSuffix(m, to)
    ensures var there := if HasSuffix(n, from) then n[..|n| - |from|] + to else n;
      there in Moved(dir, from, to).entries && Moved(dir, from, to).entries[there] == dir.entries[n]
  {
    if HasSuffix(n, from) {
      RebaseBack(n, from, to);
      assert MovedName(n, from, to) == n[..|n| - |from|] + to;
    } else {
      assert MovedName(n, from, to) == n;
    }
  }

  /**
   A rename puts the entry, and each below it with what it holds, under the new RDN: below the
   new superior, or below the old parent where the change names none.
   */
  lemma RenamePuts(dir: Directory, r: Record, to: Dn, n: Dn)
    requires r.change.Rename? && r.dn != [] && n in dir.entries && HasSuffix(n, r.dn)
    requires to == [r.change.newRdn] + if r.change.newSuperior == [] then r.dn[1..] else r.change.newSuperior
    requires !HasSuffix(to, r.dn) && forall m :: m in dir.entries ==> !HasSuffix(m, to)
    ensures var there := n[..|n| - |r.dn|] + to;
      there in Effect(dir, r).entries && Effect(dir, r).entries[there] == dir.entries[n]
  {
    MovedContents(dir, r.dn, to, n);
  }

  /** Correcting what failed and running the rest goes on exactly where the first run stopped. */
  lemma ResumeCompletes(contexts: set<Dn>, before: Directory, middle: Directory, after: Directory,
      records: seq<Record>, first: Report, second: Report, stop: Status)
    requires IsRun(contexts, before, middle, records, first, Failed)
    requires IsRun(contexts, middle, after, records[first.appliedCount..], second, stop)
    ensures AllDone(contexts, before, records, first.appliedCount + second.appliedCount)
    ensures second.failedIndex.None? ==> after == Fold(before, records, |records|)
  {
    var n := first.appliedCount;
    assert middle == Fold(before, records, n);
    AllDoneJoin(contexts, before, records, n, second.appliedCount);
    FoldJoin(before, records, n, |records| - n);
  }

  lemma AllDoneJoin(contexts: set<Dn>, before: Directory, records: seq<Record>, n: nat, m: nat)
    requires n + m <= |records|
    requires AllDone(contexts, before, records, n)
    requires AllDone(contexts, Fold(before, records, n), records[n..], m)
    ensures AllDone(contexts, before, records, n + m)
  {
    forall k: nat {:trigger AllowedInTurn(contexts, before, records, k)} | n <= k < n + m
      ensures AllowedInTurn(contexts, before, records, k)
    {
      FoldJoin(before, records, n, k - n);
      assert AllowedInTurn(contexts, Fold(before, records, n), records[n..], k - n);
    }
  }

  // ----- what is said of the list before it runs

  datatype Warning =
    | ParentLater(index: nat, at: nat)
    | ActsOnDeleted(index: nat, at: nat)
    | Repeated(dn: Dn, positions: seq<int>)

  /** `at` is the last of the first `n` changes that adds (or deletes) the entry. */
  ghost predicate IsLast(records: seq<Record>, n: nat, adds: bool, d: Dn, at: nat)
    requires n <= |records|
  {
    && at < n && records[at].dn == d && Wanted(records[at], adds)
    && forall k: nat :: at < k < n && records[k].dn == d ==> !Wanted(records[k], adds)
  }

  predicate Wanted(r: Record, adds: bool)
  {
    if adds then r.change.Add? else r.change.Delete?
  }

  /** Where in the first `n` changes the entry is changed, in order. */
  function Positions(records: seq<Record>, n: nat, d: Dn): seq<int>
    requires n <= |records|
  {
    if n == 0 then []
    else Positions(records, n - 1, d) + if records[n - 1].dn == d then [n - 1] else []
  }

  ghost predicate Ascending(ps: seq<int>)
  {
    forall i: nat, j: nat :: i < j < |ps| ==> ps[i] < ps[j]
  }

  lemma {:induction false} PositionsAre(records: seq<Record>, n: nat, d: Dn)
    requires n <= |records|
    ensures forall k :: k in Positions(records, n, d) <==> 0 <= k < n && records[k].dn == d
    ensures Ascending(Positions(records, n, d))
  {
    if n > 0 {
      PositionsAre(records, n - 1, d);
      var was := Positions(records, n - 1, d);
      assert forall i: nat :: i < |was| ==> was[i] in was;
    }
  }

  /** A warning the list deserves. */
  ghost predicate Deserved(records: seq<Record>, w: Warning)
  {
    match w
    case ParentLater(i, at) =>
      && i < at < |records| && records[i].change.Add? && Parent(records[i].dn) != []
      && IsLast(records, |records|, true, Parent(records[i].dn), at)
    case ActsOnDeleted(i, at) =>
      at < i < |records| && IsLast(records, |records|, false, records[i].dn, at)
    case Repeated(d, ps) => |ps| > 1 && ps == Positions(records, |records|, d)
  }

  ghost predicate IsIndex(records: seq<Record>, n: nat, adds: bool, index: map<Dn, nat>)
    requires n <= |records|
  {
    && (forall d :: d in index ==> IsLast(records, n, adds, d, index[d]))
    && (forall k: nat :: k < n && Wanted(records[k], adds) ==> records[k].dn in index)
  }

  method LastOf(records: seq<Record>, adds: bool) returns (index: map<Dn, nat>)
    ensures IsIndex(records, |records|, adds, index)
  {
    index := map[];
    for i := 0 to |records|
      invariant IsIndex(records, i, adds, index)
    {
      if Wanted(records[i], adds) {
        index := index[records[i].dn := i];
      }
    }
  }

  lemma LastIsOne(records: seq<Record>, adds: bool, d: Dn, a: nat, b: nat)
    requires IsLast(records, |records|, adds, d, a) && IsLast(records, |records|, adds, d, b)
    ensures a == b
  {
  }

  ghost predicate NoRepeats(warnings: seq<Warning>)
  {
    forall i: nat, j: nat :: i < j < |warnings| ==> warnings[i] != warnings[j]
  }

  method ParentWarnings(records: seq<Record>) returns (warnings: seq<Warning>)
    ensures forall w :: w in warnings <==> w.ParentLater? && Deserved(records, w)
    ensures NoRepeats(warnings)
  {
    var created := LastOf(records, true);
    warnings := [];
    for i := 0 to |records|
      invariant forall w :: w in warnings <==> w.ParentLater? && Deserved(records, w) && w.index < i
      invariant NoRepeats(warnings)
    {
      ghost var was := warnings;
      var r := records[i];
      var parent := Parent(r.dn);
      if r.change.Add? && parent != [] && parent in created && created[parent] > i {
        warnings := warnings + [ParentLater(i, created[parent])];
      }
      forall w: Warning | w.ParentLater? && w.index == i && Deserved(records, w)
        ensures w in warnings
      {
        assert Wanted(records[w.at], true);
        LastIsOne(records, true, parent, w.at, created[parent]);
      }
    }
  }

  method DeleteWarnings(records: seq<Record>) returns (warnings: seq<Warning>)
    ensures forall w :: w in warnings <==> w.ActsOnDeleted? && Deserved(records, w)
    ensures NoRepeats(warnings)
  {
    var deleted := LastOf(records, false);
    warnings := [];
    for i := 0 to |records|
      invariant forall w :: w in warnings <==> w.ActsOnDeleted? && Deserved(records, w) && w.index < i
      invariant NoRepeats(warnings)
    {
      var d := records[i].dn;
      if d in deleted && deleted[d] < i {
        warnings := warnings + [ActsOnDeleted(i, deleted[d])];
      }
      forall w: Warning | w.ActsOnDeleted? && w.index == i && Deserved(records, w)
        ensures w in warnings
      {
        assert Wanted(records[w.at], false);
        LastIsOne(records, false, d, w.at, deleted[d]);
      }
    }
  }

  ghost predicate Met(records: seq<Record>, n: nat, d: Dn)
    requires n <= |records|
  {
    exists k: nat :: k < n && records[k].dn == d
  }

  lemma MetStep(records: seq<Record>, n: nat, d: Dn)
    requires n < |records|
    ensures Met(records, n + 1, d) <==> Met(records, n, d) || records[n].dn == d
  {
  }

  lemma {:induction false} MetIff(records: seq<Record>, n: nat, d: Dn)
    requires n <= |records|
    ensures Met(records, n, d) <==> Positions(records, n, d) != []
  {
    PositionsAre(records, n, d);
    if Positions(records, n, d) != [] {
      assert Positions(records, n, d)[0] in Positions(records, n, d);
    }
  }

  /** The positions of every entry changed by the first `n` changes. */
  ghost predicate IsSeen(records: seq<Record>, n: nat, seen: map<Dn, seq<int>>)
    requires n <= |records|
  {
    forall d :: Positions(records, n, d) == SeenOf(seen, d)
  }

  function SeenOf(seen: map<Dn, seq<int>>, d: Dn): seq<int>
  {
    if d in seen then seen[d] else []
  }

  lemma SeenStep(records: seq<Record>, n: nat, was: map<Dn, seq<int>>, seen: map<Dn, seq<int>>)
    requires n < |records| && IsSeen(records, n, was)
    requires seen == was[records[n].dn := SeenOf(was, records[n].dn) + [n]]
    ensures IsSeen(records, n + 1, seen)
  {
    forall e
      ensures Positions(records, n + 1, e) == SeenOf(seen, e)
    {
      assert Positions(records, n, e) == SeenOf(was, e);
    }
  }

  lemma SeenIsMet(records: seq<Record>, seen: map<Dn, seq<int>>, d: Dn)
    requires IsSeen(records, |records|, seen) && (d in seen ==> seen[d] != [])
    ensures d in seen <==> Met(records, |records|, d)
    ensures d in seen ==> seen[d] == Positions(records, |records|, d)
  {
    assert Positions(records, |records|, d) == SeenOf(seen, d);
    MetIff(records, |records|, d);
  }

  method SeenAt(records: seq<Record>) returns (seen: map<Dn, seq<int>>)
    ensures forall d :: d in seen <==> Met(records, |records|, d)
    ensures forall d :: d in seen ==> seen[d] == Positions(records, |records|, d)
  {
    seen := map[];
    for i := 0 to |records|
      invariant IsSeen(records, i, seen)
      invariant forall d :: d in seen ==> seen[d] != []
    {
      SeenStep(records, i, seen, seen[records[i].dn := SeenOf(seen, records[i].dn) + [i]]);
      seen := seen[records[i].dn := SeenOf(seen, records[i].dn) + [i]];
    }
    forall d
      ensures d in seen <==> Met(records, |records|, d)
      ensures d in seen ==> seen[d] == Positions(records, |records|, d)
    {
      SeenIsMet(records, seen, d);
    }
  }

  method RepeatWarnings(records: seq<Record>) returns (warnings: seq<Warning>)
    ensures forall w :: w in warnings <==> w.Repeated? && Deserved(records, w)
    ensures NoRepeats(warnings)
  {
    var n := |records|;
    var seen := SeenAt(records);
    warnings := [];
    for i := 0 to n
      invariant forall d :: d in seen <==> Met(records, n, d) && !(Met(records, i, d) && |Positions(records, n, d)| > 1)
      invariant forall d :: d in seen ==> seen[d] == Positions(records, n, d)
      invariant forall w :: w in warnings <==> w.Repeated? && Deserved(records, w) && Met(records, i, w.dn)
      invariant NoRepeats(warnings)
    {
      var d := records[i].dn;
      forall e
        ensures Met(records, i + 1, e) <==> Met(records, i, e) || records[i].dn == e
      {
        MetStep(records, i, e);
      }
      assert records[i].dn == d && Met(records, n, d);
      if d in seen && |seen[d]| > 1 {
        warnings := warnings + [Repeated(d, seen[d])];
        seen := seen - {d};
      }
    }
    forall w: Warning | w.Repeated? && Deserved(records, w)
      ensures Met(records, n, w.dn)
    {
      MetIff(records, n, w.dn);
    }
  }

  /** What is warned of is what the list deserves; nothing is warned of exactly when the list is tidy. */
  method ChangesetWarnings(records: seq<Record>) returns (warnings: seq<Warning>)
    ensures forall w :: w in warnings <==> Deserved(records, w)
    ensures NoRepeats(warnings)
    ensures warnings == [] <==> Tidy(records)
  {
    var parents := ParentWarnings(records);
    var deletes := DeleteWarnings(records);
    var repeats := RepeatWarnings(records);
    warnings := parents + deletes + repeats;
    TidyIff(records);
    if warnings != [] {
      assert Deserved(records, warnings[0]);
    }
  }

  /** No entry is changed twice, and none is added before its parent is. */
  ghost predicate Tidy(records: seq<Record>)
  {
    && (forall i: nat, j: nat :: i < j < |records| ==> records[i].dn != records[j].dn)
    && (forall i: nat, j: nat :: i < |records| && j < |records| && AddsParent(records, i, j) ==> j < i)
  }

  /** Both changes add an entry, and the second adds the parent of the first. */
  predicate AddsParent(records: seq<Record>, i: nat, j: nat)
    requires i < |records| && j < |records|
  {
    && records[i].change.Add? && records[j].change.Add?
    && Parent(records[i].dn) != [] && records[j].dn == Parent(records[i].dn)
  }

  lemma TidyIff(records: seq<Record>)
    ensures Tidy(records) <==> forall w :: !Deserved(records, w)
  {
    if Tidy(records) {
      forall w
        ensures !Deserved(records, w)
      {
        TidyDeservesNone(records, w);
      }
    } else if i: nat, j: nat :| i < j < |records| && records[i].dn == records[j].dn {
      var ps := Positions(records, |records|, records[i].dn);
      PositionsAre(records, |records|, records[i].dn);
      assert i in ps && j in ps;
      assert Deserved(records, Repeated(records[i].dn, ps));
    } else {
      var i: nat, j: nat :| i < |records| && j < |records| && AddsParent(records, i, j) && j >= i;
      assert Deserved(records, ParentLater(i, j));
    }
  }

  lemma TwoPositions(records: seq<Record>, d: Dn, ps: seq<int>)
    requires |ps| > 1 && ps == Positions(records, |records|, d)
    ensures 0 <= ps[0] < ps[1] < |records| && records[ps[0]].dn == records[ps[1]].dn
  {
    PositionsAre(records, |records|, d);
    assert ps[0] in ps && ps[1] in ps;
  }

  lemma TidyDeservesNone(records: seq<Record>, w: Warning)
    requires Tidy(records)
    ensures !Deserved(records, w)
  {
    match w
    case ParentLater(i, at) =>
      assert i < |records| && at < |records| && AddsParent(records, i, at) ==> at < i;
    case ActsOnDeleted(i, at) =>
    case Repeated(d, ps) =>
      if Deserved(records, w) {
        TwoPositions(records, d, ps);
      }
  }

  // ----- what a tidy list is good for

  /** The change moves entries: it is a rename to another name. */
  predicate Moves(r: Record)
  {
    r.change.Rename? && Target(r) != r.dn
  }

  /** The change moves entries away from the name, or from above it, or to there. */
  predicate Concerns(r: Record, d: Dn)
  {
    Moves(r) && (HasSuffix(d, r.dn) || HasSuffix(d, Target(r)))
  }

  /** After such a move an entry has the name when it was moved there, or had it before and was not moved. */
  ghost predicate Arrives(dir: Directory, r: Record, d: Dn)
    requires r.change.Rename?
  {
    || (HasSuffix(d, Target(r)) && Rebase(d, Target(r), r.dn) in dir.entries)
    || (d in dir.entries && !HasSuffix(d, r.dn))
  }

  lemma MovedIff(dir: Directory, r: Record, d: Dn)
    requires r.change.Rename?
    ensures d in Effect(dir, r).entries <==> Arrives(dir, r, d)
  {
    var to := Target(r);
    if d in Effect(dir, r).entries {
      var n :| n in dir.entries && MovedName(n, r.dn, to) == d;
      if HasSuffix(n, r.dn) {
        RebaseBack(n, r.dn, to);
      }
    }
    if HasSuffix(d, to) {
      RebaseBack(d, to, r.dn);
    }
  }

  lemma SelfRename(dir: Directory, r: Record, d: Dn)
    requires r.change.Rename? && Target(r) == r.dn
    ensures d in Effect(dir, r).entries <==> d in dir.entries
  {
    MovedIff(dir, r, d);
    if HasSuffix(d, r.dn) {
      assert Rebase(d, r.dn, r.dn) == d;
    }
  }

  /** The change neither adds nor deletes the entry, and moves nothing from or to there. */
  predicate LeavesName(r: Record, d: Dn)
  {
    !Concerns(r, d) && (r.dn == d ==> !r.change.Add? && !r.change.Delete?)
  }

  lemma NameLeft(dir: Directory, r: Record, d: Dn)
    requires LeavesName(r, d)
    ensures d in Effect(dir, r).entries <==> d in dir.entries
  {
    if r.change.Rename? {
      if Moves(r) {
        MovedIff(dir, r, d);
      } else {
        SelfRename(dir, r, d);
      }
    }
  }

  lemma {:induction false} Unchanged(dir: Directory, records: seq<Record>, lo: nat, hi: nat, d: Dn)
    requires lo <= hi <= |records|
    requires forall k: nat :: lo <= k < hi ==> LeavesName(records[k], d)
    ensures d in Fold(dir, records, hi).entries <==> d in Fold(dir, records, lo).entries
    decreases hi
  {
    if hi > lo {
      Unchanged(dir, records, lo, hi - 1, d);
      NameLeft(Fold(dir, records, hi - 1), records[hi - 1], d);
    }
  }

  /** The last of the changes between the two that concerns the name. */
  ghost predicate IsLastMove(records: seq<Record>, j: nat, i: nat, d: Dn, m: nat)
    requires i <= |records|
  {
    j < m < i && Concerns(records[m], d) && forall k: nat :: m < k < i ==> !Concerns(records[k], d)
  }

  /** In a tidy list nothing else adds or deletes what is added once. */
  lemma OthersLeaveName(records: seq<Record>, j: nat, k: nat, d: Dn)
    requires Tidy(records) && j < |records| && k < |records| && k != j && records[j].dn == d
    requires !Concerns(records[k], d)
    ensures LeavesName(records[k], d)
  {
  }

  /**
   In a tidy list, whatever directory it runs in, an add finds the parent the list itself
   adds when no rename between the two concerns the parent; and when one does, exactly when
   the last of them leaves an entry there.
   */
  lemma ParentIff(dir: Directory, records: seq<Record>, i: nat, j: nat)
    requires Tidy(records)
    requires i < |records| && j < |records| && AddsParent(records, i, j)
    ensures j < i
    ensures (forall k: nat :: j < k < i ==> !Concerns(records[k], Parent(records[i].dn))) ==>
      Parent(records[i].dn) in Fold(dir, records, i).entries
    ensures forall m: nat :: IsLastMove(records, j, i, Parent(records[i].dn), m) ==>
      (Parent(records[i].dn) in Fold(dir, records, i).entries <==>
       Arrives(Fold(dir, records, m), records[m], Parent(records[i].dn)))
  {
    var parent := Parent(records[i].dn);
    if forall k: nat :: j < k < i ==> !Concerns(records[k], parent) {
      LeftSince(dir, records, j, j, i, parent);
    }
    forall m: nat | IsLastMove(records, j, i, parent, m)
      ensures parent in Fold(dir, records, i).entries <==> Arrives(Fold(dir, records, m), records[m], parent)
    {
      LeftSince(dir, records, j, m, i, parent);
      MovedIff(Fold(dir, records, m), records[m], parent);
    }
  }

  lemma LeftSince(dir: Directory, records: seq<Record>, j: nat, m: nat, i: nat, d: Dn)
    requires Tidy(records) && j <= m < i < |records| && records[j].dn == d
    requires forall k: nat :: m < k < i ==> !Concerns(records[k], d)
    ensures d in Fold(dir, records, i).entries <==> d in Fold(dir, records, m + 1).entries
  {
    forall k: nat | m < k < i
      ensures LeavesName(records[k], d)
    {
      OthersLeaveName(records, j, k, d);
    }
    Unchanged(dir, records, m + 1, i, d);
  }

  lemma {:induction false} LastMove(records: seq<Record>, j: nat, i: nat, d: Dn, some: nat) returns (m: nat)
    requires i <= |records| && j < some < i && Concerns(records[some], d)
    ensures IsLastMove(records, j, i, d, m)
    decreases i
  {
    if Concerns(records[i - 1], d) {
      m := i - 1;
    } else {
      m := LastMove(records, j, i - 1, d, some);
    }
  }

  /** The list moves nothing to the parent's name, or to above it, in between. */
  ghost predicate NothingArrives(records: seq<Record>, j: nat, i: nat)
    requires i < |records|
  {
    forall k: nat :: j < k < i && Moves(records[k]) ==> !HasSuffix(Parent(records[i].dn), Target(records[k]))
  }

  /** A rename between the two moves the entry away, or one above it. */
  predicate MovedAway(records: seq<Record>, j: nat, i: nat, d: Dn)
    requires i <= |records|
  {
    exists k: nat :: j < k < i && Moves(records[k]) && HasSuffix(d, records[k].dn)
  }

  lemma {:induction false} Stays(dir: Directory, records: seq<Record>, j: nat, n: nat, d: Dn)
    requires Tidy(records) && j < n <= |records| && records[j].dn == d && records[j].change.Add?
    requires !MovedAway(records, j, n, d)
    ensures d in Fold(dir, records, n).entries
  {
    if n > j + 1 {
      Stays(dir, records, j, n - 1, d);
      var r := records[n - 1];
      if Concerns(r, d) {
        MovedIff(Fold(dir, records, n - 1), r, d);
      } else {
        OthersLeaveName(records, j, n - 1, d);
        NameLeft(Fold(dir, records, n - 1), r, d);
      }
    }
  }

  /**
   In a tidy list an add finds the parent the list itself adds, whatever directory it runs
   in, unless a rename between the two moves that parent away; and where nothing is moved
   to the parent's name or to above it instead, exactly unless.
   */
  lemma ParentsInTime(dir: Directory, records: seq<Record>, i: nat, j: nat)
    requires Tidy(records)
    requires i < |records| && j < |records| && AddsParent(records, i, j)
    ensures j < i
    ensures !MovedAway(records, j, i, Parent(records[i].dn)) ==>
      Parent(records[i].dn) in Fold(dir, records, i).entries
    ensures NothingArrives(records, j, i) ==>
      (Parent(records[i].dn) in Fold(dir, records, i).entries <==> !MovedAway(records, j, i, Parent(records[i].dn)))
  {
    var parent := Parent(records[i].dn);
    if !MovedAway(records, j, i, parent) {
      Stays(dir, records, j, i, parent);
    } else if NothingArrives(records, j, i) {
      var k: nat :| j < k < i && Moves(records[k]) && HasSuffix(parent, records[k].dn);
      var m := LastMove(records, j, i, parent, k);
      ParentIff(dir, records, i, j);
      assert !Arrives(Fold(dir, records, m), records[m], parent);
    }
  }

  /** The directory would take the add but for its parent. */
  ghost predicate WantsParent(contexts: set<Dn>, dir: Directory, r: Record)
  {
    r.change.Add? && r.dn !in contexts && r.dn !in dir.entries && Parent(r.dn) !in dir.entries
  }

  /**
   A run of a tidy list that comes to an add whose parent it adds itself stops there for
   want of that parent exactly when a rename in between took the parent away and the entry
   would otherwise be new: on every server and in every directory.
   */
  lemma StopsForWantOfParent(contexts: set<Dn>, before: Directory, after: Directory,
      records: seq<Record>, report: Report, stop: Status, i: nat, j: nat)
    requires IsRun(contexts, before, after, records, report, stop) && Tidy(records)
    requires i < |records| && j < |records| && AddsParent(records, i, j) && NothingArrives(records, j, i)
    requires report.appliedCount >= i && records[i].dn !in contexts
    requires records[i].dn !in Fold(before, records, i).entries
    ensures report.failedIndex == Some(i) && WantsParent(contexts, Fold(before, records, i), records[i]) <==>
      MovedAway(records, j, i, Parent(records[i].dn))
  {
    ParentsInTime(before, records, i, j);
    if Parent(records[i].dn) !in Fold(before, records, i).entries {
      assert !AllowedInTurn(contexts, before, records, i);
    }
  }

  /**
   With no rename that moves the parent away, a run that stops at such an add did not stop
   for want of its parent: the entry was there already, or the directory allowed the add.
   */
  lemma NeverForWantOfParent(contexts: set<Dn>, before: Directory, after: Directory,
      records: seq<Record>, report: Report, stop: Status, i: nat, j: nat)
    requires IsRun(contexts, before, after, records, report, stop)
    requires Tidy(records) && report.failedIndex == Some(i)
    requires j < |records| && AddsParent(records, i, j)
    requires !MovedAway(records, j, i, Parent(records[i].dn))
    ensures records[i].dn in Fold(before, records, i).entries || AllowedInTurn(contexts, before, records, i)
  {
    ParentsInTime(before, records, i, j);
  }

  lemma AllDoneTwo(contexts: set<Dn>, dir: Directory, records: seq<Record>)
    requires |records| >= 2
    requires Allowed(contexts, dir, records[0]) && Allowed(contexts, Effect(dir, records[0]), records[1])
    ensures AllDone(contexts, dir, records, 2)
    ensures Fold(dir, records, 2) == Effect(Effect(dir, records[0]), records[1])
  {
    assert Fold(dir, records, 0) == dir;
    assert Fold(dir, records, 1) == Effect(dir, records[0]);
  }

  function RenameBetween(g: Rdn, h: Rdn, p: Rdn, c: Rdn): (records: seq<Record>)
    ensures |records| == 3
  {
    [Record([p, g], Add("p")), Record([g], Rename(h, [])), Record([c, p, g], Add("c"))]
  }

  lemma RenameBetweenIsTidy(g: Rdn, h: Rdn, p: Rdn, c: Rdn)
    ensures Tidy(RenameBetween(g, h, p, c))
  {
    var records := RenameBetween(g, h, p, c);
    assert |records[0].dn| == 2 && |records[1].dn| == 1 && |records[2].dn| == 3;
  }

  lemma RenameAllowed(dir: Directory, g: Rdn, h: Rdn)
    requires g != h && [g] in dir.entries && [h] !in dir.entries && [] in dir.entries
    ensures Allowed({}, dir, Record([g], Rename(h, [])))
    ensures Target(Record([g], Rename(h, []))) == [h]
  {
    assert Target(Record([g], Rename(h, []))) == [h];
    assert [h][0] == h && [g][0] == g;
  }

  /** Renaming the grandparent in between takes the parent away, and no warning is given. */
  lemma RenameMovesParent(dir: Directory, g: Rdn, h: Rdn, p: Rdn, c: Rdn)
    requires g != h && [] in dir.entries && [g] in dir.entries && [h] !in dir.entries && [p, g] !in dir.entries
    ensures var records := RenameBetween(g, h, p, c);
      Tidy(records) && AllDone({}, dir, records, 2) && AddsParent(records, 2, 0)
    ensures Parent([c, p, g]) !in Fold(dir, RenameBetween(g, h, p, c), 2).entries
  {
    var records := RenameBetween(g, h, p, c);
    RenameBetweenIsTidy(g, h, p, c);
    assert Parent([p, g]) == [g] && Parent([c, p, g]) == [p, g];
    assert Allowed({}, dir, records[0]);
    var mid := Directory(dir.entries[[p, g] := ["p"]]);
    assert |[p, g]| != |[h]|;
    assert [p, g][1] == g && [h][0] == h;
    RenameAllowed(mid, g, h);
    assert Effect(dir, records[0]) == mid;
    AllDoneTwo({}, dir, records);
    MovedIff(mid, records[1], [p, g]);
  }

  /**
   The warning that a parent comes later is right: where no entry is changed twice and none
   is renamed, such a list completes in no directory and on no server.
   */
  lemma WarnedNeverCompletes(contexts: set<Dn>, before: Directory, after: Directory,
      records: seq<Record>, report: Report, stop: Status, i: nat, j: nat)
    requires IsRun(contexts, before, after, records, report, stop)
    requires forall k: nat, m: nat :: k < m < |records| ==> records[k].dn != records[m].dn
    requires forall k: nat :: k < |records| ==> !records[k].change.Rename?
    requires i < j < |records| && AddsParent(records, i, j) && records[i].dn !in contexts
    ensures report.failedIndex.Some? && report.appliedCount <= j
  {
    var parent := records[j].dn;
    assert forall k: nat :: k < j ==> LeavesName(records[k], parent);
    if parent in before.entries {
      Unchanged(before, records, 0, j, parent);
      assert !AllowedInTurn(contexts, before, records, j);
    } else {
      Unchanged(before, records, 0, i, parent);
      assert !AllowedInTurn(contexts, before, records, i);
    }
  }

  // ----- what the warning about a deleted entry is worth

  predicate AddsEntry(r: Record, d: Dn)
  {
    r.change.Add? && r.dn == d
  }

  /** A change between the two adds the entry. */
  predicate AddedBetween(records: seq<Record>, j: nat, i: nat, d: Dn)
    requires i <= |records|
  {
    exists k: nat :: j < k < i && AddsEntry(records[k], d)
  }

  /** No change between the two deletes the entry, or moves anything from or to there. */
  ghost predicate OnlyAdded(records: seq<Record>, j: nat, i: nat, d: Dn)
    requires i <= |records|
  {
    forall k: nat :: j < k < i ==> !Concerns(records[k], d) && (records[k].dn == d ==> !records[k].change.Delete?)
  }

  lemma {:induction false} SinceThen(dir: Directory, records: seq<Record>, j: nat, n: nat, d: Dn)
    requires j < n <= |records| && OnlyAdded(records, j, n, d)
    ensures d in Fold(dir, records, n).entries <==>
      d in Fold(dir, records, j + 1).entries || AddedBetween(records, j, n, d)
  {
    if n > j + 1 {
      SinceThen(dir, records, j, n - 1, d);
      var r := records[n - 1];
      if AddsEntry(r, d) {
        assert AddedBetween(records, j, n, d);
      } else {
        NameLeft(Fold(dir, records, n - 1), r, d);
        assert AddedBetween(records, j, n, d) <==> AddedBetween(records, j, n - 1, d);
      }
    }
  }

  /** The list deserves the warning that change `i` acts on an entry deleted before. */
  ghost predicate WarnedOfDeleted(records: seq<Record>, i: nat, at: nat)
  {
    Deserved(records, ActsOnDeleted(i, at))
  }

  /**
   Where the list is warned of for acting on an entry deleted before, the entry is there
   again, in whatever directory the list runs, exactly when the list adds it in between, if
   nothing is moved from or to its name; and in general as the last such move decides,
   together with what is added after it.
   */
  lemma DeletedIff(dir: Directory, records: seq<Record>, i: nat, at: nat)
    requires WarnedOfDeleted(records, i, at)
    ensures (forall k: nat :: at < k < i ==> !Concerns(records[k], records[i].dn)) ==>
      (records[i].dn in Fold(dir, records, i).entries <==> AddedBetween(records, at, i, records[i].dn))
    ensures forall m: nat :: IsLastMove(records, at, i, records[i].dn, m) ==>
      (records[i].dn in Fold(dir, records, i).entries <==>
       Arrives(Fold(dir, records, m), records[m], records[i].dn) || AddedBetween(records, m, i, records[i].dn))
  {
    var d := records[i].dn;
    if forall k: nat :: at < k < i ==> !Concerns(records[k], d) {
      SinceThen(dir, records, at, i, d);
    }
    forall m: nat | IsLastMove(records, at, i, d, m)
      ensures d in Fold(dir, records, i).entries <==>
        Arrives(Fold(dir, records, m), records[m], d) || AddedBetween(records, m, i, d)
    {
      SinceThen(dir, records, m, i, d);
      MovedIff(Fold(dir, records, m), records[m], d);
    }
  }

  /**
   So, where nothing is moved from or to the name, such a list completes on no server unless
   the change warned of adds the entry, and nothing did since, or does something else to
   it, and something added it since.
   */
  lemma DeletedStops(contexts: set<Dn>, before: Directory, after: Directory,
      records: seq<Record>, report: Report, stop: Status, i: nat, at: nat)
    requires IsRun(contexts, before, after, records, report, stop) && WarnedOfDeleted(records, i, at)
    requires forall k: nat :: at < k < i ==> !Concerns(records[k], records[i].dn)
    requires report.failedIndex.None? || report.appliedCount > i
    ensures records[i].change.Add? <==> !AddedBetween(records, at, i, records[i].dn)
  {
    DeletedIff(before, records, i, at);
    assert AllowedInTurn(contexts, before, records, i);
  }
}
