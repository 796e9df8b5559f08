/**
 From one LDAP modify to a list of Ansible tasks: adjacent modifications that share an
 operation become one ldap_attrs task, and the tasks run in order.
 */
module Ansible {
  import opened Basics

  type Value = string
  type Attribute = string

  datatype Op = Add | Delete | Replace

  /** A delete with no values removes the whole attribute. */
  datatype Mod = Mod(op: Op, name: Attribute, values: seq<Value>)

  datatype State = Present | Absent | Exact

  /** One ldap_attrs task: attributes in the order written, under one state. */
  datatype Task = Task(state: State, attributes: seq<(Attribute, seq<Value>)>)

  datatype Run = Run(op: Op, whole: bool, mods: seq<Mod>)

  predicate RemovesWholeAttribute(m: Mod)
  {
    m.op == Delete && m.values == []
  }

  function StateFor(op: Op, whole: bool): State
  {
    match op
    case Add => Present
    case Delete => if whole then Exact else Absent
    case Replace => Exact
  }

  // ----- grouping

  ghost function Flatten(runs: seq<Run>): seq<Mod>
  {
    if runs == [] then [] else Flatten(runs[..|runs| - 1]) + runs[|runs| - 1].mods
  }

  ghost predicate AllOf(mods: seq<Mod>, op: Op, whole: bool)
  {
    forall i: nat :: i < |mods| ==> mods[i].op == op && RemovesWholeAttribute(mods[i]) == whole
  }

  ghost predicate Uniform(r: Run)
  {
    r.mods != [] && AllOf(r.mods, r.op, r.whole)
  }

  ghost predicate Differ(a: Run, b: Run)
  {
    a.op != b.op || a.whole != b.whole
  }

  /** Uniform runs, each of a different operation than the one before it. */
  ghost predicate Cut(runs: seq<Run>)
    decreases |runs|, 0
  {
    runs == [] || CutBefore(runs[..|runs| - 1], runs[|runs| - 1])
  }

  ghost predicate CutBefore(front: seq<Run>, last: Run)
    decreases |front|, 1
  {
    Cut(front) && Uniform(last) && (front != [] ==> Differ(front[|front| - 1], last))
  }

  lemma {:induction false} CutRuns(runs: seq<Run>, i: nat)
    requires Cut(runs) && i < |runs|
    ensures Uniform(runs[i])
    ensures i > 0 ==> Differ(runs[i - 1], runs[i])
  {
    if i < |runs| - 1 {
      CutRuns(runs[..|runs| - 1], i);
    }
  }

  /** The runs are the modifications in order, cut exactly where the operation changes. */
  ghost predicate IsGrouping(mods: seq<Mod>, runs: seq<Run>)
  {
    Flatten(runs) == mods && Cut(runs)
  }

  lemma {:induction false} CutLast(front: seq<Run>, last: Run)
    ensures Cut(front + [last]) <==> CutBefore(front, last)
    ensures Flatten(front + [last]) == Flatten(front) + last.mods
  {
    assert (front + [last])[..|front|] == front;
  }

  /** One more modification: onto the last run when it shares its operation, else a run of its own. */
  function Extend(runs: seq<Run>, m: Mod): seq<Run>
  {
    var n := |runs|;
    if n > 0 && runs[n - 1].op == m.op && runs[n - 1].whole == RemovesWholeAttribute(m) then
      runs[..n - 1] + [runs[n - 1].(mods := runs[n - 1].mods + [m])]
    else
      runs + [Run(m.op, RemovesWholeAttribute(m), [m])]
  }

  ghost function Group(mods: seq<Mod>): seq<Run>
  {
    if mods == [] then [] else Extend(Group(mods[..|mods| - 1]), mods[|mods| - 1])
  }

  method GroupByOp(mods: seq<Mod>) returns (runs: seq<Run>)
    ensures runs == Group(mods)
  {
    runs := [];
    for i := 0 to |mods|
      invariant runs == Group(mods[..i])
    {
      var m := mods[i];
      assert mods[..i + 1][..i] == mods[..i];
      var whole := RemovesWholeAttribute(m);
      var n := |runs|;
      if n > 0 && runs[n - 1].op == m.op && runs[n - 1].whole == whole {
        ghost var was := runs;
        runs := runs[n - 1 := runs[n - 1].(mods := runs[n - 1].mods + [m])];
        assert runs == Extend(was, m);
        continue;
      }
      runs := runs + [Run(m.op, whole, [m])];
    }
    assert mods[..|mods|] == mods;
  }

  lemma {:induction false} ExtendGroups(mods: seq<Mod>, runs: seq<Run>, m: Mod)
    requires IsGrouping(mods, runs)
    ensures IsGrouping(mods + [m], Extend(runs, m))
  {
    var n := |runs|;
    if n > 0 && runs[n - 1].op == m.op && runs[n - 1].whole == RemovesWholeAttribute(m) {
      assert runs == runs[..n - 1] + [runs[n - 1]];
      ExtendLast(mods, runs[..n - 1], runs[n - 1], m);
    } else {
      CutLast(runs, Run(m.op, RemovesWholeAttribute(m), [m]));
    }
  }

  lemma {:induction false} ExtendLast(mods: seq<Mod>, front: seq<Run>, last: Run, m: Mod)
    requires IsGrouping(mods, front + [last])
    requires last.op == m.op && last.whole == RemovesWholeAttribute(m)
    ensures IsGrouping(mods + [m], front + [last.(mods := last.mods + [m])])
  {
    CutLast(front, last);
    CutLast(front, last.(mods := last.mods + [m]));
    assert Flatten(front) + (last.mods + [m]) == Flatten(front) + last.mods + [m];
  }

  lemma {:induction false} GroupIsGrouping(mods: seq<Mod>)
    ensures IsGrouping(mods, Group(mods))
  {
    if mods != [] {
      GroupIsGrouping(mods[..|mods| - 1]);
      ExtendGroups(mods[..|mods| - 1], Group(mods[..|mods| - 1]), mods[|mods| - 1]);
      assert mods == mods[..|mods| - 1] + [mods[|mods| - 1]];
    }
  }

  /** A grouping without its last modification. */
  ghost function Shrink(runs: seq<Run>): seq<Run>
    requires runs != []
  {
    var last := runs[|runs| - 1];
    if |last.mods| <= 1 then runs[..|runs| - 1]
    else runs[..|runs| - 1] + [last.(mods := last.mods[..|last.mods| - 1])]
  }

  lemma {:induction false} ShrinkGroups(mods: seq<Mod>, runs: seq<Run>)
    requires IsGrouping(mods, runs) && mods != []
    ensures runs != [] && IsGrouping(mods[..|mods| - 1], Shrink(runs))
    ensures runs == Extend(Shrink(runs), mods[|mods| - 1])
  {
    var n := |runs|;
    var front, last := runs[..n - 1], runs[n - 1];
    assert runs == front + [last];
    CutLast(front, last);
    var m := last.mods[|last.mods| - 1];
    assert m == mods[|mods| - 1];
    if |last.mods| > 1 {
      ShrinkLast(mods, front, last);
      assert last.mods == last.mods[..|last.mods| - 1] + [m];
    } else {
      assert last == Run(m.op, RemovesWholeAttribute(m), [m]);
      assert mods[..|mods| - 1] == Flatten(front);
    }
  }

  lemma {:induction false} ShrinkLast(mods: seq<Mod>, front: seq<Run>, last: Run)
    requires CutBefore(front, last)
    requires mods == Flatten(front) + last.mods && |last.mods| > 1
    ensures IsGrouping(mods[..|mods| - 1], front + [last.(mods := last.mods[..|last.mods| - 1])])
  {
    var shorter := last.(mods := last.mods[..|last.mods| - 1]);
    CutLast(front, shorter);
    assert mods[..|mods| - 1] == Flatten(front) + shorter.mods;
  }

  lemma {:induction false} FlattenAtLeast(runs: seq<Run>)
    requires Cut(runs)
    ensures |Flatten(runs)| >= |runs|
  {
    if runs != [] {
      FlattenAtLeast(runs[..|runs| - 1]);
    }
  }

  /** There is only one way to cut the modifications into such runs. */
  lemma {:induction false} GroupingIsUnique(mods: seq<Mod>, runs: seq<Run>)
    requires IsGrouping(mods, runs)
    ensures runs == Group(mods)
  {
    if mods == [] {
      FlattenAtLeast(runs);
    } else {
      ShrinkGroups(mods, runs);
      GroupingIsUnique(mods[..|mods| - 1], Shrink(runs));
    }
  }

  function TaskOf(r: Run): Task
  {
    Task(StateFor(r.op, r.whole), Pairs(r.mods))
  }

  /** What a task writes for a run: each modification's attribute with its values, in order. */
  function Pairs(mods: seq<Mod>): (pairs: seq<(Attribute, seq<Value>)>)
    ensures |pairs| == |mods| && forall i: nat :: i < |mods| ==> pairs[i] == (mods[i].name, mods[i].values)
  {
    seq(|mods|, i requires 0 <= i < |mods| => (mods[i].name, mods[i].values))
  }

  ghost function Tasks(runs: seq<Run>): (t: seq<Task>)
    ensures |t| == |runs| && forall i: nat :: i < |t| ==> t[i] == TaskOf(runs[i])
  {
    seq(|runs|, i requires 0 <= i < |runs| => TaskOf(runs[i]))
  }

  method WriteModify(mods: seq<Mod>) returns (tasks: seq<Task>)
    ensures tasks == Tasks(Group(mods))
  {
    var runs := GroupByOp(mods);
    tasks := [];
    for i := 0 to |runs|
      invariant |tasks| == i && forall k: nat :: k < i ==> tasks[k] == TaskOf(runs[k])
    {
      var run := runs[i];
      var attributes: seq<(Attribute, seq<Value>)> := [];
      for j := 0 to |run.mods|
        invariant attributes == TaskOf(run).attributes[..j]
      {
        attributes := attributes + [(run.mods[j].name, run.mods[j].values)];
      }
      tasks := tasks + [Task(StateFor(run.op, run.whole), attributes)];
    }
  }

  // ----- what a modification does

  /** The attributes of an entry, each with at least one value. */
  type Entry = map<Attribute, set<Value>>

  function Get(e: Entry, a: Attribute): set<Value>
  {
    if a in e then e[a] else {}
  }

  function Put(e: Entry, a: Attribute, values: set<Value>): (r: Entry)
    ensures Get(r, a) == values
    ensures forall b :: b != a ==> Get(r, b) == Get(e, b)
  {
    if values == {} then e - {a} else e[a := values]
  }

  ghost predicate Proper(e: Entry)
  {
    forall a :: a in e ==> e[a] != {}
  }

  function AsSet(values: seq<Value>): set<Value>
  {
    set v | v in values
  }

  /** The directory accepts a modification of this entry (section 4.6 of RFC 4511). */
  ghost predicate Accepts(e: Entry, m: Mod)
  {
    && NoDuplicates(m.values)
    && match m.op
       case Add => m.values != [] && AsSet(m.values) !! Get(e, m.name)
       case Delete => Get(e, m.name) != {} && AsSet(m.values) <= Get(e, m.name)
       case Replace => true
  }

  function Apply(e: Entry, m: Mod): Entry
  {
    match m.op
    case Add => Put(e, m.name, Get(e, m.name) + AsSet(m.values))
    case Delete => Put(e, m.name, if m.values == [] then {} else Get(e, m.name) - AsSet(m.values))
    case Replace => Put(e, m.name, AsSet(m.values))
  }

  function ApplyAll(e: Entry, mods: seq<Mod>): Entry
  {
    if mods == [] then e else Apply(ApplyAll(e, mods[..|mods| - 1]), mods[|mods| - 1])
  }

  ghost predicate AcceptsAll(e: Entry, mods: seq<Mod>)
  {
    mods == [] || (AcceptsAll(e, mods[..|mods| - 1]) && Accepts(ApplyAll(e, mods[..|mods| - 1]), mods[|mods| - 1]))
  }

  // ----- what a task does

  /** Reading the task's attributes as a mapping keeps the last of two with one name. */
  function Loaded(attributes: seq<(Attribute, seq<Value>)>): map<Attribute, seq<Value>>
  {
    if attributes == [] then map[]
    else
      var last := attributes[|attributes| - 1];
      Loaded(attributes[..|attributes| - 1])[last.0 := last.1]
  }

  /** The values of one attribute after a task, from those before it. */
  function Target(state: State, now: set<Value>, wanted: set<Value>): set<Value>
  {
    match state
    case Present => now + wanted
    case Absent => now - wanted
    case Exact => wanted
  }

  /** The values of one attribute after the task. */
  function After(e: Entry, t: Task, a: Attribute): set<Value>
  {
    var wanted := Loaded(t.attributes);
    if a in wanted then Target(t.state, Get(e, a), AsSet(wanted[a])) else Get(e, a)
  }

  /** Every attribute the task names brought to its state; the others left alone. */
  function RunTask(e: Entry, t: Task): (r: Entry)
    ensures Proper(r) && forall a :: Get(r, a) == After(e, t, a)
  {
    map a | a in e.Keys + Loaded(t.attributes).Keys && After(e, t, a) != {} :: After(e, t, a)
  }

  function RunTasks(e: Entry, tasks: seq<Task>): Entry
  {
    if tasks == [] then e else RunTask(RunTasks(e, tasks[..|tasks| - 1]), tasks[|tasks| - 1])
  }

  // ----- one run and its task

  lemma {:induction false} SameEntry(a: Entry, b: Entry)
    requires Proper(a) && Proper(b) && forall x :: Get(a, x) == Get(b, x)
    ensures a == b
  {
    forall x
      ensures x in a <==> x in b
      ensures x in a ==> a[x] == b[x]
    {
      assert Get(a, x) == Get(b, x);
    }
  }

  lemma {:induction false} ApplyProper(e: Entry, mods: seq<Mod>)
    requires Proper(e)
    ensures Proper(ApplyAll(e, mods))
  {
    if mods != [] {
      ApplyProper(e, mods[..|mods| - 1]);
    }
  }

  ghost predicate NamesOnce(mods: seq<Mod>)
  {
    forall i: nat, j: nat :: i < j < |mods| ==> mods[i].name != mods[j].name
  }

  /** The task keeps every modification of the run: nothing is lost to a name written twice. */
  ghost predicate KeepsAll(r: Run)
  {
    r.op == Replace || NamesOnce(r.mods)
  }

  lemma {:induction false} LoadedMore(mods: seq<Mod>)
    requires mods != []
    ensures var last := mods[|mods| - 1];
      Loaded(Pairs(mods)) == Loaded(Pairs(mods[..|mods| - 1]))[last.name := last.values]
  {
    assert Pairs(mods)[..|mods| - 1] == Pairs(mods[..|mods| - 1]);
  }

  /** What the task asks of an attribute is what the last modification naming it says. */
  lemma {:induction false} LoadedLast(mods: seq<Mod>, a: Attribute) returns (i: nat)
    ensures a in Loaded(Pairs(mods)) ==>
      && i < |mods| && mods[i].name == a && mods[i].values == Loaded(Pairs(mods))[a]
      && forall j: nat :: i < j < |mods| ==> mods[j].name != a
    ensures a !in Loaded(Pairs(mods)) ==> forall j: nat :: j < |mods| ==> mods[j].name != a
  {
    i := 0;
    if mods != [] {
      LoadedMore(mods);
      if mods[|mods| - 1].name == a {
        i := |mods| - 1;
      } else {
        i := LoadedLast(mods[..|mods| - 1], a);
      }
    }
  }

  function Wanted(mods: seq<Mod>): map<Attribute, seq<Value>>
  {
    Loaded(Pairs(mods))
  }

  /** A run of adds in which no name repeats does what its task does. */
  lemma {:induction false} AddsSame(e: Entry, mods: seq<Mod>, a: Attribute)
    requires AllOf(mods, Add, false) && NamesOnce(mods)
    ensures Get(ApplyAll(e, mods), a) == Get(e, a) + if a in Wanted(mods) then AsSet(Wanted(mods)[a]) else {}
  {
    if mods != [] {
      AddsSame(e, mods[..|mods| - 1], a);
      LoadedMore(mods);
      var i := LoadedLast(mods[..|mods| - 1], a);
    }
  }

  lemma {:induction false} DeletesSame(e: Entry, mods: seq<Mod>, a: Attribute)
    requires AllOf(mods, Delete, false) && NamesOnce(mods)
    ensures Get(ApplyAll(e, mods), a) == Get(e, a) - if a in Wanted(mods) then AsSet(Wanted(mods)[a]) else {}
  {
    if mods != [] {
      DeletesSame(e, mods[..|mods| - 1], a);
      LoadedMore(mods);
      var i := LoadedLast(mods[..|mods| - 1], a);
    }
  }

  /** A run of replaces, or of whole deletes, does what its task does whatever repeats. */
  lemma {:induction false} SetsSame(e: Entry, mods: seq<Mod>, op: Op, whole: bool, a: Attribute)
    requires AllOf(mods, op, whole) && (op == Replace || whole)
    ensures Get(ApplyAll(e, mods), a) == if a in Wanted(mods) then AsSet(Wanted(mods)[a]) else Get(e, a)
  {
    if mods != [] {
      SetsSame(e, mods[..|mods| - 1], op, whole, a);
      LoadedMore(mods);
    }
  }

  lemma {:induction false} RunSame(e: Entry, r: Run)
    requires Proper(e) && Uniform(r) && KeepsAll(r)
    ensures RunTask(e, TaskOf(r)) == ApplyAll(e, r.mods)
  {
    var made := RunTask(e, TaskOf(r));
    assert r.mods[0].op == r.op && RemovesWholeAttribute(r.mods[0]) == r.whole;
    forall a
      ensures Get(made, a) == Get(ApplyAll(e, r.mods), a)
    {
      assert Get(made, a) == After(e, TaskOf(r), a);
      if r.op == Replace || r.whole {
        SetsSame(e, r.mods, r.op, r.whole, a);
      } else if r.op == Add {
        AddsSame(e, r.mods, a);
      } else {
        DeletesSame(e, r.mods, a);
      }
    }
    ApplyProper(e, r.mods);
    SameEntry(made, ApplyAll(e, r.mods));
  }

  // ----- what a name written twice loses

  /** Along a run of adds the values only grow, along one of deletes they only shrink. */
  lemma {:induction false} RunMoves(e: Entry, mods: seq<Mod>, op: Op, whole: bool, k: nat, a: Attribute)
    requires AllOf(mods, op, whole) && k <= |mods|
    ensures op == Add ==> Get(ApplyAll(e, mods[..k]), a) <= Get(ApplyAll(e, mods), a)
    ensures op == Delete ==> Get(ApplyAll(e, mods), a) <= Get(ApplyAll(e, mods[..k]), a)
  {
    if k == |mods| {
      assert mods[..k] == mods;
    } else {
      var front := mods[..|mods| - 1];
      RunMoves(e, front, op, whole, k, a);
      assert front[..k] == mods[..k];
    }
  }

  lemma {:induction false} AcceptedAt(e: Entry, mods: seq<Mod>, k: nat)
    requires AcceptsAll(e, mods) && k < |mods|
    ensures Accepts(ApplyAll(e, mods[..k]), mods[k])
    ensures ApplyAll(e, mods[..k + 1]) == Apply(ApplyAll(e, mods[..k]), mods[k])
  {
    var front := mods[..|mods| - 1];
    if k < |mods| - 1 {
      AcceptedAt(e, front, k);
      assert front[..k] == mods[..k] && front[..k + 1] == mods[..k + 1];
    } else {
      assert mods[..k + 1] == mods;
    }
  }

  /** Before its modification, and after it, along a run. */
  lemma AroundModification(e: Entry, mods: seq<Mod>, op: Op, whole: bool, i: nat, k: nat, a: Attribute)
    requires AllOf(mods, op, whole) && AcceptsAll(e, mods) && i < k <= |mods| && mods[i].name == a
    ensures op == Add ==> Get(e, a) <= Get(ApplyAll(e, mods[..i]), a)
    ensures op == Delete ==> Get(ApplyAll(e, mods[..i]), a) <= Get(e, a)
    ensures op == Add ==> Get(Apply(ApplyAll(e, mods[..i]), mods[i]), a) <= Get(ApplyAll(e, mods[..k]), a)
    ensures op == Delete ==> Get(ApplyAll(e, mods[..k]), a) <= Get(Apply(ApplyAll(e, mods[..i]), mods[i]), a)
  {
    AcceptedAt(e, mods, i);
    RunMoves(e, mods[..i], op, whole, 0, a);
    assert mods[..i][..0] == [];
    RunMoves(e, mods[..k], op, whole, i + 1, a);
    assert mods[..k][..i + 1] == mods[..i + 1];
  }

  lemma WholeRun(mods: seq<Mod>)
    ensures mods[..|mods|] == mods
  {
  }

  /** A value added before the last add of the attribute is not in what the task writes. */
  lemma {:induction false} RepeatedAddLoses(e: Entry, mods: seq<Mod>, i: nat, last: nat, v: Value)
    requires AllOf(mods, Add, false) && AcceptsAll(e, mods) && i < last < |mods|
    requires mods[i].name == mods[last].name && v in mods[i].values
    ensures v !in Get(e, mods[i].name) && v !in mods[last].values
    ensures v in Get(ApplyAll(e, mods), mods[i].name)
  {
    var a := mods[i].name;
    AcceptedAt(e, mods, i);
    AcceptedAt(e, mods, last);
    assert v in AsSet(mods[i].values);
    AroundModification(e, mods, Add, false, i, last, a);
    AroundModification(e, mods, Add, false, i, |mods|, a);
    WholeRun(mods);
    assert forall x :: x in mods[last].values ==> x in AsSet(mods[last].values);
  }

  /** A value deleted before the last delete from the attribute is one the task leaves there. */
  lemma {:induction false} RepeatedDeleteLoses(e: Entry, mods: seq<Mod>, whole: bool, i: nat, last: nat)
    requires AllOf(mods, Delete, whole) && AcceptsAll(e, mods) && i < last < |mods|
    requires mods[i].name == mods[last].name
    ensures !whole
    ensures forall v :: v in mods[i].values ==>
      && v in Get(e, mods[i].name) && v !in mods[last].values
      && v !in Get(ApplyAll(e, mods), mods[i].name)
  {
    var a := mods[i].name;
    AcceptedAt(e, mods, i);
    AcceptedAt(e, mods, last);
    assert forall v :: v in mods[i].values ==> v in AsSet(mods[i].values);
    AroundModification(e, mods, Delete, whole, i, last, a);
    AroundModification(e, mods, Delete, whole, i, |mods|, a);
    WholeRun(mods);
    assert forall v :: v in mods[last].values ==> v in AsSet(mods[last].values);
  }

  /** Of two modifications of one name, the task forgets a value of the first. */
  lemma {:induction false} RepeatLoses(e: Entry, r: Run, i: nat, j: nat)
    requires Uniform(r) && AcceptsAll(e, r.mods) && r.op != Replace
    requires i < j < |r.mods| && r.mods[i].name == r.mods[j].name
    ensures Get(RunTask(e, TaskOf(r)), r.mods[i].name) != Get(ApplyAll(e, r.mods), r.mods[i].name)
  {
    var mods, a := r.mods, r.mods[i].name;
    var last := LoadedLast(mods, a);
    AcceptedAt(e, mods, i);
    assert Get(RunTask(e, TaskOf(r)), a) == After(e, TaskOf(r), a);
    if r.op == Add {
      var v := mods[i].values[0];
      RepeatedAddLoses(e, mods, i, last, v);
    } else {
      RepeatedDeleteLoses(e, mods, r.whole, i, last);
      var v := mods[i].values[0];
      assert v in mods[i].values;
    }
  }

  /** A run the directory accepts and its task agree exactly when no value is lost to a repeated name. */
  lemma {:induction false} RunAgrees(e: Entry, r: Run)
    requires Proper(e) && Uniform(r) && AcceptsAll(e, r.mods)
    ensures RunTask(e, TaskOf(r)) == ApplyAll(e, r.mods) <==> KeepsAll(r)
  {
    if KeepsAll(r) {
      RunSame(e, r);
    } else {
      var i: nat, j: nat :| i < j < |r.mods| && r.mods[i].name == r.mods[j].name;
      RepeatLoses(e, r, i, j);
    }
  }

  // ----- the whole modify

  lemma {:induction false} ApplyJoin(e: Entry, a: seq<Mod>, b: seq<Mod>)
    ensures ApplyAll(e, a + b) == ApplyAll(ApplyAll(e, a), b)
    ensures AcceptsAll(e, a + b) <==> AcceptsAll(e, a) && AcceptsAll(ApplyAll(e, a), b)
  {
    if b == [] {
      assert a + b == a;
    } else {
      ApplyJoin(e, a, b[..|b| - 1]);
      assert (a + b)[..|a + b| - 1] == a + b[..|b| - 1];
    }
  }

  /** After its first `k` runs the playbook left the entry as the modify would have. */
  ghost predicate InStep(e: Entry, runs: seq<Run>, k: nat)
    requires k <= |runs|
  {
    RunTasks(e, Tasks(runs[..k])) == ApplyAll(e, Flatten(runs[..k]))
  }

  lemma {:induction false} OneMoreRun(e: Entry, runs: seq<Run>, k: nat)
    requires k < |runs| && Proper(e) && Uniform(runs[k]) && AcceptsAll(e, Flatten(runs[..k + 1]))
    ensures AcceptsAll(e, Flatten(runs[..k]))
    ensures InStep(e, runs, k) ==> (InStep(e, runs, k + 1) <==> KeepsAll(runs[k]))
  {
    assert runs[..k + 1][..k] == runs[..k];
    ApplyJoin(e, Flatten(runs[..k]), runs[k].mods);
    ApplyProper(e, Flatten(runs[..k]));
    RunAgrees(ApplyAll(e, Flatten(runs[..k])), runs[k]);
    assert Tasks(runs[..k + 1])[..k] == Tasks(runs[..k]);
  }

  lemma {:induction false} AcceptsPrefix(e: Entry, runs: seq<Run>, k: nat)
    requires k <= |runs| && AcceptsAll(e, Flatten(runs))
    ensures AcceptsAll(e, Flatten(runs[..k]))
  {
    if k < |runs| {
      var front := runs[..|runs| - 1];
      ApplyJoin(e, Flatten(front), runs[|runs| - 1].mods);
      AcceptsPrefix(e, front, k);
      assert front[..k] == runs[..k];
    } else {
      assert runs[..k] == runs;
    }
  }

  lemma {:induction false} FollowsUpTo(e: Entry, runs: seq<Run>, n: nat)
    requires Proper(e) && n <= |runs| && AcceptsAll(e, Flatten(runs))
    requires forall i: nat :: i < n ==> Uniform(runs[i]) && KeepsAll(runs[i])
    ensures InStep(e, runs, n)
  {
    if n == 0 {
      assert runs[..0] == [];
    } else {
      FollowsUpTo(e, runs, n - 1);
      AcceptsPrefix(e, runs, n);
      OneMoreRun(e, runs, n - 1);
    }
  }

  /**
   The playbook follows a modify the directory accepts, run by run, exactly when no run of
   adds or of deletes names an attribute twice.
   */
  lemma {:induction false} PlaybookFollows(e: Entry, mods: seq<Mod>, runs: seq<Run>)
    requires Proper(e) && IsGrouping(mods, runs) && AcceptsAll(e, mods)
    ensures (forall k: nat :: k <= |runs| ==> InStep(e, runs, k)) <==>
      (forall i: nat :: i < |runs| ==> KeepsAll(runs[i]))
  {
    if forall k: nat :: k <= |runs| ==> InStep(e, runs, k) {
      forall i: nat | i < |runs|
        ensures KeepsAll(runs[i])
      {
        AcceptsPrefix(e, runs, i + 1);
        CutRuns(runs, i);
        assert InStep(e, runs, i) && InStep(e, runs, i + 1);
        OneMoreRun(e, runs, i);
      }
    }
    forall i: nat | i < |runs|
      ensures Uniform(runs[i])
    {
      CutRuns(runs, i);
    }
    if forall i: nat :: i < |runs| ==> KeepsAll(runs[i]) {
      forall k: nat | k <= |runs|
        ensures InStep(e, runs, k)
      {
        FollowsUpTo(e, runs, k);
      }
    }
  }

  /** Running all the tasks then has the effect of the modify. */
  lemma {:induction false} PlaybookIsModify(e: Entry, mods: seq<Mod>)
    requires Proper(e) && AcceptsAll(e, mods)
    requires forall i: nat :: i < |Group(mods)| ==> KeepsAll(Group(mods)[i])
    ensures RunTasks(e, Tasks(Group(mods))) == ApplyAll(e, mods)
  {
    var runs := Group(mods);
    GroupIsGrouping(mods);
    forall i: nat | i < |runs|
      ensures Uniform(runs[i])
    {
      CutRuns(runs, i);
    }
    FollowsUpTo(e, runs, |runs|);
    assert runs[..|runs|] == runs;
  }

  // ----- what is left of the losses in the end

  /** Some modification of the run names the value of the attribute. */
  predicate Mentions(mods: seq<Mod>, a: Attribute, v: Value)
  {
    exists i: nat :: i < |mods| && mods[i].name == a && v in mods[i].values
  }

  /** What a run says of one value of one attribute. */
  datatype Word = Quiet | Sets(present: bool) | Lost

  /** Lost is a value that the modify adds or deletes, and the task does not name. */
  function Says(r: Run, a: Attribute, v: Value): Word
  {
    if a !in Wanted(r.mods) then Quiet
    else if r.op == Replace || r.whole then Sets(v in Wanted(r.mods)[a])
    else if v in Wanted(r.mods)[a] then Sets(r.op == Add)
    else if Mentions(r.mods, a, v) then Lost
    else Quiet
  }

  lemma {:induction false} AddsDo(e: Entry, mods: seq<Mod>, a: Attribute, v: Value)
    requires AllOf(mods, Add, false)
    ensures v in Get(ApplyAll(e, mods), a) <==> v in Get(e, a) || Mentions(mods, a, v)
  {
    if mods != [] {
      AddsDo(e, mods[..|mods| - 1], a, v);
      MentionsMore(mods, a, v);
    }
  }

  lemma {:induction false} DeletesDo(e: Entry, mods: seq<Mod>, a: Attribute, v: Value)
    requires AllOf(mods, Delete, false)
    ensures v in Get(ApplyAll(e, mods), a) <==> v in Get(e, a) && !Mentions(mods, a, v)
  {
    if mods != [] {
      DeletesDo(e, mods[..|mods| - 1], a, v);
      MentionsMore(mods, a, v);
    }
  }

  lemma MentionsMore(mods: seq<Mod>, a: Attribute, v: Value)
    requires mods != []
    ensures var last := mods[|mods| - 1];
      Mentions(mods, a, v) <==> Mentions(mods[..|mods| - 1], a, v) || (last.name == a && v in last.values)
  {
    var front, last := mods[..|mods| - 1], mods[|mods| - 1];
    if Mentions(front, a, v) {
      var i: nat :| i < |front| && front[i].name == a && v in front[i].values;
      assert mods[i] == front[i];
    }
    if Mentions(mods, a, v) {
      var i: nat :| i < |mods| && mods[i].name == a && v in mods[i].values;
      assert i < |front| ==> front[i] == mods[i];
    }
  }

  lemma WantedIsMentioned(mods: seq<Mod>, a: Attribute, v: Value)
    ensures a in Wanted(mods) && v in Wanted(mods)[a] ==> Mentions(mods, a, v)
    ensures a !in Wanted(mods) ==> !Mentions(mods, a, v)
  {
    var i := LoadedLast(mods, a);
  }

  /** What the modifications of a run do to a value. */
  lemma ModifyDoes(e: Entry, r: Run, a: Attribute, v: Value)
    requires Uniform(r) && AcceptsAll(e, r.mods)
    ensures var after := v in Get(ApplyAll(e, r.mods), a);
      match Says(r, a, v)
      case Quiet => after == (v in Get(e, a))
      case Sets(present) => after == present
      case Lost => after != (v in Get(e, a))
  {
    assert r.mods[0].op == r.op && RemovesWholeAttribute(r.mods[0]) == r.whole;
    WantedIsMentioned(r.mods, a, v);
    if r.op == Replace || r.whole {
      SetsSame(e, r.mods, r.op, r.whole, a);
    } else if r.op == Add {
      AddsDo(e, r.mods, a, v);
      if Says(r, a, v).Lost? {
        LostFlips(e, r, a, v);
      }
    } else {
      DeletesDo(e, r.mods, a, v);
      if Says(r, a, v).Lost? {
        LostFlips(e, r, a, v);
      }
    }
  }

  /** A modify the directory accepts adds only what is not there and deletes only what is. */
  lemma LostFlips(e: Entry, r: Run, a: Attribute, v: Value)
    requires Uniform(r) && AcceptsAll(e, r.mods) && Says(r, a, v).Lost?
    ensures v in Get(e, a) <==> r.op != Add
  {
    var i: nat :| i < |r.mods| && r.mods[i].name == a && v in r.mods[i].values;
    var last := LoadedLast(r.mods, a);
    if r.op == Add {
      RepeatedAddLoses(e, r.mods, i, last, v);
    } else {
      RepeatedDeleteLoses(e, r.mods, r.whole, i, last);
    }
  }

  /** What the task of a run does to it. */
  lemma TaskDoes(e: Entry, r: Run, a: Attribute, v: Value)
    requires Uniform(r)
    ensures var after := v in Get(RunTask(e, TaskOf(r)), a);
      match Says(r, a, v)
      case Sets(present) => after == present
      case _ => after == (v in Get(e, a))
  {
    assert r.mods[0].op == r.op && RemovesWholeAttribute(r.mods[0]) == r.whole;
    assert Get(RunTask(e, TaskOf(r)), a) == After(e, TaskOf(r), a);
  }

  /** After the first `n` runs the value is there for one of the two and not for the other. */
  function Owed(runs: seq<Run>, n: nat, a: Attribute, v: Value): bool
    requires n <= |runs|
  {
    if n == 0 then false
    else match Says(runs[n - 1], a, v)
      case Quiet => Owed(runs, n - 1, a, v)
      case Sets(_) => false
      case Lost => !Owed(runs, n - 1, a, v)
  }

  lemma {:induction false} OwedAfter(e: Entry, runs: seq<Run>, n: nat, a: Attribute, v: Value)
    requires n <= |runs| && AcceptsAll(e, Flatten(runs[..n]))
    requires forall i: nat :: i < |runs| ==> Uniform(runs[i])
    ensures Owed(runs, n, a, v) <==>
      (v in Get(RunTasks(e, Tasks(runs[..n])), a)) != (v in Get(ApplyAll(e, Flatten(runs[..n])), a))
  {
    if n == 0 {
      assert runs[..0] == [];
    } else {
      var r := runs[n - 1];
      assert runs[..n][..n - 1] == runs[..n - 1];
      ApplyJoin(e, Flatten(runs[..n - 1]), r.mods);
      OwedAfter(e, runs, n - 1, a, v);
      assert Tasks(runs[..n])[..n - 1] == Tasks(runs[..n - 1]);
      ModifyDoes(ApplyAll(e, Flatten(runs[..n - 1])), r, a, v);
      TaskDoes(RunTasks(e, Tasks(runs[..n - 1])), r, a, v);
    }
  }

  lemma {:induction false} TasksProper(e: Entry, tasks: seq<Task>)
    requires Proper(e)
    ensures Proper(RunTasks(e, tasks))
  {
  }

  /** Some value is owed after the runs. */
  ghost predicate OwesSome(runs: seq<Run>)
  {
    exists a, v :: OwedInTheEnd(runs, a, v)
  }

  predicate OwedInTheEnd(runs: seq<Run>, a: Attribute, v: Value)
  {
    Owed(runs, |runs|, a, v)
  }

  /**
   In the end the playbook has done what the modify does exactly when no value is owed: when
   each value lost was set again by a later run, or lost back the other way.
   */
  lemma {:induction false} PlaybookIsModifyIff(e: Entry, mods: seq<Mod>)
    requires Proper(e) && AcceptsAll(e, mods)
    ensures RunTasks(e, Tasks(Group(mods))) == ApplyAll(e, mods) <==> !OwesSome(Group(mods))
  {
    var runs := Group(mods);
    GroupIsGrouping(mods);
    forall i: nat | i < |runs|
      ensures Uniform(runs[i])
    {
      CutRuns(runs, i);
    }
    assert runs[..|runs|] == runs;
    var made, meant := RunTasks(e, Tasks(runs)), ApplyAll(e, mods);
    forall a, v
      ensures OwedInTheEnd(runs, a, v) <==> DifferIn(made, meant, a, v)
    {
      OwedAfter(e, runs, |runs|, a, v);
    }
    TasksProper(e, Tasks(runs));
    ApplyProper(e, mods);
    SameUnlessDiffer(made, meant);
    OwesIff(made, meant, runs);
  }

  lemma OwesIff(made: Entry, meant: Entry, runs: seq<Run>)
    requires forall a, v :: OwedInTheEnd(runs, a, v) <==> DifferIn(made, meant, a, v)
    ensures OwesSome(runs) <==> exists a, v :: DifferIn(made, meant, a, v)
  {
    if OwesSome(runs) {
      var a, v :| OwedInTheEnd(runs, a, v);
      assert DifferIn(made, meant, a, v);
    }
  }

  predicate DifferIn(e: Entry, f: Entry, a: Attribute, v: Value)
  {
    (v in Get(e, a)) != (v in Get(f, a))
  }

  lemma SameUnlessDiffer(e: Entry, f: Entry)
    requires Proper(e) && Proper(f)
    ensures e == f <==> forall a, v :: !DifferIn(e, f, a, v)
  {
    if forall a, v :: !DifferIn(e, f, a, v) {
      forall a
        ensures Get(e, a) == Get(f, a)
      {
        forall v
          ensures v in Get(e, a) <==> v in Get(f, a)
        {
          assert !DifferIn(e, f, a, v);
        }
      }
      SameEntry(e, f);
    }
  }

  lemma {:induction false} TwoMods(e: Entry, m: Mod, n: Mod)
    requires m.op == n.op && RemovesWholeAttribute(m) == RemovesWholeAttribute(n)
    ensures ApplyAll(e, [m, n]) == Apply(Apply(e, m), n)
    ensures AcceptsAll(e, [m, n]) <==> Accepts(e, m) && Accepts(Apply(e, m), n)
    ensures Group([m, n]) == [Run(m.op, RemovesWholeAttribute(m), [m, n])]
  {
    OneMod(e, m);
    OneMod(Apply(e, m), n);
    ApplyJoin(e, [m], [n]);
    assert [m] + [n] == [m, n];
    assert [m, n][..1] == [m];
    assert Group([m, n]) == Extend(Group([m]), n);
  }

  lemma OneMod(e: Entry, m: Mod)
    ensures ApplyAll(e, [m]) == Apply(e, m)
    ensures AcceptsAll(e, [m]) <==> Accepts(e, m)
    ensures Group([m]) == [Run(m.op, RemovesWholeAttribute(m), [m])]
  {
    var none: seq<Mod> := [m][..0];
    assert none == [];
    assert ApplyAll(e, none) == e && AcceptsAll(e, none) && Group(none) == [];
  }

  /** Two adds of one attribute in a row: the playbook does not do what the modify does. */
  lemma {:induction false} TwoAddsLoseOne()
    ensures var mods, e: Entry := [Mod(Add, "mail", ["a"]), Mod(Add, "mail", ["b"])], map[];
      && AcceptsAll(e, mods)
      && "a" in Get(ApplyAll(e, mods), "mail")
      && "a" !in Get(RunTasks(e, Tasks(Group(mods))), "mail")
  {
    var m, n, e: Entry := Mod(Add, "mail", ["a"]), Mod(Add, "mail", ["b"]), map[];
    var run := Run(Add, false, [m, n]);
    TwoMods(e, m, n);
    assert "a"[0] != "b"[0];
    assert Get(Apply(e, m), "mail") == {"a"};
    LoadedMore([m, n]);
    assert Tasks([run])[..0] == [];
    assert RunTasks(e, Tasks([run])) == RunTask(e, TaskOf(run));
    assert Get(RunTask(e, TaskOf(run)), "mail") == After(e, TaskOf(run), "mail");
  }
}
