/**
 The in-flight gate: a bounded number of requests hold a slot at a time, each gives its
 slot back once, and a streamed response keeps it until its writer is done. The threads
 are steps of one state machine, taken in any order.
 */
module Gate {
  import opened Options

  const DEFAULT_MAX_IN_FLIGHT := 64

  datatype Method = Get | Delete | Post
  datatype Path = Session | SessionReference | Source | Other

  type Id = nat

  /** Requests that ask the directory nothing do not queue. */
  predicate AnsweredWithoutTheDirectory(m: Method, p: Path)
  {
    match p
    case Session => m == Delete || m == Get
    case SessionReference => m == Delete || m == Get
    case Source => true
    case Other => false
  }

  /** The capacity a configuration asks for: zero is the default, a negative number is no gate. */
  function GateFor(maxInFlight: int): (capacity: Option<nat>)
    ensures capacity.Some? ==> capacity.value > 0
    ensures capacity.None? <==> maxInFlight < 0
    ensures maxInFlight == 0 ==> capacity == Some(64)
    ensures maxInFlight > 0 ==> capacity == Some(maxInFlight)
  {
    var n := if maxInFlight == 0 then DEFAULT_MAX_IN_FLIGHT else maxInFlight;
    if n <= 0 then None else Some(n)
  }

  datatype Stage =
    | Waiting    // in the select, for a slot or for the timeout
    | Refused    // timed out
    | Handling   // the handler runs
    | Streaming  // the handler returned and its writer runs
    | Finished

  /** One request: `holds` is a slot taken and not given back, `freed` how often one was given back. */
  datatype Request = Request(stage: Stage, admitted: bool, kept: bool, released: bool, freed: nat)

  /** `slots` is the number of tokens in the channel. */
  datatype State = State(capacity: Option<nat>, slots: nat, requests: map<Id, Request>)

  datatype Event =
    | Arrive(id: Id, httpMethod: Method, path: Path)
    | Admit(id: Id)
    | TimeOut(id: Id)
    | KeepSlot(id: Id)
    | Release(id: Id)     // a call of the function keepSlot handed out
    | Return(id: Id)      // the handler returns, and the gate's deferred function runs
    | WriterDone(id: Id)  // the stream writer returns, and its deferred release runs

  function Initial(capacity: Option<nat>): State
  {
    State(capacity, 0, map[])
  }

  /** The step can be taken: its thread is there, and no channel operation in it would block. */
  predicate Enabled(s: State, e: Event)
  {
    match e
    case Arrive(id, _, _) => id !in s.requests
    case Admit(id) => At(s, id, Waiting) && s.capacity.Some? && s.slots < s.capacity.value
    case TimeOut(id) => At(s, id, Waiting)
    case KeepSlot(id) => At(s, id, Handling)
    case Release(id) => HasRelease(s, id) && !Blocks(s, e)
    case Return(id) => At(s, id, Handling) && !Blocks(s, e)
    case WriterDone(id) => At(s, id, Streaming) && !Blocks(s, e)
  }

  predicate At(s: State, id: Id, stage: Stage)
  {
    id in s.requests && s.requests[id].stage == stage
  }

  /** The release function was handed out: the request was admitted and its slot kept. */
  predicate HasRelease(s: State, id: Id)
  {
    id in s.requests && s.requests[id].admitted && s.requests[id].kept
  }

  /** The step receives from the channel. */
  predicate Frees(s: State, e: Event)
  {
    match e
    case Release(id) => HasRelease(s, id) && !s.requests[id].released
    case Return(id) =>
      At(s, id, Handling) && s.requests[id].admitted && !s.requests[id].kept && !s.requests[id].released
    case WriterDone(id) => At(s, id, Streaming) && s.requests[id].admitted && !s.requests[id].released
    case _ => false
  }

  /** The step would wait on an empty channel. */
  predicate Blocks(s: State, e: Event)
  {
    Frees(s, e) && s.slots == 0
  }

  /** The request once its release was called: the first call frees the slot, later ones do nothing. */
  function Freed(r: Request): Request
  {
    if r.released then r else r.(released := true, freed := r.freed + 1)
  }

  function Next(s: State, e: Event): State
    requires Enabled(s, e)
  {
    var taken := if Frees(s, e) then s.slots - 1 else s.slots;
    match e
    case Arrive(id, m, p) =>
      var waits := s.capacity.Some? && !AnsweredWithoutTheDirectory(m, p);
      s.(requests := s.requests[id := Request(if waits then Waiting else Handling, false, false, false, 0)])
    case Admit(id) =>
      s.(slots := s.slots + 1, requests := s.requests[id := s.requests[id].(stage := Handling, admitted := true)])
    case TimeOut(id) =>
      s.(requests := s.requests[id := s.requests[id].(stage := Refused)])
    case KeepSlot(id) =>
      // With no slot held there is none to keep.
      s.(requests := s.requests[id := s.requests[id].(kept := s.requests[id].admitted)])
    case Release(id) =>
      s.(slots := taken, requests := s.requests[id := Freed(s.requests[id])])
    case Return(id) =>
      var r := s.requests[id];
      var left := if r.admitted && !r.kept then Freed(r) else r;
      s.(slots := taken, requests := s.requests[id := left.(stage := if r.kept then Streaming else Finished)])
    case WriterDone(id) =>
      var r := s.requests[id];
      var left := if r.admitted then Freed(r) else r;
      s.(slots := taken, requests := s.requests[id := left.(stage := Finished)])
  }

  // ----- what holds in every state

  predicate Holds(r: Request)
  {
    r.admitted && !r.released
  }

  function Holders(requests: map<Id, Request>): set<Id>
  {
    set id | id in requests && Holds(requests[id])
  }

  ghost predicate RequestOk(r: Request)
  {
    && (r.kept ==> r.admitted)
    && (r.admitted ==> r.stage in {Handling, Streaming, Finished})
    && (r.freed == if r.released then 1 else 0)
    && (r.released ==> r.admitted)
    && (r.stage == Handling && !r.kept ==> !r.released)
    && (r.stage == Streaming ==> r.kept)
    && (r.stage == Finished && r.admitted ==> r.released)
  }

  ghost predicate Inv(s: State)
  {
    && s.slots == |Holders(s.requests)|
    && (s.slots > 0 ==> s.capacity.Some?)
    && (s.capacity.Some? ==> s.slots <= s.capacity.value)
    && (forall id :: id in s.requests ==> RequestOk(s.requests[id]))
  }

  /** Changing one request changes the number of holders by that request alone. */
  lemma HoldersAfter(requests: map<Id, Request>, id: Id, r: Request)
    ensures |Holders(requests[id := r])| ==
      |Holders(requests)| - (if id in requests && Holds(requests[id]) then 1 else 0) + (if Holds(r) then 1 else 0)
  {
    var before, after := Holders(requests), Holders(requests[id := r]);
    assert before - {id} == after - {id};
    assert id in before <==> id in requests && Holds(requests[id]);
    assert id in after <==> Holds(r);
    SizeWithout(before, id);
    SizeWithout(after, id);
  }

  lemma SizeWithout(s: set<Id>, id: Id)
    ensures |s| == |s - {id}| + if id in s then 1 else 0
  {
    if id in s {
      assert s == (s - {id}) + {id};
    } else {
      assert s == s - {id};
    }
  }

  lemma InvKept(s: State, e: Event)
    requires Inv(s) && Enabled(s, e)
    ensures Inv(Next(s, e))
  {
    var t := Next(s, e);
    HoldersAfter(s.requests, e.id, t.requests[e.id]);
    assert t.requests == s.requests[e.id := t.requests[e.id]];
    if e.Return? || e.WriterDone? || e.Release? || e.Admit? || e.KeepSlot? || e.TimeOut? {
      assert RequestOk(s.requests[e.id]);
    }
  }

  // ----- every run, in any interleaving

  /** The state after some steps, or nothing when one of them could not be taken. */
  function After(s: State, events: seq<Event>): Option<State>
  {
    if events == [] then Some(s)
    else
      match After(s, events[..|events| - 1])
      case None => None
      case Some(t) => if Enabled(t, events[|events| - 1]) then Some(Next(t, events[|events| - 1])) else None
  }

  ghost predicate Reachable(capacity: Option<nat>, s: State)
  {
    exists events :: After(Initial(capacity), events) == Some(s)
  }

  lemma {:induction false} RunKeepsInv(capacity: Option<nat>, events: seq<Event>, s: State)
    requires After(Initial(capacity), events) == Some(s)
    ensures Inv(s) && s.capacity == capacity
  {
    if events == [] {
      assert Holders(map[]) == {};
    } else {
      var t := After(Initial(capacity), events[..|events| - 1]).value;
      RunKeepsInv(capacity, events[..|events| - 1], t);
      InvKept(t, events[|events| - 1]);
    }
  }

  /** A step whose thread has come to it, whether or not it would have to wait. */
  predicate Due(s: State, e: Event)
  {
    match e
    case Release(id) => HasRelease(s, id)
    case Return(id) => At(s, id, Handling)
    case WriterDone(id) => At(s, id, Streaming)
    case _ => false
  }

  /** No release ever waits: a slot to give back means a token in the channel. */
  lemma NoReleaseBlocks(capacity: Option<nat>, s: State, e: Event)
    requires Reachable(capacity, s) && Due(s, e)
    ensures Enabled(s, e)
  {
    var events :| After(Initial(capacity), events) == Some(s);
    RunKeepsInv(capacity, events, s);
    if Frees(s, e) {
      assert e.id in Holders(s.requests);
    }
  }

  /** Slots taken are the requests holding one, and never more than the gate admits. */
  lemma SlotsAreHolders(capacity: Option<nat>, s: State)
    requires Reachable(capacity, s)
    ensures s.slots == |Holders(s.requests)|
    ensures capacity.Some? ==> s.slots <= capacity.value
    ensures capacity.None? ==> s.slots == 0
  {
    var events :| After(Initial(capacity), events) == Some(s);
    RunKeepsInv(capacity, events, s);
  }

  /** A step that can be taken in a state a server can be in leads to another. */
  lemma StepsReach(capacity: Option<nat>, s: State, e: Event)
    requires Reachable(capacity, s) && Enabled(s, e)
    ensures Reachable(capacity, Next(s, e))
  {
    var events :| After(Initial(capacity), events) == Some(s);
    assert (events + [e])[..|events|] == events;
    assert After(Initial(capacity), events + [e]) == Some(Next(s, e));
  }

  /** The first `n` requests run with a slot each, and no other has come. */
  ghost predicate Crowd(s: State, n: nat)
  {
    && s.slots == n
    && forall id: nat :: if id < n then At(s, id, Handling) && id in Holders(s.requests) else id !in s.requests
  }

  /** The gate lets as many in at once as it says: any number of slots up to its capacity can be taken. */
  lemma {:induction false} GateFills(capacity: nat, n: nat)
    requires n <= capacity
    ensures exists s :: Reachable(Some(capacity), s) && Crowd(s, n)
  {
    if n == 0 {
      assert After(Initial(Some(capacity)), []) == Some(Initial(Some(capacity)));
      assert Crowd(Initial(Some(capacity)), 0);
    } else {
      GateFills(capacity, n - 1);
      var s :| Reachable(Some(capacity), s) && Crowd(s, n - 1);
      OneMore(capacity, s, n - 1);
    }
  }

  lemma OneMore(capacity: nat, s: State, n: nat)
    requires Reachable(Some(capacity), s) && Crowd(s, n) && n < capacity
    ensures exists t :: Reachable(Some(capacity), t) && Crowd(t, n + 1)
  {
    var events :| After(Initial(Some(capacity)), events) == Some(s);
    RunKeepsInv(Some(capacity), events, s);
    var comes := Event.Arrive(n, Post, Other);
    StepsReach(Some(capacity), s, comes);
    StepsReach(Some(capacity), Next(s, comes), Admit(n));
    assert Crowd(Next(Next(s, comes), Admit(n)), n + 1);
  }

  ghost predicate Idle(s: State)
  {
    forall id :: id in s.requests ==> s.requests[id].stage.Refused? || s.requests[id].stage.Finished?
  }

  /** An idle server has no slot taken, and every request it admitted gave its slot back once. */
  lemma IdleHoldsNothing(capacity: Option<nat>, s: State)
    requires Reachable(capacity, s) && Idle(s)
    ensures s.slots == 0
    ensures forall id :: id in s.requests ==> s.requests[id].freed == if s.requests[id].admitted then 1 else 0
  {
    var events :| After(Initial(capacity), events) == Some(s);
    RunKeepsInv(capacity, events, s);
    assert forall id :: id in s.requests ==> RequestOk(s.requests[id]);
    assert Holders(s.requests) == {};
  }

  /** What is left to do: requests that are not over, those that are not streaming yet, and those that wait. */
  function Work(s: State): nat
  {
    |InStages(s, {Waiting, Handling, Streaming})| + |InStages(s, {Waiting, Handling})| + |InStages(s, {Waiting})|
  }

  function InStages(s: State, stages: set<Stage>): set<Id>
  {
    set id | id in s.requests && s.requests[id].stage in stages
  }

  lemma Smaller(a: set<Id>, b: set<Id>)
    requires a <= b
    ensures |a| <= |b| && (a != b ==> |a| < |b|)
  {
    assert b == a + (b - a);
  }

  /** Timing out, returning and finishing a stream leave less to do. */
  lemma WorkFalls(s: State, e: Event)
    requires Enabled(s, e) && (e.TimeOut? || e.Return? || e.WriterDone?)
    ensures Work(Next(s, e)) < Work(s)
  {
    var t := Next(s, e);
    var all, early := {Waiting, Handling, Streaming}, {Waiting, Handling};
    Smaller(InStages(t, all), InStages(s, all));
    Smaller(InStages(t, early), InStages(s, early));
    Smaller(InStages(t, {Waiting}), InStages(s, {Waiting}));
    assert e.id in InStages(s, all);
    assert e.Return? ==> e.id in InStages(s, early) && e.id !in InStages(t, early);
    assert !e.Return? ==> e.id !in InStages(t, all);
  }

  /** A server that is not idle can always take a step that leaves less to do. */
  lemma NotStuck(capacity: Option<nat>, s: State)
    requires Reachable(capacity, s) && !Idle(s)
    ensures exists e :: Enabled(s, e) && Work(Next(s, e)) < Work(s)
  {
    var id :| id in s.requests && !s.requests[id].stage.Refused? && !s.requests[id].stage.Finished?;
    match s.requests[id].stage {
      case Waiting => WorkFalls(s, TimeOut(id));
      case Handling =>
        NoReleaseBlocks(capacity, s, Return(id));
        WorkFalls(s, Return(id));
      case Streaming =>
        NoReleaseBlocks(capacity, s, WriterDone(id));
        WorkFalls(s, WriterDone(id));
    }
  }

  /** A waiting request gets in exactly when fewer requests hold a slot than the gate admits. */
  lemma AdmittedWhileRoom(capacity: Option<nat>, s: State, id: Id)
    requires Reachable(capacity, s) && At(s, id, Waiting)
    ensures Enabled(s, Admit(id)) <==> capacity.Some? && |Holders(s.requests)| < capacity.value
  {
    var events :| After(Initial(capacity), events) == Some(s);
    RunKeepsInv(capacity, events, s);
  }

  /** The step gives the slot back, where one is kept. */
  predicate LetsGo(e: Event, id: Id)
  {
    e == Release(id) || e == WriterDone(id)
  }

  /** A slot kept stays so, and is freed by such a step and no other. */
  lemma KeptStep(s: State, e: Event, id: Id)
    requires Enabled(s, e) && id in s.requests && s.requests[id].kept && s.requests[id].admitted
    ensures id in Next(s, e).requests && Next(s, e).requests[id].kept && Next(s, e).requests[id].admitted
    ensures Holds(Next(s, e).requests[id]) <==> Holds(s.requests[id]) && !LetsGo(e, id)
  {
  }

  /** A kept slot outlives its handler: in any run only its writer, or a call of the release it was given, frees it. */
  lemma {:induction false} KeptSlotStays(s: State, events: seq<Event>, t: State, id: Id)
    requires After(s, events) == Some(t)
    requires id in s.requests && s.requests[id].kept && Holds(s.requests[id])
    ensures id in t.requests && t.requests[id].kept && t.requests[id].admitted
    ensures Holds(t.requests[id]) <==> forall k: nat :: k < |events| ==> !LetsGo(events[k], id)
  {
    if events != [] {
      var front, last := events[..|events| - 1], events[|events| - 1];
      var u := After(s, front).value;
      KeptSlotStays(s, front, u, id);
      KeptStep(u, last, id);
      assert t == Next(u, last);
      if forall k: nat :: k < |front| ==> !LetsGo(front[k], id) {
        assert LetsGo(last, id) || forall k: nat :: k < |events| ==> !LetsGo(events[k], id);
      } else {
        var k: nat :| k < |front| && LetsGo(front[k], id);
        assert events[k] == front[k];
      }
    }
  }

  /** However often and by whomever release is called, a slot is given back at most once, and never one not taken. */
  lemma ReleaseOnce(capacity: Option<nat>, s: State, id: Id)
    requires Reachable(capacity, s) && id in s.requests
    ensures s.requests[id].freed <= 1
    ensures s.requests[id].freed == 1 <==> s.requests[id].admitted && !Holds(s.requests[id])
  {
    var events :| After(Initial(capacity), events) == Some(s);
    RunKeepsInv(capacity, events, s);
    assert RequestOk(s.requests[id]);
  }

  // ----- who runs without a slot

  /** Among these events is the arrival of the request by one of the five ways that ask the directory nothing. */
  ghost predicate AsksNothing(events: seq<Event>, id: Id)
  {
    exists k: nat :: k < |events| && WavedThrough(events[k], id)
  }

  /** Reading or leaving the session, reading or detaching its reference, and asking for the source. */
  predicate WavedThrough(e: Event, id: Id)
  {
    || e == Arrive(id, Get, Session) || e == Arrive(id, Delete, Session)
    || e == Arrive(id, Get, SessionReference) || e == Arrive(id, Delete, SessionReference)
    || (e.Arrive? && e.id == id && e.path == Source)
  }

  ghost predicate Called(events: seq<Event>, e: Event)
  {
    exists k: nat :: k < |events| && events[k] == e
  }

  lemma OneMoreEvent(events: seq<Event>, e: Event, id: Id, other: Event)
    ensures AsksNothing(events + [e], id) <==> AsksNothing(events, id) || WavedThrough(e, id)
    ensures Called(events + [e], other) <==> Called(events, other) || e == other
  {
    var more := events + [e];
    assert more[|events|] == e;
    assert forall k: nat :: k < |events| ==> more[k] == events[k];
  }

  /** How a request stands with a gate: one that asks nothing has no slot, and any other runs only with one. */
  ghost predicate StandsRight(events: seq<Event>, id: Id, r: Request)
  {
    && (AsksNothing(events, id) ==> !r.admitted && !r.stage.Waiting? && !r.stage.Refused?)
    && (!AsksNothing(events, id) && (r.stage.Handling? || r.stage.Streaming?) ==> r.admitted)
    && (r.admitted && !Holds(r) && (r.stage.Handling? || r.stage.Streaming?) ==> Called(events, Release(id)))
  }

  lemma {:induction false} AllStandRight(capacity: Option<nat>, events: seq<Event>, s: State, id: Id)
    requires After(Initial(capacity), events) == Some(s) && capacity.Some?
    ensures id !in s.requests ==> !AsksNothing(events, id)
    ensures id in s.requests ==> StandsRight(events, id, s.requests[id])
  {
    if events != [] {
      var front, last := events[..|events| - 1], events[|events| - 1];
      var t := After(Initial(capacity), front).value;
      AllStandRight(capacity, front, t, id);
      RunKeepsInv(capacity, front, t);
      assert events == front + [last];
      OneMoreEvent(front, last, id, Release(id));
      if last.id == id && id in t.requests {
        assert RequestOk(t.requests[id]);
      }
    }
  }

  /**
   With a gate, in every run: a request whose handler or writer runs holds a slot, or had its
   release called, or arrived by one of the ways that ask the directory nothing; and those
   that did never wait, are never refused and never hold a slot.
   */
  lemma RunsWithASlot(capacity: Option<nat>, events: seq<Event>, s: State, id: Id)
    requires After(Initial(capacity), events) == Some(s) && capacity.Some? && id in s.requests
    ensures At(s, id, Handling) || At(s, id, Streaming) ==>
      id in Holders(s.requests) || Called(events, Release(id)) || AsksNothing(events, id)
    ensures AsksNothing(events, id) ==>
      id !in Holders(s.requests) && !At(s, id, Waiting) && !At(s, id, Refused)
  {
    AllStandRight(capacity, events, s, id);
  }

  /** So no more requests than the gate admits run at once, of those that ask the directory and keep their slot. */
  lemma RunningAreBounded(capacity: nat, events: seq<Event>, s: State, running: set<Id>)
    requires After(Initial(Some(capacity)), events) == Some(s)
    requires forall id :: id in running ==>
      (At(s, id, Handling) || At(s, id, Streaming)) && !Called(events, Release(id)) && !AsksNothing(events, id)
    ensures |running| <= capacity
  {
    forall id | id in running
      ensures id in Holders(s.requests)
    {
      RunsWithASlot(Some(capacity), events, s, id);
    }
    RunKeepsInv(Some(capacity), events, s);
    Smaller(running, Holders(s.requests));
  }

  /** Without a gate no request waits or is refused. */
  lemma {:induction false} NoGateNoQueue(events: seq<Event>, s: State, id: Id)
    requires After(Initial(None), events) == Some(s) && id in s.requests
    ensures !At(s, id, Waiting) && !At(s, id, Refused)
  {
    if events != [] {
      var front, last := events[..|events| - 1], events[|events| - 1];
      var t := After(Initial(None), front).value;
      RunKeepsInv(None, front, t);
      if id in t.requests {
        NoGateNoQueue(front, t, id);
      }
    }
  }

  // ----- the gate itself

  /** The channel, and the heldSlot of each request the gate let in. */
  class Server {
    const capacity: Option<nat>
    var slots: nat
    var requests: map<Id, Request>

    ghost function Now(): State
      reads this
    {
      State(capacity, slots, requests)
    }

    constructor (maxInFlight: int)
      ensures capacity == GateFor(maxInFlight) && Now() == Initial(capacity) && Inv(Now())
    {
      capacity, slots, requests := GateFor(maxInFlight), 0, map[];
      assert Holders(map[]) == {};
    }

    /** limit, up to the select. */
    method Arrive(id: Id, m: Method, p: Path)
      requires Inv(Now()) && id !in requests
      modifies this
      ensures Inv(Now()) && Now() == Next(old(Now()), Event.Arrive(id, m, p))
    {
      InvKept(Now(), Event.Arrive(id, m, p));
      if capacity.None? || AnsweredWithoutTheDirectory(m, p) {
        requests := requests[id := Request(Handling, false, false, false, 0)];
      } else {
        requests := requests[id := Request(Waiting, false, false, false, 0)];
      }
    }

    /** The select: a slot when there is room, and otherwise the timeout. */
    method Select(id: Id, timeout: bool) returns (event: Event)
      requires Inv(Now()) && At(Now(), id, Waiting)
      requires !timeout ==> capacity.Some? && slots < capacity.value
      modifies this
      ensures event == if timeout then TimeOut(id) else Admit(id)
      ensures Inv(Now()) && Enabled(old(Now()), event) && Now() == Next(old(Now()), event)
    {
      event := if timeout then TimeOut(id) else Admit(id);
      InvKept(Now(), event);
      if timeout {
        requests := requests[id := requests[id].(stage := Refused)];
      } else {
        slots := slots + 1;
        requests := requests[id := requests[id].(stage := Handling, admitted := true)];
      }
    }

    method KeepSlot(id: Id)
      requires Inv(Now()) && At(Now(), id, Handling)
      modifies this
      ensures Inv(Now()) && Now() == Next(old(Now()), Event.KeepSlot(id))
    {
      InvKept(Now(), Event.KeepSlot(id));
      requests := requests[id := requests[id].(kept := requests[id].admitted)];
    }

    /** The release of one request: through a sync.Once, so only the first call receives from the channel. */
    method Once(id: Id)
      requires id in requests && (!requests[id].released ==> slots > 0)
      modifies this
      ensures requests == old(requests)[id := Freed(old(requests[id]))]
      ensures slots == old(slots) - if old(requests[id].released) then 0 else 1
    {
      if !requests[id].released {
        slots := slots - 1;
        requests := requests[id := requests[id].(released := true, freed := requests[id].freed + 1)];
      }
    }

    method Release(id: Id)
      requires Inv(Now()) && HasRelease(Now(), id)
      modifies this
      ensures Inv(Now()) && Enabled(old(Now()), Event.Release(id)) && Now() == Next(old(Now()), Event.Release(id))
    {
      HoldersHaveSlots(Now(), id);
      InvKept(Now(), Event.Release(id));
      Once(id);
    }

    /** The handler returned: the deferred function of limit gives the slot back unless it was kept. */
    method Return(id: Id)
      requires Inv(Now()) && At(Now(), id, Handling)
      modifies this
      ensures Inv(Now()) && Enabled(old(Now()), Event.Return(id)) && Now() == Next(old(Now()), Event.Return(id))
    {
      HoldersHaveSlots(Now(), id);
      InvKept(Now(), Event.Return(id));
      var kept := requests[id].kept;
      if requests[id].admitted && !kept {
        Once(id);
      }
      requests := requests[id := requests[id].(stage := if kept then Streaming else Finished)];
      assert requests == old(requests)[id := requests[id]];
    }

    /** The stream writer returned, and ran its deferred release. */
    method WriterDone(id: Id)
      requires Inv(Now()) && At(Now(), id, Streaming)
      modifies this
      ensures Inv(Now()) && Enabled(old(Now()), Event.WriterDone(id)) && Now() == Next(old(Now()), Event.WriterDone(id))
    {
      HoldersHaveSlots(Now(), id);
      InvKept(Now(), Event.WriterDone(id));
      Once(id);
      requests := requests[id := requests[id].(stage := Finished)];
      assert requests == old(requests)[id := requests[id]];
    }
  }

  lemma HoldersHaveSlots(s: State, id: Id)
    requires Inv(s) && id in s.requests
    ensures RequestOk(s.requests[id])
    ensures Holds(s.requests[id]) ==> s.slots > 0
  {
    assert Holds(s.requests[id]) ==> id in Holders(s.requests);
  }
}
