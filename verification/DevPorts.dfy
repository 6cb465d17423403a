/** Ports and indexes of the dev-tool manager. Starting is a reservation, a launch
    without the lock, and a publication; stopping looks the instance up, stops the
    process without the lock, and cleans up; a watcher releases the port of an
    instance whose process exits. Each locked section is one step. */
module DevPorts {
  import opened Wrappers

  const MIN_PORT: int := 49152
  const MAX_PORT: int := 65535

  type Id = string
  type Call = nat

  datatype Instance = Instance(sandbox: string, port: int)

  /** The first port in [lo, hi) that is neither in use nor refused by the probe. */
  function FirstFree(lo: int, hi: int, used: set<int>, probe: int -> bool): (p: Option<int>)
    decreases hi - lo
    ensures p.Some? ==> lo <= p.value < hi && Usable(p.value, used, probe)
    ensures p.Some? ==> forall q | lo <= q < p.value :: !Usable(q, used, probe)
    ensures p.None? ==> forall q | lo <= q < hi :: !Usable(q, used, probe)
  {
    if lo >= hi then None
    else if Usable(lo, used, probe) then Some(lo)
    else FirstFree(lo + 1, hi, used, probe)
  }

  predicate Usable(port: int, used: set<int>, probe: int -> bool) {
    port !in used && probe(port)
  }

  datatype Ports = Ports(used: set<int>, next: int) {
    /** From the next port upwards, and then once more from the bottom. */
    function Choice(probe: int -> bool): Option<int> {
      var up := FirstFree(next, MAX_PORT, used, probe);
      if up.Some? then up else FirstFree(MIN_PORT, next, used, probe)
    }

    function Allocated(probe: int -> bool): Ports {
      match Choice(probe)
      case None => this
      case Some(p) => Ports(used + {p}, if p >= next then p + 1 else next)
    }

    predicate InRange() {
      MIN_PORT <= next <= MAX_PORT
    }
  }

  /** Allocation fails exactly when no port of the range is usable; otherwise it
      answers a usable port of the range, marks only that, and keeps the cursor in range. */
  lemma AllocateExact(ps: Ports, probe: int -> bool)
    requires ps.InRange()
    ensures ps.Choice(probe).None? <==> forall p | 49152 <= p < 65535 :: !Usable(p, ps.used, probe)
    ensures ps.Choice(probe).Some? ==>
              var p := ps.Choice(probe).value;
              && 49152 <= p < 65535 && Usable(p, ps.used, probe)
              && ps.Allocated(probe).used == ps.used + {p}
    ensures ps.Choice(probe).None? ==> ps.Allocated(probe) == ps
    ensures ps.Allocated(probe).InRange()
  {
    if ps.Choice(probe).None? {
      forall p | MIN_PORT <= p < MAX_PORT
        ensures !Usable(p, ps.used, probe)
      {
        assert p < ps.next || ps.next <= p;
      }
    }
  }

  /** Which port it is: the lowest usable one from the cursor on, and then the cursor moves
      past it; if there is none, the lowest usable one before, and the cursor stays. */
  lemma AllocatesNext(ps: Ports, probe: int -> bool)
    requires ps.InRange() && ps.Choice(probe).Some?
    ensures var p, after := ps.Choice(probe).value, ps.Allocated(probe);
            && (p >= ps.next ==>
                  after.next == p + 1 && forall q | ps.next <= q < p :: !Usable(q, ps.used, probe))
            && (p < ps.next ==>
                  && after.next == ps.next
                  && (forall q | MIN_PORT <= q < p :: !Usable(q, ps.used, probe))
                  && (forall q | ps.next <= q < MAX_PORT :: !Usable(q, ps.used, probe)))
  {
  }

  datatype Stopping = Stopping(id: Id, sandbox: string, port: int)

  /** released and issued are history: the instances whose port was released at
      least once, and all instance IDs ever handed out. */
  datatype State = State(
    ports: Ports,
    instances: map<Id, Instance>,
    index: map<string, set<Id>>,
    starting: map<Call, int>,
    stopping: map<Call, Stopping>,
    watchers: map<Id, int>,
    released: set<Id>,
    issued: set<Id>)

  const Init: State := State(Ports({}, MIN_PORT), map[], map[], map[], map[], map[], {}, {})

  datatype Step =
    | Reserve(call: Call, port: int, probe: int -> bool)
    | Publish(call: Call, id: Id, sandbox: string)
    | Abort(call: Call)
    | BeginStop(call: Call, id: Id)
    | EndStop(call: Call)
    | Exit(id: Id)

  predicate Enabled(s: State, step: Step) {
    match step
    case Reserve(c, _, _) => c !in s.starting
    case Publish(c, id, _) => c in s.starting && id !in s.issued
    case Abort(c) => c in s.starting
    case BeginStop(c, _) => c !in s.stopping
    case EndStop(c) => c in s.stopping
    case Exit(id) => id in s.watchers
  }

  /** A configured port is taken if it is not in use; zero asks for one of the range. */
  function Requested(ps: Ports, port: int, probe: int -> bool): Option<int> {
    if port == 0 then ps.Choice(probe)
    else if port in ps.used then None
    else Some(port)
  }

  function AfterRequest(ps: Ports, port: int, probe: int -> bool): Ports {
    if port == 0 then ps.Allocated(probe)
    else ps.(used := ps.used + {port})
  }

  function IndexAdd(index: map<string, set<Id>>, sandbox: string, id: Id): map<string, set<Id>> {
    index[sandbox := (if sandbox in index then index[sandbox] else {}) + {id}]
  }

  function IndexRemove(index: map<string, set<Id>>, sandbox: string, id: Id): map<string, set<Id>> {
    if sandbox !in index then index
    else if index[sandbox] - {id} == {} then index - {sandbox}
    else index[sandbox := index[sandbox] - {id}]
  }

  function Free(ps: Ports, port: int): Ports {
    ps.(used := ps.used - {port})
  }

  function Next(s: State, step: Step): State
    requires Enabled(s, step)
  {
    match step
    case Reserve(c, port, probe) =>
      (match Requested(s.ports, port, probe)
       case None => s
       case Some(p) => s.(ports := AfterRequest(s.ports, port, probe), starting := s.starting[c := p]))
    case Publish(c, id, sandbox) =>
      var p := s.starting[c];
      s.(instances := s.instances[id := Instance(sandbox, p)],
         index := IndexAdd(s.index, sandbox, id),
         starting := s.starting - {c},
         watchers := s.watchers[id := p],
         issued := s.issued + {id})
    case Abort(c) => s.(ports := Free(s.ports, s.starting[c]), starting := s.starting - {c})
    case BeginStop(c, id) =>
      if id in s.instances
      then s.(stopping := s.stopping[c := Stopping(id, s.instances[id].sandbox, s.instances[id].port)])
      else s
    case EndStop(c) =>
      var x := s.stopping[c];
      s.(ports := Free(s.ports, x.port),
         instances := s.instances - {x.id},
         index := IndexRemove(s.index, x.sandbox, x.id),
         stopping := s.stopping - {c},
         released := s.released + {x.id})
    case Exit(id) =>
      s.(ports := Free(s.ports, s.watchers[id]), watchers := s.watchers - {id}, released := s.released + {id})
  }

  function Exec(steps: seq<Step>): Option<State> {
    if steps == [] then Some(Init)
    else
      var before, step := Exec(steps[..|steps| - 1]), steps[|steps| - 1];
      if before.Some? && Enabled(before.value, step) then Some(Next(before.value, step)) else None
  }

  // ---- the index ----

  /** What an instance ID stands for never changes. */
  ghost predicate Remembered(s: State) {
    && s.released <= s.issued
    && (forall id | id in s.instances :: id in s.issued)
    && (forall id | id in s.watchers :: id in s.issued)
    && (forall id | id in s.instances && id in s.watchers :: s.watchers[id] == s.instances[id].port)
    && (forall c | c in s.stopping :: s.stopping[c].id in s.issued)
    && (forall c | c in s.stopping && s.stopping[c].id in s.instances ::
          s.instances[s.stopping[c].id] == Instance(s.stopping[c].sandbox, s.stopping[c].port))
    && (forall c, id | c in s.stopping && id in s.watchers && s.stopping[c].id == id :: s.watchers[id] == s.stopping[c].port)
  }

  predicate Indexed(s: State, sandbox: string, id: Id) {
    sandbox in s.index && id in s.index[sandbox]
  }

  /** The sandbox index is the inverse of the instance table, without empty entries. */
  ghost predicate Inverse(s: State) {
    && (forall sandbox, id :: Indexed(s, sandbox, id) <==> id in s.instances && s.instances[id].sandbox == sandbox)
    && (forall sandbox | sandbox in s.index :: s.index[sandbox] != {})
  }

  lemma RememberedStep(s: State, step: Step)
    requires Remembered(s) && Enabled(s, step)
    ensures Remembered(Next(s, step))
  {
  }

  lemma AddedToIndex(index: map<string, set<Id>>, sandbox: string, id: Id)
    ensures var after := IndexAdd(index, sandbox, id);
            && (forall t, i :: (t in after && i in after[t]) <==> (t in index && i in index[t]) || (t == sandbox && i == id))
            && (forall t | t in after :: t == sandbox || (t in index && after[t] == index[t]))
            && id in after[sandbox]
  {
  }

  lemma RemovedFromIndex(index: map<string, set<Id>>, sandbox: string, id: Id)
    ensures var after := IndexRemove(index, sandbox, id);
            && (forall t, i :: (t in after && i in after[t]) <==> (t in index && i in index[t] && !(t == sandbox && i == id)))
            && (forall t | t in after :: t in index && (t != sandbox ==> after[t] == index[t]))
            && (sandbox in after && sandbox in index ==> after[sandbox] != {})
  {
    if sandbox in index && index[sandbox] - {id} == {} {
      assert forall i | i in index[sandbox] && i != id :: i in index[sandbox] - {id};
    }
  }

  lemma InverseStep(s: State, step: Step)
    requires Remembered(s) && Inverse(s) && Enabled(s, step)
    ensures Inverse(Next(s, step))
  {
    var s' := Next(s, step);
    if step.Publish? {
      assert step.id !in s.instances && step.id in s'.index[step.sandbox];
      forall sandbox, id
        ensures Indexed(s', sandbox, id) <==> id in s'.instances && s'.instances[id].sandbox == sandbox
      {
        assert Indexed(s, sandbox, id) <==> id in s.instances && s.instances[id].sandbox == sandbox;
      }
    } else if step.EndStop? {
      var x := s.stopping[step.call];
      RemovedFromIndex(s.index, x.sandbox, x.id);
      forall sandbox, id
        ensures Indexed(s', sandbox, id) <==> id in s'.instances && s'.instances[id].sandbox == sandbox
      {
        assert Indexed(s, sandbox, id) <==> id in s.instances && s.instances[id].sandbox == sandbox;
      }
    } else {
      assert forall sandbox, id :: Indexed(s', sandbox, id) <==> Indexed(s, sandbox, id);
    }
  }

  /** In every reachable state, however the calls interleave, the index is the inverse of the table. */
  lemma {:induction false} IndexIsInverse(steps: seq<Step>)
    requires Exec(steps).Some?
    ensures Remembered(Exec(steps).value) && Inverse(Exec(steps).value)
  {
    if steps != [] {
      IndexIsInverse(steps[..|steps| - 1]);
      RememberedStep(Exec(steps[..|steps| - 1]).value, steps[|steps| - 1]);
      InverseStep(Exec(steps[..|steps| - 1]).value, steps[|steps| - 1]);
    }
  }

  // ---- the ports ----

  /** Who holds a port: a start that has not published yet, or an instance whose port was not released. */
  datatype Holder = Starter(call: Call) | Live(id: Id)

  predicate Holds(s: State, h: Holder, port: int) {
    match h
    case Starter(c) => c in s.starting && s.starting[c] == port
    case Live(id) => id in s.instances && id !in s.released && s.instances[id].port == port
  }

  /** No two hold the same port, and every port held is marked as used. */
  ghost predicate Exclusive(s: State) {
    && (forall g, h, p | Holds(s, g, p) && Holds(s, h, p) :: g == h)
    && (forall h, p | Holds(s, h, p) :: p in s.ports.used)
  }

  /** The port a step releases on behalf of an instance, if it does. */
  function Releases(s: State, step: Step): Option<(Id, int)>
    requires Enabled(s, step)
  {
    match step
    case EndStop(c) => Some((s.stopping[c].id, s.stopping[c].port))
    case Exit(id) => Some((id, s.watchers[id]))
    case _ => None
  }

  lemma KeptWithoutRelease(s: State, step: Step)
    requires Exclusive(s) && Remembered(s) && Enabled(s, step) && Releases(s, step).None?
    ensures Exclusive(Next(s, step))
  {
    var s' := Next(s, step);
    match step
    case Reserve(c, port, probe) =>
      forall h, p | Holds(s', h, p)
        ensures Holds(s, h, p) || (h == Starter(c) && p !in s.ports.used && p in s'.ports.used)
      {
      }
    case Publish(c, id, sandbox) =>
      forall h, p | Holds(s', h, p)
        ensures h == Live(id) ==> Holds(s, Starter(c), p)
        ensures h != Live(id) ==> Holds(s, h, p) && h != Starter(c)
      {
      }
    case Abort(c) =>
      assert Holds(s, Starter(c), s.starting[c]);
      forall h, p | Holds(s', h, p)
        ensures Holds(s, h, p) && h != Starter(c)
      {
      }
    case BeginStop(_, _) =>
      assert forall h, p :: Holds(s', h, p) <==> Holds(s, h, p);
    case _ =>
  }

  lemma HoldersAfterRelease(s: State, step: Step, h: Holder, p: int)
    requires Remembered(s) && Enabled(s, step) && Releases(s, step).Some?
    ensures Holds(Next(s, step), h, p) <==> Holds(s, h, p) && h != Live(Releases(s, step).value.0)
  {
  }

  /** From exclusive ports, a step leads to exclusive ports exactly when the port it
      releases, if any, is held by nobody but the instance it belongs to. */
  lemma ExclusiveExact(s: State, step: Step)
    requires Remembered(s) && Exclusive(s) && Enabled(s, step)
    ensures Exclusive(Next(s, step)) <==>
              (Releases(s, step).Some? ==>
                 forall h | Holds(s, h, Releases(s, step).value.1) :: h == Live(Releases(s, step).value.0))
  {
    if Releases(s, step).None? {
      KeptWithoutRelease(s, step);
    } else {
      var s', x := Next(s, step), Releases(s, step).value;
      forall h, p {
        HoldersAfterRelease(s, step, h, p);
      }
      assert s'.ports.used == s.ports.used - {x.1};
      hide Next;
      hide Holds;
    }
  }

  /** Along the run, a port was only released for an instance that had not released it before. */
  ghost predicate ReleasedOnce(steps: seq<Step>) {
    steps == [] ||
    (ReleasedOnce(steps[..|steps| - 1])
     && (Exec(steps).Some? ==>
           var r := Releases(Exec(steps[..|steps| - 1]).value, steps[|steps| - 1]);
           r.Some? ==> r.value.0 !in Exec(steps[..|steps| - 1]).value.released))
  }

  /** An instance that has neither been stopped nor lost its port is still in the table. */
  ghost predicate Present(s: State) {
    && (forall id | id in s.watchers && id !in s.released :: id in s.instances)
    && (forall c | c in s.stopping && s.stopping[c].id !in s.released :: s.stopping[c].id in s.instances)
    && s.released <= s.issued
  }

  lemma PresentStep(s: State, step: Step)
    requires Remembered(s) && Present(s) && Enabled(s, step)
    ensures Present(Next(s, step))
  {
  }

  /** If no port is released twice for the same instance, no two instances or starts
      ever hold the same port. */
  lemma {:induction false} PortsExclusive(steps: seq<Step>)
    requires Exec(steps).Some? && ReleasedOnce(steps)
    ensures Exclusive(Exec(steps).value) && Present(Exec(steps).value)
  {
    if steps != [] {
      var before, step := steps[..|steps| - 1], steps[|steps| - 1];
      var s := Exec(before).value;
      PortsExclusive(before);
      IndexIsInverse(before);
      PresentStep(s, step);
      ExclusiveExact(s, step);
      if Releases(s, step).Some? {
        var x := Releases(s, step).value;
        assert Holds(s, Live(x.0), x.1);
      }
    }
  }

  /** One instance publishes on a port and its watcher releases it. */
  function FirstInstance(p: int, a: Id, sandbox: string, probe: int -> bool): seq<Step> {
    [Reserve(0, p, probe)] + [Publish(0, a, sandbox)] + [Exit(a)]
  }

  /** A second instance takes the port; then the first is stopped as well. */
  function SecondInstance(p: int, a: Id, b: Id, sandbox: string, probe: int -> bool): seq<Step> {
    FirstInstance(p, a, sandbox, probe)
    + [Reserve(0, p, probe)] + [Publish(0, b, sandbox)] + [BeginStop(0, a)] + [EndStop(0)]
  }

  lemma FirstReleased(p: int, a: Id, sandbox: string, probe: int -> bool)
    requires p != 0
    ensures var s := Exec(FirstInstance(p, a, sandbox, probe));
            && s.Some? && s.value.ports.used == {} && s.value.starting == map[] && s.value.stopping == map[]
            && s.value.instances == map[a := Instance(sandbox, p)] && s.value.issued == {a} && s.value.released == {a}
  {
    var s1 := Append([], Reserve(0, p, probe));
    var s2 := Append([] + [Reserve(0, p, probe)], Publish(0, a, sandbox));
    var s3 := Append([Reserve(0, p, probe)] + [Publish(0, a, sandbox)], Exit(a));
    assert [] + [Reserve(0, p, probe)] == [Reserve(0, p, probe)];
  }

  lemma SecondLosesPort(p: int, a: Id, b: Id, sandbox: string, probe: int -> bool)
    requires p != 0 && a != b
    ensures var s := Exec(SecondInstance(p, a, b, sandbox, probe));
            s.Some? && p !in s.value.ports.used && 0 !in s.value.starting && Holds(s.value, Live(b), p)
  {
    FirstReleased(p, a, sandbox, probe);
    var run := FirstInstance(p, a, sandbox, probe);
    var s4 := Append(run, Reserve(0, p, probe));
    var s5 := Append(run + [Reserve(0, p, probe)], Publish(0, b, sandbox));
    assert a in s5.instances && s5.instances[a].port == p;
    var s6 := Append(run + [Reserve(0, p, probe)] + [Publish(0, b, sandbox)], BeginStop(0, a));
    var s7 := Append(run + [Reserve(0, p, probe)] + [Publish(0, b, sandbox)] + [BeginStop(0, a)], EndStop(0));
  }

  /** Every port marked as used is held: what is no longer held was given back. */
  ghost predicate NothingLost(s: State) {
    forall p | p in s.ports.used :: exists h :: Holds(s, h, p)
  }

  lemma HolderStays(s: State, step: Step, p: int, h: Holder)
    requires Remembered(s) && Enabled(s, step) && Holds(s, h, p) && p in Next(s, step).ports.used
    ensures exists h' :: Holds(Next(s, step), h', p)
  {
    var s' := Next(s, step);
    match step
    case Publish(c, id, _) =>
      if h == Starter(c) {
        PublishedHolds(s, step, p);
      } else {
        assert Holds(s', h, p);
      }
    case _ =>
      assert Holds(s', h, p);
  }

  lemma PublishedHolds(s: State, step: Step, p: int)
    requires Enabled(s, step) && step.Publish? && s.starting[step.call] == p && s.released <= s.issued
    ensures Holds(Next(s, step), Live(step.id), p)
  {
  }

  lemma NothingLostStep(s: State, step: Step)
    requires Remembered(s) && NothingLost(s) && Enabled(s, step)
    ensures NothingLost(Next(s, step))
  {
    var s' := Next(s, step);
    forall p | p in s'.ports.used
      ensures exists h :: Holds(s', h, p)
    {
      if p in s.ports.used {
        var h :| Holds(s, h, p);
        HolderStays(s, step, p, h);
      } else {
        assert Holds(s', Starter(step.call), p);
      }
    }
  }

  /** In every run a used port belongs to a start under way or to an instance that has not
      released it; if no port is released twice for an instance, the used ports are exactly these. */
  lemma {:induction false} UsedPortsAreHeld(steps: seq<Step>)
    requires Exec(steps).Some?
    ensures NothingLost(Exec(steps).value)
    ensures ReleasedOnce(steps) ==>
              forall p :: p in Exec(steps).value.ports.used <==> exists h :: Holds(Exec(steps).value, h, p)
  {
    if steps != [] {
      var before := steps[..|steps| - 1];
      UsedPortsAreHeld(before);
      IndexIsInverse(before);
      NothingLostStep(Exec(before).value, steps[|steps| - 1]);
    }
    if ReleasedOnce(steps) {
      PortsExclusive(steps);
    }
  }

  /** The instances published, and those a stop has cleaned up, by the steps. */
  function Published(steps: seq<Step>): set<Id> {
    if steps == [] then {}
    else
      var step := steps[|steps| - 1];
      Published(steps[..|steps| - 1]) + if step.Publish? then {step.id} else {}
  }

  function Ended(steps: seq<Step>): set<Id>
    requires Exec(steps).Some?
  {
    if steps == [] then {}
    else
      var s, step := Exec(steps[..|steps| - 1]).value, steps[|steps| - 1];
      Ended(steps[..|steps| - 1]) + if step.EndStop? then {s.stopping[step.call].id} else {}
  }

  lemma KeysAfter(s: State, step: Step)
    requires Remembered(s) && Enabled(s, step)
    ensures step.EndStop? ==> s.stopping[step.call].id in s.issued
    ensures Next(s, step).instances.Keys ==
            s.instances.Keys + (if step.Publish? then {step.id} else {}) - (if step.EndStop? then {s.stopping[step.call].id} else {})
    ensures Next(s, step).issued == s.issued + if step.Publish? then {step.id} else {}
    ensures step.Publish? ==> step.id !in s.issued
  {
  }

  /** In every run the table holds exactly the instances published and not cleaned up. */
  lemma {:induction false} TableIsHistory(steps: seq<Step>)
    requires Exec(steps).Some?
    ensures var s := Exec(steps).value;
            && Ended(steps) <= Published(steps)
            && s.instances.Keys == Published(steps) - Ended(steps)
            && s.issued == Published(steps)
  {
    hide Next, Remembered;
    if steps != [] {
      var before, step := steps[..|steps| - 1], steps[|steps| - 1];
      TableIsHistory(before);
      IndexIsInverse(before);
      KeysAfter(Exec(before).value, step);
    }
  }

  /** The watcher and a later Stop release the same port twice: after the first release
      a second instance takes it, after the second a further start takes it as well. */
  lemma SharedPort(p: int, a: Id, b: Id, sandbox: string, probe: int -> bool)
    requires p != 0 && a != b
    ensures var s := Exec(SecondInstance(p, a, b, sandbox, probe) + [Reserve(0, p, probe)]);
            s.Some? && Holds(s.value, Live(b), p) && Holds(s.value, Starter(0), p)
  {
    SecondLosesPort(p, a, b, sandbox, probe);
    var s8 := Append(SecondInstance(p, a, b, sandbox, probe), Reserve(0, p, probe));
  }

  /** One more step of a run. */
  lemma Append(before: seq<Step>, step: Step) returns (s: State)
    requires Exec(before).Some? && Enabled(Exec(before).value, step)
    ensures Exec(before + [step]) == Some(s) && s == Next(Exec(before).value, step)
  {
    s := Next(Exec(before).value, step);
    assert (before + [step])[..|before|] == before;
  }

  // ---- the manager's locked sections ----

  class DevToolManager {
    var used: set<int>
    var next: int
    var instances: map<Id, Instance>
    var index: map<string, set<Id>>

    ghost function Model(): Ports
      reads this
    {
      Ports(used, next)
    }

    ghost predicate Valid()
      reads this
    {
      && Model().InRange()
      && (forall sandbox, id :: (sandbox in index && id in index[sandbox]) <==> id in instances && instances[id].sandbox == sandbox)
      && (forall sandbox | sandbox in index :: index[sandbox] != {})
    }

    constructor ()
      ensures Valid() && Model() == Init.ports && instances == map[] && index == map[]
    {
      used, next, instances, index := {}, MIN_PORT, map[], map[];
    }

    method AllocatePort(probe: int -> bool) returns (port: Option<int>)
      requires Model().InRange()
      modifies `used, `next
      ensures port == old(Model()).Choice(probe) && Model() == old(Model()).Allocated(probe)
    {
      var p := next;
      while p < MAX_PORT
        invariant next <= p <= MAX_PORT && Model() == old(Model())
        invariant FirstFree(next, MAX_PORT, used, probe) == FirstFree(p, MAX_PORT, used, probe)
      {
        if p !in used {
          if probe(p) {
            used := used + {p};
            next := p + 1;
            return Some(p);
          }
        }
        p := p + 1;
      }
      p := MIN_PORT;
      while p < next
        invariant MIN_PORT <= p <= next && Model() == old(Model())
        invariant FirstFree(MIN_PORT, next, used, probe) == FirstFree(p, next, used, probe)
      {
        if p !in used {
          if probe(p) {
            used := used + {p};
            return Some(p);
          }
        }
        p := p + 1;
      }
      port := None;
    }

    /** The first section of Start. */
    method ReservePort(port: int, probe: int -> bool) returns (got: Option<int>)
      requires Model().InRange()
      modifies `used, `next
      ensures got == Requested(old(Model()), port, probe)
      ensures Model() == if got.Some? then AfterRequest(old(Model()), port, probe) else old(Model())
    {
      if port == 0 {
        got := AllocatePort(probe);
      } else {
        if port in used {
          return None;
        }
        used := used + {port};
        got := Some(port);
      }
    }

    /** The last section of Start. */
    method PublishInstance(id: Id, sandbox: string, port: int)
      requires Valid() && id !in instances
      modifies `instances, `index
      ensures Valid() && instances == old(instances)[id := Instance(sandbox, port)]
      ensures index == IndexAdd(old(index), sandbox, id)
    {
      AddedToIndex(index, sandbox, id);
      instances := instances[id := Instance(sandbox, port)];
      if sandbox !in index {
        index := index[sandbox := {}];
      }
      index := index[sandbox := index[sandbox] + {id}];
      assert index == IndexAdd(old(index), sandbox, id);
    }

    /** The first section of Stop: what is stopped is remembered while the lock is not held. */
    method BeginStop(id: Id) returns (found: Option<Stopping>)
      ensures found == if id in instances then Some(Stopping(id, instances[id].sandbox, instances[id].port)) else None
    {
      if id !in instances {
        return None;
      }
      found := Some(Stopping(id, instances[id].sandbox, instances[id].port));
    }

    /** The last section of Stop, whether or not the instance is still there. */
    method EndStop(x: Stopping)
      requires Valid() && (x.id in instances ==> instances[x.id] == Instance(x.sandbox, x.port))
      modifies `used, `instances, `index
      ensures Valid()
      ensures Model() == Free(old(Model()), x.port)
      ensures instances == old(instances) - {x.id}
      ensures index == IndexRemove(old(index), x.sandbox, x.id)
    {
      hide IndexRemove;
      RemovedFromIndex(index, x.sandbox, x.id);
      used := used - {x.port};
      instances := instances - {x.id};
      DropFromIndex(x.sandbox, x.id);
      forall t, i
        ensures (t in index && i in index[t]) <==> i in instances && instances[i].sandbox == t
      {
        assert (t in old(index) && i in old(index)[t]) <==> i in old(instances) && old(instances)[i].sandbox == t;
      }
      forall t | t in index
        ensures index[t] != {}
      {
        assert t in old(index);
      }
    }

    method DropFromIndex(sandbox: string, id: Id)
      modifies `index
      ensures index == IndexRemove(old(index), sandbox, id)
    {
      if sandbox in index {
        var left := index[sandbox] - {id};
        index := index[sandbox := left];
        if left == {} {
          index := index - {sandbox};
        }
      }
    }

    /** Both sections, with nothing in between. */
    method Stop(id: Id) returns (ok: bool)
      requires Valid()
      modifies `used, `instances, `index
      ensures Valid() && ok == (id in old(instances))
      ensures !ok ==> used == old(used) && instances == old(instances) && index == old(index)
      ensures ok ==> && Model() == Free(old(Model()), old(instances)[id].port)
                     && instances == old(instances) - {id}
                     && index == IndexRemove(old(index), old(instances)[id].sandbox, id)
    {
      var found := BeginStop(id);
      if found.None? {
        return false;
      }
      EndStop(found.value);
      ok := true;
    }

    /** What StopAll does first. */
    method InstancesOf(sandbox: string) returns (ids: set<Id>)
      requires Valid()
      ensures forall id :: id in ids <==> id in instances && instances[id].sandbox == sandbox
    {
      ids := if sandbox in index then index[sandbox] else {};
    }

    predicate PortOf(id: Id, port: int)
      reads this
    {
      id in instances && instances[id].port == port
    }

    /** The loop of StopAll, for instances read earlier: those still there go, with their ports
        and nobody else's, and it fails exactly when one of them was already gone. */
    method StopEach(ids: set<Id>) returns (ok: bool)
      requires Valid()
      modifies `used, `instances, `index
      ensures Valid() && (ok <==> forall id | id in ids :: id in old(instances))
      ensures instances == old(instances) - ids
      ensures forall p :: p in used <==> p in old(used) && forall id | id in ids :: !old(PortOf(id, p))
      ensures next == old(next)
    {
      ok := true;
      var todo := ids;
      while todo != {}
        invariant Valid() && todo <= ids && next == old(next)
        invariant instances == old(instances) - (ids - todo)
        invariant ok <==> forall id | id in ids - todo :: id in old(instances)
        invariant forall p :: p in used <==> p in old(used) && forall id | id in ids - todo :: !old(PortOf(id, p))
        decreases |todo|
      {
        var id :| id in todo;
        ghost var done := ids - todo;
        todo := todo - {id};
        assert ids - todo == done + {id} && id !in done;
        var stopped := Stop(id);
        if !stopped {
          ok := false;
        }
      }
      assert ids - {} == ids;
    }

    /** Exactly the sandbox's instances go, with their ports, and nobody else's. */
    method StopAll(sandbox: string) returns (ok: bool)
      requires Valid()
      modifies `used, `instances, `index
      ensures Valid() && ok
      ensures instances == map id | id in old(instances) && old(instances)[id].sandbox != sandbox :: old(instances)[id]
      ensures forall p :: p in used <==>
                p in old(used) && forall id | id in old(instances) && old(instances)[id].sandbox == sandbox :: old(instances)[id].port != p
      ensures sandbox !in index
    {
      var ids := InstancesOf(sandbox);
      if |ids| == 0 {
        return true;
      }
      ok := StopEach(ids);
      if sandbox in index {
        var id :| id in index[sandbox];
        assert id in instances && instances[id].sandbox == sandbox;
      }
    }
  }
}
