/** Resource accounting of the tenant manager: usage counters that are raised when a
    sandbox is placed, lowered (and clamped at zero) when it goes, and checked against
    limits before a sandbox is created. Parsing quantities, the rate limiter and the
    quota manager are parameters. */
module TenantUsage {
  import opened Wrappers

  datatype Resources = Resources(cpu: string, memory: string, gpu: string)

  /** A quantity in thousandths or in whole units; None when the text does not parse. */
  datatype Parser = Parser(milli: string -> Option<int>, whole: string -> Option<int>)

  datatype Spec = Spec(maxPerDay: int, maxConcurrent: int, phaseActive: bool)

  datatype Info = Info(
    cpu: int, memory: int, gpu: int, active: int, total: int, daily: int,
    perNode: map<string, int>, spec: Spec)

  type Tenants = map<string, Info>

  function Cpu(p: Parser, r: Resources): Option<int> {
    p.milli(r.cpu)
  }

  function Memory(p: Parser, r: Resources): Option<int> {
    p.whole(r.memory)
  }

  function Gpu(p: Parser, r: Resources): Option<int> {
    if r.gpu == "" then None else p.whole(r.gpu)
  }

  function Value(amount: Option<int>): int {
    if amount.Some? then amount.value else 0
  }

  /** What is left of a counter; an amount that does not parse changes nothing. */
  function Lowered(used: int, amount: Option<int>): int {
    if amount.None? then used
    else if used - amount.value < 0 then 0
    else used - amount.value
  }

  function NodeCount(perNode: map<string, int>, node: string): int {
    if node in perNode then perNode[node] else 0
  }

  function Allocated(p: Parser, i: Info, node: string, r: Resources): Info {
    i.(cpu := i.cpu + Value(Cpu(p, r)), memory := i.memory + Value(Memory(p, r)), gpu := i.gpu + Value(Gpu(p, r)),
       active := i.active + 1, total := i.total + 1, daily := i.daily + 1,
       perNode := i.perNode[node := NodeCount(i.perNode, node) + 1])
  }

  function Released(p: Parser, i: Info, node: string, r: Resources): Info {
    i.(cpu := Lowered(i.cpu, Cpu(p, r)), memory := Lowered(i.memory, Memory(p, r)), gpu := Lowered(i.gpu, Gpu(p, r)),
       active := if i.active - 1 < 0 then 0 else i.active - 1,
       perNode := if NodeCount(i.perNode, node) > 0 then i.perNode[node := NodeCount(i.perNode, node) - 1] else i.perNode)
  }

  function Fresh(spec: Spec): Info {
    Info(0, 0, 0, 0, 0, 0, map[], spec)
  }

  function Registered(tenants: Tenants, name: string, spec: Spec): Tenants {
    tenants[name := if name in tenants then tenants[name].(spec := spec) else Fresh(spec)]
  }

  datatype Verdict = Allowed | NotFound | NotActive | RateLimited | DailyLimit | ConcurrentLimit | QuotaExceeded

  function Check(tenants: Tenants, name: string, rate: bool, quota: bool): Verdict {
    if name !in tenants then NotFound
    else
      var i := tenants[name];
      if !i.spec.phaseActive then NotActive
      else if !rate then RateLimited
      else if i.spec.maxPerDay > 0 && i.daily >= i.spec.maxPerDay then DailyLimit
      else if i.spec.maxConcurrent > 0 && i.active >= i.spec.maxConcurrent then ConcurrentLimit
      else if !quota then QuotaExceeded
      else Allowed
  }

  // ---- runs ----

  datatype Grant = Grant(node: string, resources: Resources)

  /** live and peak are history: for each registered tenant, the allocations not released
      yet, and the highest concurrency limit it was registered with. */
  datatype State = State(tenants: Tenants, live: map<string, seq<Grant>>, peak: map<string, int>)

  const Init: State := State(map[], map[], map[])

  /** Admit is a check directly followed by the allocation. */
  datatype Step =
    | Register(name: string, spec: Spec, valid: bool)
    | Unregister(name: string)
    | Allocate(name: string, grant: Grant)
    | Admit(name: string, grant: Grant, rate: bool, quota: bool)
    | Release(name: string, grant: Grant)
    | NewDay(name: string)

  /** The first allocation of that kind, or the length of the list. */
  function IndexOf(live: seq<Grant>, g: Grant): (i: nat)
    ensures i <= |live|
    ensures i < |live| <==> g in live
    ensures i < |live| ==> live[i] == g
  {
    if live == [] then 0 else if live[0] == g then 0 else 1 + IndexOf(live[1..], g)
  }

  function Without(live: seq<Grant>, g: Grant): seq<Grant> {
    var i := IndexOf(live, g);
    if i < |live| then live[..i] + live[i + 1..] else live
  }

  function LiveOf(s: State, name: string): seq<Grant> {
    if name in s.live then s.live[name] else []
  }

  function PeakOf(s: State, name: string): int {
    if name in s.peak then s.peak[name] else 0
  }

  function Place(p: Parser, s: State, name: string, g: Grant): State {
    if name !in s.tenants then s
    else s.(tenants := s.tenants[name := Allocated(p, s.tenants[name], g.node, g.resources)],
            live := s.live[name := LiveOf(s, name) + [g]])
  }

  function Next(p: Parser, s: State, step: Step): State {
    match step
    case Register(name, spec, valid) =>
      if !valid || spec.maxConcurrent <= 0 then s
      else State(Registered(s.tenants, name, spec),
                 s.live[name := if name in s.tenants then LiveOf(s, name) else []],
                 s.peak[name := if name in s.tenants && PeakOf(s, name) > spec.maxConcurrent then PeakOf(s, name) else spec.maxConcurrent])
    case Unregister(name) =>
      if name !in s.tenants || s.tenants[name].active > 0 then s
      else State(s.tenants - {name}, s.live - {name}, s.peak - {name})
    case Allocate(name, g) => Place(p, s, name, g)
    case Admit(name, g, rate, quota) => if Check(s.tenants, name, rate, quota).Allowed? then Place(p, s, name, g) else s
    case Release(name, g) =>
      if name !in s.tenants then s
      else s.(tenants := s.tenants[name := Released(p, s.tenants[name], g.node, g.resources)],
              live := s.live[name := Without(LiveOf(s, name), g)])
    case NewDay(name) =>
      if name !in s.tenants then s else s.(tenants := s.tenants[name := s.tenants[name].(daily := 0)])
  }

  function Run(p: Parser, steps: seq<Step>): State {
    if steps == [] then Init else Next(p, Run(p, steps[..|steps| - 1]), steps[|steps| - 1])
  }

  // ---- what is measured ----

  /** The counters of a tenant: three resources, the sandboxes, the sandboxes of a node. */
  datatype Measure = OfCpu | OfMemory | OfGpu | OfSandboxes | OfNode(node: string)

  function Recorded(i: Info, m: Measure): int {
    match m
    case OfCpu => i.cpu
    case OfMemory => i.memory
    case OfGpu => i.gpu
    case OfSandboxes => i.active
    case OfNode(n) => NodeCount(i.perNode, n)
  }

  /** What one allocation contributes to a counter, None if it leaves it alone. */
  function Share(p: Parser, m: Measure, g: Grant): Option<int> {
    match m
    case OfCpu => Cpu(p, g.resources)
    case OfMemory => Memory(p, g.resources)
    case OfGpu => Gpu(p, g.resources)
    case OfSandboxes => Some(1)
    case OfNode(n) => if g.node == n then Some(1) else None
  }

  function Sum(p: Parser, live: seq<Grant>, m: Measure): int {
    if live == [] then 0
    else Sum(p, live[..|live| - 1], m) + Value(Share(p, m, live[|live| - 1]))
  }

  ghost predicate Nonnegative(p: Parser, g: Grant) {
    forall m :: Value(Share(p, m, g)) >= 0
  }

  lemma {:induction false} SumConcat(p: Parser, a: seq<Grant>, b: seq<Grant>, m: Measure)
    ensures Sum(p, a + b, m) == Sum(p, a, m) + Sum(p, b, m)
  {
    if b == [] {
      assert a + b == a;
    } else {
      SumConcat(p, a, b[..|b| - 1], m);
      assert (a + b)[..|a + b| - 1] == a + b[..|b| - 1];
    }
  }

  lemma SumWithout(p: Parser, live: seq<Grant>, g: Grant, m: Measure)
    requires g in live
    ensures Sum(p, Without(live, g), m) == Sum(p, live, m) - Value(Share(p, m, g))
  {
    var i := IndexOf(live, g);
    assert live == live[..i] + ([g] + live[i + 1..]);
    SumConcat(p, live[..i], [g] + live[i + 1..], m);
    SumConcat(p, [g], live[i + 1..], m);
    SumConcat(p, live[..i], live[i + 1..], m);
    assert Sum(p, [g], m) == Value(Share(p, m, g));
  }

  lemma {:induction false} SumNonnegative(p: Parser, live: seq<Grant>, m: Measure)
    requires forall g | g in live :: Nonnegative(p, g)
    ensures Sum(p, live, m) >= 0
  {
    if live != [] {
      SumNonnegative(p, live[..|live| - 1], m);
      assert Nonnegative(p, live[|live| - 1]);
    }
  }

  lemma {:induction false} SandboxesAreLive(p: Parser, live: seq<Grant>)
    ensures Sum(p, live, OfSandboxes) == |live|
  {
    if live != [] {
      SandboxesAreLive(p, live[..|live| - 1]);
    }
  }

  // ---- conservation ----

  /** Every counter is the sum over the live allocations. */
  ghost predicate Conserved(p: Parser, i: Info, live: seq<Grant>) {
    forall m :: Recorded(i, m) == Sum(p, live, m)
  }

  lemma RaisedBy(p: Parser, i: Info, g: Grant, m: Measure)
    ensures Recorded(Allocated(p, i, g.node, g.resources), m) == Recorded(i, m) + Value(Share(p, m, g))
  {
  }

  lemma LoweredBy(p: Parser, i: Info, g: Grant, m: Measure)
    requires i.active >= 0 && NodeCount(i.perNode, g.node) >= 0
    ensures Recorded(Released(p, i, g.node, g.resources), m) == Lowered(Recorded(i, m), Share(p, m, g))
  {
  }

  lemma AllocateConserves(p: Parser, i: Info, live: seq<Grant>, g: Grant)
    requires Conserved(p, i, live)
    ensures Conserved(p, Allocated(p, i, g.node, g.resources), live + [g])
  {
    forall m
      ensures Recorded(Allocated(p, i, g.node, g.resources), m) == Sum(p, live + [g], m)
    {
      RaisedBy(p, i, g, m);
      SumConcat(p, live, [g], m);
      assert Recorded(i, m) == Sum(p, live, m);
      assert Sum(p, [g], m) == Value(Share(p, m, g));
    }
  }

  /** Releasing a live allocation keeps every counter a sum exactly when no clamp cuts in:
      what stays live adds up to something negative in no counter that the release touches. */
  lemma ReleaseConservesExact(p: Parser, i: Info, live: seq<Grant>, g: Grant)
    requires Conserved(p, i, live) && g in live && i.active >= 0 && NodeCount(i.perNode, g.node) >= 0
    ensures Conserved(p, Released(p, i, g.node, g.resources), Without(live, g)) <==>
              forall m :: Share(p, m, g).Some? ==> Sum(p, Without(live, g), m) >= 0
  {
    var after, left := Released(p, i, g.node, g.resources), Without(live, g);
    forall m
      ensures Recorded(after, m) == Sum(p, left, m) <==> (Share(p, m, g).Some? ==> Sum(p, left, m) >= 0)
    {
      LoweredBy(p, i, g, m);
      SumWithout(p, live, g, m);
      assert Recorded(i, m) == Sum(p, live, m);
    }
  }

  /** A release concerns a live allocation, and no allocation has a negative amount. */
  ghost predicate Disciplined(p: Parser, s: State, step: Step) {
    match step
    case Allocate(_, g) => Nonnegative(p, g)
    case Admit(_, g, _, _) => Nonnegative(p, g)
    case Release(name, g) => name in s.tenants ==> g in LiveOf(s, name)
    case _ => true
  }

  ghost predicate DisciplinedRun(p: Parser, steps: seq<Step>) {
    steps == [] ||
    (DisciplinedRun(p, steps[..|steps| - 1]) && Disciplined(p, Run(p, steps[..|steps| - 1]), steps[|steps| - 1]))
  }

  ghost predicate Balanced(p: Parser, s: State, name: string) {
    && (name in s.tenants ==> Conserved(p, s.tenants[name], LiveOf(s, name)))
    && forall g | g in LiveOf(s, name) :: Nonnegative(p, g)
  }

  lemma PlaceBalanced(p: Parser, s: State, name: string, g: Grant, who: string)
    requires Balanced(p, s, who) && Nonnegative(p, g)
    ensures Balanced(p, Place(p, s, name, g), who)
  {
    if name in s.tenants && who == name {
      AllocateConserves(p, s.tenants[name], LiveOf(s, name), g);
    }
  }

  lemma ReleaseBalanced(p: Parser, s: State, name: string, g: Grant)
    requires Balanced(p, s, name) && name in s.tenants && g in LiveOf(s, name)
    ensures Balanced(p, Next(p, s, Release(name, g)), name)
  {
    var i, live := s.tenants[name], LiveOf(s, name);
    var left := Without(live, g);
    assert forall h | h in left :: h in live;
    assert Recorded(i, OfSandboxes) == Sum(p, live, OfSandboxes) && Recorded(i, OfNode(g.node)) == Sum(p, live, OfNode(g.node));
    SumNonnegative(p, live, OfSandboxes);
    SumNonnegative(p, live, OfNode(g.node));
    forall m
      ensures Sum(p, left, m) >= 0
    {
      SumNonnegative(p, left, m);
    }
    ReleaseConservesExact(p, i, live, g);
  }

  lemma NextBalanced(p: Parser, s: State, step: Step, who: string)
    requires Balanced(p, s, who) && Disciplined(p, s, step)
    ensures Balanced(p, Next(p, s, step), who)
  {
    match step
    case Register(name, spec, valid) =>
      if name == who && valid && spec.maxConcurrent > 0 {
        if name !in s.tenants {
          assert Conserved(p, Fresh(spec), []);
        } else {
          assert forall m :: Recorded(s.tenants[name].(spec := spec), m) == Recorded(s.tenants[name], m);
        }
      }
    case Unregister(_) =>
    case Allocate(name, g) => PlaceBalanced(p, s, name, g, who);
    case Admit(name, g, rate, quota) => PlaceBalanced(p, s, name, g, who);
    case Release(name, g) =>
      if name == who && name in s.tenants {
        ReleaseBalanced(p, s, name, g);
      }
    case NewDay(name) =>
      if name == who && name in s.tenants {
        assert forall m :: Recorded(s.tenants[name].(daily := 0), m) == Recorded(s.tenants[name], m);
      }
  }

  /** In every run that only releases what is live and allocates no negative amount, all
      counters of every tenant are the sums over its live allocations. */
  lemma {:induction false} UsageConserved(p: Parser, steps: seq<Step>, name: string)
    requires DisciplinedRun(p, steps)
    ensures Balanced(p, Run(p, steps), name)
  {
    if steps != [] {
      UsageConserved(p, steps[..|steps| - 1], name);
      NextBalanced(p, Run(p, steps[..|steps| - 1]), steps[|steps| - 1], name);
    }
  }

  /** In such a run a tenant can be unregistered exactly when nothing of it is live. */
  lemma UnregisterExact(p: Parser, steps: seq<Step>, name: string)
    requires DisciplinedRun(p, steps) && name in Run(p, steps).tenants
    ensures var s := Run(p, steps);
            name !in Next(p, s, Unregister(name)).tenants <==> LiveOf(s, name) == []
  {
    var s := Run(p, steps);
    UsageConserved(p, steps, name);
    SandboxesAreLive(p, LiveOf(s, name));
    assert Recorded(s.tenants[name], OfSandboxes) == Sum(p, LiveOf(s, name), OfSandboxes);
  }

  /** The amounts of a list added up; what does not parse adds nothing. */
  function Total(live: seq<Grant>, amount: Grant -> Option<int>): int {
    if live == [] then 0 else Total(live[..|live| - 1], amount) + Value(amount(live[|live| - 1]))
  }

  function Millicores(p: Parser): Grant -> Option<int> {
    (g: Grant) => p.milli(g.resources.cpu)
  }

  function Bytes(p: Parser): Grant -> Option<int> {
    (g: Grant) => p.whole(g.resources.memory)
  }

  function Devices(p: Parser): Grant -> Option<int> {
    (g: Grant) => if g.resources.gpu == "" then None else p.whole(g.resources.gpu)
  }

  lemma {:induction false} TotalIsSum(p: Parser, live: seq<Grant>, amount: Grant -> Option<int>, m: Measure)
    requires forall g :: amount(g) == Share(p, m, g)
    ensures Total(live, amount) == Sum(p, live, m)
  {
    if live != [] {
      TotalIsSum(p, live[..|live| - 1], amount, m);
    }
  }

  /** In such a run CPU usage is in thousandths, memory and GPU usage in whole units, each the
      total over the live allocations, where an allocation without a GPU entry has none. */
  lemma UsageInUnits(p: Parser, steps: seq<Step>, name: string)
    requires DisciplinedRun(p, steps) && name in Run(p, steps).tenants
    ensures var i, live := Run(p, steps).tenants[name], LiveOf(Run(p, steps), name);
            i.cpu == Total(live, Millicores(p)) && i.memory == Total(live, Bytes(p)) && i.gpu == Total(live, Devices(p))
  {
    var i, live := Run(p, steps).tenants[name], LiveOf(Run(p, steps), name);
    UsageConserved(p, steps, name);
    TotalIsSum(p, live, Millicores(p), OfCpu);
    TotalIsSum(p, live, Bytes(p), OfMemory);
    TotalIsSum(p, live, Devices(p), OfGpu);
    assert Recorded(i, OfCpu) == Sum(p, live, OfCpu) && Recorded(i, OfMemory) == Sum(p, live, OfMemory) && Recorded(i, OfGpu) == Sum(p, live, OfGpu);
  }

  // ---- counts per node ----

  ghost function Pick(nodes: set<string>): (n: string)
    requires nodes != {}
    ensures n in nodes
  {
    var n :| n in nodes;
    n
  }

  ghost function SumOver(nodes: set<string>, perNode: map<string, int>): int {
    if nodes == {} then 0 else NodeCount(perNode, Pick(nodes)) + SumOver(nodes - {Pick(nodes)}, perNode)
  }

  lemma {:induction false} SumOverRaised(nodes: set<string>, perNode: map<string, int>, perNode': map<string, int>, node: string)
    requires forall n | n in nodes :: NodeCount(perNode', n) == NodeCount(perNode, n) + (if n == node then 1 else 0)
    ensures SumOver(nodes, perNode') == SumOver(nodes, perNode) + (if node in nodes then 1 else 0)
  {
    if nodes != {} {
      SumOverRaised(nodes - {Pick(nodes)}, perNode, perNode', node);
    }
  }

  lemma {:induction false} SumOverZero(nodes: set<string>, perNode: map<string, int>)
    requires forall n | n in nodes :: NodeCount(perNode, n) == 0
    ensures SumOver(nodes, perNode) == 0
  {
    if nodes != {} {
      SumOverZero(nodes - {Pick(nodes)}, perNode);
    }
  }

  lemma {:induction false} NodesSum(p: Parser, nodes: set<string>, perNode: map<string, int>, live: seq<Grant>)
    requires forall n | n in nodes :: NodeCount(perNode, n) == Sum(p, live, OfNode(n))
    requires forall g | g in live :: g.node in nodes
    ensures SumOver(nodes, perNode) == |live|
    decreases |live|
  {
    if live == [] {
      SumOverZero(nodes, perNode);
    } else {
      var rest, g := live[..|live| - 1], live[|live| - 1];
      var fewer := perNode[g.node := NodeCount(perNode, g.node) - 1];
      NodesSum(p, nodes, fewer, rest);
      SumOverRaised(nodes, fewer, perNode, g.node);
    }
  }

  lemma {:induction false} LiveOnNode(p: Parser, live: seq<Grant>, g: Grant)
    requires g in live
    ensures Sum(p, live, OfNode(g.node)) > 0
  {
    SumWithout(p, live, g, OfNode(g.node));
    CountNonnegative(p, Without(live, g), g.node);
  }

  lemma {:induction false} CountNonnegative(p: Parser, live: seq<Grant>, node: string)
    ensures Sum(p, live, OfNode(node)) >= 0
  {
    if live != [] {
      CountNonnegative(p, live[..|live| - 1], node);
    }
  }

  /** In such a run the counts per node add up to the number of active sandboxes. */
  lemma NodesAddUp(p: Parser, steps: seq<Step>, name: string)
    requires DisciplinedRun(p, steps) && name in Run(p, steps).tenants
    ensures var i := Run(p, steps).tenants[name];
            SumOver(i.perNode.Keys, i.perNode) == i.active == |LiveOf(Run(p, steps), name)|
  {
    var s := Run(p, steps);
    var i, live := s.tenants[name], LiveOf(s, name);
    UsageConserved(p, steps, name);
    SandboxesAreLive(p, live);
    assert Recorded(i, OfSandboxes) == Sum(p, live, OfSandboxes);
    forall g | g in live
      ensures g.node in i.perNode
    {
      LiveOnNode(p, live, g);
      assert Recorded(i, OfNode(g.node)) == Sum(p, live, OfNode(g.node));
    }
    assert forall n | n in i.perNode :: Recorded(i, OfNode(n)) == Sum(p, live, OfNode(n));
    NodesSum(p, i.perNode.Keys, i.perNode, live);
  }

  // ---- all runs ----

  /** Whatever is released: the counts never go below zero, nor above what was ever allocated. */
  ghost predicate CountsSane(i: Info) {
    && 0 <= i.active <= i.total
    && 0 <= i.daily <= i.total
    && forall n | n in i.perNode :: i.perNode[n] >= 0
  }

  lemma {:induction false} CountsAlwaysSane(p: Parser, steps: seq<Step>)
    ensures forall name | name in Run(p, steps).tenants :: CountsSane(Run(p, steps).tenants[name])
  {
    hide CountsSane, Allocated, Released;
    if steps != [] {
      CountsAlwaysSane(p, steps[..|steps| - 1]);
      var s, step := Run(p, steps[..|steps| - 1]), steps[|steps| - 1];
      forall name | name in Run(p, steps).tenants
        ensures CountsSane(Run(p, steps).tenants[name])
      {
        SaneStep(p, s, step, name);
      }
    }
  }

  lemma SaneStep(p: Parser, s: State, step: Step, name: string)
    requires name in s.tenants ==> CountsSane(s.tenants[name])
    requires name in Next(p, s, step).tenants
    ensures CountsSane(Next(p, s, step).tenants[name])
  {
  }

  predicate Places(s: State, step: Step, name: string) {
    && name in s.tenants && (step.Allocate? || step.Admit?) && step.name == name
    && (step.Admit? ==> Check(s.tenants, name, step.rate, step.quota).Allowed?)
  }

  /** The sandboxes placed for a tenant since its record was made, or since its last new day. */
  function Placements(p: Parser, steps: seq<Step>, name: string, today: bool): nat {
    if steps == [] then 0
    else
      var s, step := Run(p, steps[..|steps| - 1]), steps[|steps| - 1];
      if (step.Register? && step.name == name && name !in s.tenants) || (today && step == NewDay(name)) then 0
      else Placements(p, steps[..|steps| - 1], name, today) + if Places(s, step, name) then 1 else 0
  }

  /** The total and daily counts never forget a placement, whatever is released or registered again. */
  lemma {:induction false} TotalsExact(p: Parser, steps: seq<Step>, name: string)
    ensures var s := Run(p, steps);
            name in s.tenants ==>
              s.tenants[name].total == Placements(p, steps, name, false) && s.tenants[name].daily == Placements(p, steps, name, true)
  {
    hide Next, Places;
    if steps != [] {
      var s, step := Run(p, steps[..|steps| - 1]), steps[|steps| - 1];
      TotalsExact(p, steps[..|steps| - 1], name);
      PlacesNothing(s, step, name);
      if step.name == name {
        DailyAfter(p, s, step);
      } else {
        OthersUntouched(p, s, step, name);
      }
    }
  }

  ghost predicate ResourcesSane(i: Info) {
    i.cpu >= 0 && i.memory >= 0 && i.gpu >= 0
  }

  /** Only an allocation can make a resource counter negative, and it does exactly when
      its amount is more negative than the counter is high. */
  lemma ResourcesSaneExact(p: Parser, i: Info, g: Grant)
    requires ResourcesSane(i)
    ensures ResourcesSane(Released(p, i, g.node, g.resources))
    ensures ResourcesSane(Allocated(p, i, g.node, g.resources)) <==>
              forall m | m != OfSandboxes && !m.OfNode? :: Recorded(i, m) + Value(Share(p, m, g)) >= 0
  {
    var after := Allocated(p, i, g.node, g.resources);
    forall m
      ensures Recorded(after, m) == Recorded(i, m) + Value(Share(p, m, g))
    {
      RaisedBy(p, i, g, m);
    }
    assert ResourcesSane(after) <==> Recorded(after, OfCpu) >= 0 && Recorded(after, OfMemory) >= 0 && Recorded(after, OfGpu) >= 0;
  }

  ghost predicate AllResourcesSane(s: State) {
    forall name | name in s.tenants :: ResourcesSane(s.tenants[name])
  }

  predicate IsResource(m: Measure) {
    m.OfCpu? || m.OfMemory? || m.OfGpu?
  }

  /** The step places a sandbox whose amount is more negative than a resource counter is high. */
  ghost predicate Overdraws(p: Parser, s: State, step: Step) {
    && Places(s, step, step.name)
    && exists m :: IsResource(m) && Recorded(s.tenants[step.name], m) + Value(Share(p, m, step.grant)) < 0
  }

  lemma OverdrawExact(p: Parser, s: State, step: Step)
    requires AllResourcesSane(s)
    ensures AllResourcesSane(Next(p, s, step)) <==> !Overdraws(p, s, step)
  {
    var s' := Next(p, s, step);
    assert forall name | name in s'.tenants && name != step.name :: name in s.tenants && s'.tenants[name] == s.tenants[name];
    if Places(s, step, step.name) {
      ResourcesSaneExact(p, s.tenants[step.name], step.grant);
      assert s'.tenants[step.name] == Allocated(p, s.tenants[step.name], step.grant.node, step.grant.resources);
    } else if step.Release? && step.name in s.tenants {
      ResourcesSaneExact(p, s.tenants[step.name], step.grant);
    }
  }

  ghost predicate AlwaysSane(p: Parser, steps: seq<Step>) {
    AllResourcesSane(Run(p, steps)) && (steps == [] || AlwaysSane(p, steps[..|steps| - 1]))
  }

  ghost predicate NeverOverdraws(p: Parser, steps: seq<Step>) {
    steps == [] ||
    (NeverOverdraws(p, steps[..|steps| - 1]) && !Overdraws(p, Run(p, steps[..|steps| - 1]), steps[|steps| - 1]))
  }

  /** CPU, memory and GPU stay nonnegative throughout a run exactly when no placement in it overdraws a counter. */
  lemma {:induction false} ResourcesAlongRun(p: Parser, steps: seq<Step>)
    ensures AlwaysSane(p, steps) <==> NeverOverdraws(p, steps)
  {
    if steps != [] {
      ResourcesAlongRun(p, steps[..|steps| - 1]);
      if AlwaysSane(p, steps[..|steps| - 1]) {
        OverdrawExact(p, Run(p, steps[..|steps| - 1]), steps[|steps| - 1]);
      }
    }
  }

  ghost predicate NonnegativeAmounts(p: Parser, steps: seq<Step>) {
    forall k | 0 <= k < |steps| :: steps[k].Allocate? || steps[k].Admit? ==> Nonnegative(p, steps[k].grant)
  }

  /** If no amount allocated in the run is negative, no resource counter ever is, whatever is released. */
  lemma {:induction false} ResourcesNonnegative(p: Parser, steps: seq<Step>)
    requires NonnegativeAmounts(p, steps)
    ensures AllResourcesSane(Run(p, steps)) && NeverOverdraws(p, steps)
  {
    if steps != [] {
      var before, step := steps[..|steps| - 1], steps[|steps| - 1];
      ResourcesNonnegative(p, before);
      if Places(Run(p, before), step, step.name) {
        forall m | IsResource(m)
          ensures Recorded(Run(p, before).tenants[step.name], m) + Value(Share(p, m, step.grant)) >= 0
        {
          assert Nonnegative(p, step.grant) && ResourcesSane(Run(p, before).tenants[step.name]);
        }
      }
      OverdrawExact(p, Run(p, before), step);
    }
  }

  /** A quantity that parses to a negative amount is taken: usage is negative after one allocation. */
  lemma NegativeAmount(p: Parser, name: string, g: Grant)
    requires Value(Cpu(p, g.resources)) < 0
    ensures var s := Run(p, [Register(name, Spec(0, 1, true), true)] + [Admit(name, g, true, true)]);
            name in s.tenants && s.tenants[name].cpu < 0
  {
    Then(p, [], Register(name, Spec(0, 1, true), true));
    Then(p, [Register(name, Spec(0, 1, true), true)], Admit(name, g, true, true));
    assert [] + [Register(name, Spec(0, 1, true), true)] == [Register(name, Spec(0, 1, true), true)];
  }

  lemma Then(p: Parser, steps: seq<Step>, step: Step)
    ensures Run(p, steps + [step]) == Next(p, Run(p, steps), step)
  {
    assert (steps + [step])[..|steps|] == steps;
  }

  // ---- the concurrency limit ----

  /** No tenant has more active sandboxes than its current limit. */
  ghost predicate WithinLimit(s: State) {
    forall name | name in s.tenants :: s.tenants[name].active <= s.tenants[name].spec.maxConcurrent && s.tenants[name].spec.maxConcurrent > 0
  }

  /** An allocation without its check for a tenant at its limit, or a registration that
      lowers the limit below what is active. */
  predicate Exceeds(s: State, step: Step) {
    match step
    case Allocate(name, _) => name in s.tenants && s.tenants[name].active >= s.tenants[name].spec.maxConcurrent
    case Register(name, spec, valid) => valid && name in s.tenants && 0 < spec.maxConcurrent < s.tenants[name].active
    case _ => false
  }

  /** From a state within the limits, a step leaves them exactly when it exceeds one. */
  lemma LimitExact(p: Parser, s: State, step: Step)
    requires WithinLimit(s)
    ensures WithinLimit(Next(p, s, step)) <==> !Exceeds(s, step)
  {
    hide Next, PeakOf;
    LimitAfter(p, s, step);
    forall name | name != step.name {
      OthersUntouched(p, s, step, name);
    }
  }

  lemma OthersUntouched(p: Parser, s: State, step: Step, name: string)
    requires name != step.name
    ensures name in Next(p, s, step).tenants <==> name in s.tenants
    ensures name in s.tenants ==> Next(p, s, step).tenants[name] == s.tenants[name]
    ensures PeakOf(Next(p, s, step), name) == PeakOf(s, name)
  {
  }

  predicate Accepted(step: Step) {
    step.Register? && step.valid && step.spec.maxConcurrent > 0
  }

  /** What a step does to the active count and the limits of the tenant it concerns. */
  lemma LimitAfter(p: Parser, s: State, step: Step)
    ensures var s', n := Next(p, s, step), step.name;
            n in s'.tenants ==>
              && (n !in s.tenants ==>
                    Accepted(step) && s'.tenants[n].active == 0 && s'.tenants[n].spec == step.spec && PeakOf(s', n) == step.spec.maxConcurrent)
              && (n in s.tenants ==>
                    && s'.tenants[n].active == ActiveAfter(s, step)
                    && s'.tenants[n].spec == (if Accepted(step) then step.spec else s.tenants[n].spec)
                    && PeakOf(s', n) == if Accepted(step) && step.spec.maxConcurrent > PeakOf(s, n) then step.spec.maxConcurrent else PeakOf(s, n))
    ensures step.name in s.tenants && !step.Unregister? ==> step.name in Next(p, s, step).tenants
  {
  }

  function ActiveAfter(s: State, step: Step): int
    requires step.name in s.tenants
  {
    var active := s.tenants[step.name].active;
    if Places(s, step, step.name) then active + 1
    else if step.Release? then (if active - 1 < 0 then 0 else active - 1)
    else active
  }

  ghost predicate AlwaysWithin(p: Parser, steps: seq<Step>) {
    WithinLimit(Run(p, steps)) && (steps == [] || AlwaysWithin(p, steps[..|steps| - 1]))
  }

  ghost predicate NeverExceeds(p: Parser, steps: seq<Step>) {
    steps == [] ||
    (NeverExceeds(p, steps[..|steps| - 1]) && !Exceeds(Run(p, steps[..|steps| - 1]), steps[|steps| - 1]))
  }

  /** Active never exceeds the current concurrency limit throughout a run exactly when no
      step of it allocates unchecked at the limit or lowers a limit below what is active. */
  lemma {:induction false} LimitAlongRun(p: Parser, steps: seq<Step>)
    ensures AlwaysWithin(p, steps) <==> NeverExceeds(p, steps)
  {
    if steps != [] {
      LimitAlongRun(p, steps[..|steps| - 1]);
      if AlwaysWithin(p, steps[..|steps| - 1]) {
        LimitExact(p, Run(p, steps[..|steps| - 1]), steps[|steps| - 1]);
      }
    }
  }

  ghost predicate OnlyAdmits(steps: seq<Step>) {
    steps == [] || (OnlyAdmits(steps[..|steps| - 1]) && !steps[|steps| - 1].Allocate?)
  }

  ghost predicate WithinPeak(s: State) {
    forall name | name in s.tenants ::
      s.tenants[name].active <= PeakOf(s, name) && 0 < s.tenants[name].spec.maxConcurrent <= PeakOf(s, name)
  }

  /** Against the highest limit registered only an unchecked allocation can go wrong, and
      it does exactly at that limit. */
  lemma PeakExact(p: Parser, s: State, step: Step)
    requires WithinPeak(s)
    ensures WithinPeak(Next(p, s, step)) <==>
              !(step.Allocate? && step.name in s.tenants && s.tenants[step.name].active >= PeakOf(s, step.name))
  {
    hide Next, PeakOf;
    LimitAfter(p, s, step);
    forall name | name != step.name {
      OthersUntouched(p, s, step, name);
    }
  }

  /** If every allocation directly follows its check, no tenant ever has more active
      sandboxes than the highest limit it was registered with. */
  lemma {:induction false} LimitKept(p: Parser, steps: seq<Step>)
    requires OnlyAdmits(steps)
    ensures WithinPeak(Run(p, steps))
  {
    if steps != [] {
      LimitKept(p, steps[..|steps| - 1]);
      PeakExact(p, Run(p, steps[..|steps| - 1]), steps[|steps| - 1]);
    }
  }

  /** Two checks may pass before either allocation: then the limit is exceeded. */
  lemma CheckedTwice(p: Parser, name: string, g: Grant)
    ensures var registered := [Register(name, Spec(0, 1, true), true)];
            && Check(Run(p, registered).tenants, name, true, true) == Allowed
            && name in Run(p, registered + [Allocate(name, g)] + [Allocate(name, g)]).tenants
            && Run(p, registered + [Allocate(name, g)] + [Allocate(name, g)]).tenants[name].active == 2
  {
    var registered := [Register(name, Spec(0, 1, true), true)];
    Then(p, [], registered[0]);
    assert [] + registered == registered;
    Then(p, registered, Allocate(name, g));
    Then(p, registered + [Allocate(name, g)], Allocate(name, g));
  }

  /** Every allocation checked, and yet over the limit: two sandboxes are admitted, then
      an update of the tenant lowers the limit to one. */
  function LoweredRun(name: string, g: Grant): seq<Step> {
    [Register(name, Spec(0, 2, true), true)] + [Admit(name, g, true, true)] + [Admit(name, g, true, true)]
    + [Register(name, Spec(0, 1, true), true)]
  }

  lemma LoweredLimit(p: Parser, name: string, g: Grant)
    ensures OnlyAdmits(LoweredRun(name, g))
    ensures var s := Run(p, LoweredRun(name, g));
            name in s.tenants && s.tenants[name].active == 2 && s.tenants[name].spec.maxConcurrent == 1
  {
    var two, admit, one := [Register(name, Spec(0, 2, true), true)], Admit(name, g, true, true), Register(name, Spec(0, 1, true), true);
    Then(p, [], two[0]);
    assert [] + two == two;
    Then(p, two, admit);
    Then(p, two + [admit], admit);
    Then(p, two + [admit] + [admit], one);
    assert OnlyAdmits(two);
    OnlyAdmitsThen(two, admit);
    OnlyAdmitsThen(two + [admit], admit);
    OnlyAdmitsThen(two + [admit] + [admit], one);
  }

  lemma OnlyAdmitsThen(steps: seq<Step>, step: Step)
    requires OnlyAdmits(steps) && !step.Allocate?
    ensures OnlyAdmits(steps + [step])
  {
    assert (steps + [step])[..|steps|] == steps;
  }

  // ---- when a creation is allowed ----

  /** The specification of the last accepted registration, unless the tenant was removed since. */
  function LastSpec(p: Parser, steps: seq<Step>, name: string): Option<Spec> {
    if steps == [] then None
    else
      var before, step := LastSpec(p, steps[..|steps| - 1], name), steps[|steps| - 1];
      if step.name != name then before
      else if Accepted(step) then Some(step.spec)
      else if step.Unregister? && before.Some? && Active(p, steps[..|steps| - 1], name) == 0 then None
      else before
  }

  /** What is active by the placements and releases alone; a release of nothing changes nothing. */
  function Active(p: Parser, steps: seq<Step>, name: string): nat {
    if steps == [] then 0
    else
      var before, s, step := Active(p, steps[..|steps| - 1], name), Run(p, steps[..|steps| - 1]), steps[|steps| - 1];
      if step.name != name then before
      else if Accepted(step) && name !in s.tenants then 0
      else if Places(s, step, name) then before + 1
      else if step.Release? && before > 0 then before - 1
      else before
  }

  lemma {:induction false} RecordIsHistory(p: Parser, steps: seq<Step>, name: string)
    ensures var s := Run(p, steps);
            && (name in s.tenants <==> LastSpec(p, steps, name).Some?)
            && (name in s.tenants ==>
                  && s.tenants[name].spec == LastSpec(p, steps, name).value
                  && s.tenants[name].spec.maxConcurrent > 0
                  && s.tenants[name].active == Active(p, steps, name))
  {
    if steps != [] {
      var before, step := steps[..|steps| - 1], steps[|steps| - 1];
      RecordIsHistory(p, before, name);
      RecordStep(p, Run(p, before), step, name, Active(p, before, name));
    }
  }

  lemma RecordStep(p: Parser, s: State, step: Step, name: string, active: nat)
    requires name in s.tenants ==> s.tenants[name].active == active
    ensures var s' := Next(p, s, step);
            && (name in s'.tenants <==>
                  (step.name == name && Accepted(step)) || (name in s.tenants && !(step == Unregister(name) && active == 0)))
            && (name in s'.tenants ==>
                  && s'.tenants[name].spec == (if step.name == name && Accepted(step) then step.spec else s.tenants[name].spec)
                  && s'.tenants[name].active ==
                       if name !in s.tenants then 0
                       else if Places(s, step, name) then active + 1
                       else if step.Release? && step.name == name && active > 0 then active - 1
                       else active)
  {
    hide PeakOf;
  }

  /** Everything that speaks against a creation, in the order the checks are made. */
  function Objections(p: Parser, steps: seq<Step>, name: string, rate: bool, quota: bool): seq<Verdict> {
    match LastSpec(p, steps, name)
    case None => [NotFound]
    case Some(spec) =>
      (if spec.phaseActive then [] else [NotActive])
      + (if rate then [] else [RateLimited])
      + (if spec.maxPerDay > 0 && Placements(p, steps, name, true) >= spec.maxPerDay then [DailyLimit] else [])
      + (if Active(p, steps, name) >= spec.maxConcurrent then [ConcurrentLimit] else [])
      + (if quota then [] else [QuotaExceeded])
  }

  /** After any run the verdict is the first objection, and a creation is allowed when there is none. */
  lemma VerdictIsFirstObjection(p: Parser, steps: seq<Step>, name: string, rate: bool, quota: bool)
    ensures var against := Objections(p, steps, name, rate, quota);
            Check(Run(p, steps).tenants, name, rate, quota) == if against == [] then Allowed else against[0]
  {
    RecordIsHistory(p, steps, name);
    TotalsExact(p, steps, name);
  }

  /** A creation is allowed exactly when the tenant is registered and was last registered in an
      available phase, the rate limiter and the quota manager agree, what was placed today is below
      a positive daily limit, and what is active below the concurrency limit. */
  lemma AllowedExactly(p: Parser, steps: seq<Step>, name: string, rate: bool, quota: bool)
    ensures Check(Run(p, steps).tenants, name, rate, quota) == Allowed <==>
              var spec := LastSpec(p, steps, name);
              && spec.Some? && spec.value.phaseActive && rate && quota
              && (spec.value.maxPerDay > 0 ==> Placements(p, steps, name, true) < spec.value.maxPerDay)
              && Active(p, steps, name) < spec.value.maxConcurrent
  {
    RecordIsHistory(p, steps, name);
    TotalsExact(p, steps, name);
  }

  // ---- the daily limit ----

  /** No tenant with a daily limit has placed more than that today. */
  ghost predicate WithinDaily(s: State) {
    forall name | name in s.tenants && s.tenants[name].spec.maxPerDay > 0 :: s.tenants[name].daily <= s.tenants[name].spec.maxPerDay
  }

  /** An allocation without its check for a tenant at its daily limit, or a registration that
      sets a daily limit below what was placed today. */
  predicate ExceedsDaily(s: State, step: Step) {
    match step
    case Allocate(name, _) => name in s.tenants && 0 < s.tenants[name].spec.maxPerDay <= s.tenants[name].daily
    case Register(name, spec, _) => Accepted(step) && name in s.tenants && 0 < spec.maxPerDay < s.tenants[name].daily
    case _ => false
  }

  lemma PlacesNothing(s: State, step: Step, name: string)
    ensures step.name != name || step.NewDay? || name !in s.tenants ==> !Places(s, step, name)
  {
  }

  lemma DailyAfter(p: Parser, s: State, step: Step)
    ensures var s', n := Next(p, s, step), step.name;
            n in s'.tenants ==>
              && (n !in s.tenants ==> Accepted(step) && s'.tenants[n].daily == s'.tenants[n].total == 0 && s'.tenants[n].spec == step.spec)
              && (n in s.tenants ==>
                    && s'.tenants[n].daily ==
                         (if Places(s, step, n) then s.tenants[n].daily + 1 else if step.NewDay? then 0 else s.tenants[n].daily)
                    && s'.tenants[n].total == s.tenants[n].total + (if Places(s, step, n) then 1 else 0)
                    && s'.tenants[n].spec == if Accepted(step) then step.spec else s.tenants[n].spec)
    ensures step.name in s.tenants && !step.Unregister? ==> step.name in Next(p, s, step).tenants
  {
    hide PeakOf;
  }

  /** From a state within the daily limits, a step leaves them exactly when it exceeds one. */
  lemma DailyExact(p: Parser, s: State, step: Step)
    requires WithinDaily(s)
    ensures WithinDaily(Next(p, s, step)) <==> !ExceedsDaily(s, step)
  {
    hide Next, PeakOf;
    DailyAfter(p, s, step);
    forall name | name != step.name {
      OthersUntouched(p, s, step, name);
    }
  }

  ghost predicate AlwaysWithinDaily(p: Parser, steps: seq<Step>) {
    WithinDaily(Run(p, steps)) && (steps == [] || AlwaysWithinDaily(p, steps[..|steps| - 1]))
  }

  ghost predicate NeverExceedsDaily(p: Parser, steps: seq<Step>) {
    steps == [] ||
    (NeverExceedsDaily(p, steps[..|steps| - 1]) && !ExceedsDaily(Run(p, steps[..|steps| - 1]), steps[|steps| - 1]))
  }

  /** No tenant exceeds its daily limit throughout a run exactly when no step of it allocates
      unchecked at the limit or sets a limit below what was placed. */
  lemma {:induction false} DailyAlongRun(p: Parser, steps: seq<Step>)
    ensures AlwaysWithinDaily(p, steps) <==> NeverExceedsDaily(p, steps)
  {
    if steps != [] {
      DailyAlongRun(p, steps[..|steps| - 1]);
      if AlwaysWithinDaily(p, steps[..|steps| - 1]) {
        DailyExact(p, Run(p, steps[..|steps| - 1]), steps[|steps| - 1]);
      }
    }
  }

  // ---- the manager ----

  class TenantManager {
    var tenants: Tenants

    constructor ()
      ensures tenants == Init.tenants
    {
      tenants := map[];
    }

    /** valid is the rest of the validation: the names and amounts that must be given. When
        the quota manager then refuses, the call fails but the tenant stays registered. */
    method RegisterTenant(name: string, spec: Spec, valid: bool, quota: bool) returns (ok: bool)
      modifies this
      ensures ok == (valid && spec.maxConcurrent > 0 && quota)
      ensures tenants == if valid && spec.maxConcurrent > 0 then Registered(old(tenants), name, spec) else old(tenants)
    {
      if !valid || spec.maxConcurrent <= 0 {
        return false;
      }
      if name !in tenants {
        tenants := tenants[name := Fresh(spec)];
      }
      tenants := tenants[name := tenants[name].(spec := spec)];
      ok := quota;
    }

    method UnregisterTenant(name: string) returns (ok: bool)
      modifies this
      ensures ok == (name in old(tenants) && old(tenants)[name].active <= 0)
      ensures tenants == if ok then old(tenants) - {name} else old(tenants)
    {
      if name !in tenants {
        return false;
      }
      if tenants[name].active > 0 {
        return false;
      }
      tenants := tenants - {name};
      ok := true;
    }

    /** asked says whether the rate limiter was asked, and so spent a token if it allowed. */
    method CanCreateSandbox(name: string, rate: bool, quota: bool) returns (verdict: Verdict, asked: bool)
      ensures verdict == Check(tenants, name, rate, quota)
      ensures asked <==> verdict != NotFound && verdict != NotActive
    {
      asked := false;
      if name !in tenants {
        return NotFound, asked;
      }
      var info := tenants[name];
      if !info.spec.phaseActive {
        return NotActive, asked;
      }
      asked := true;
      if !rate {
        return RateLimited, asked;
      }
      if info.spec.maxPerDay > 0 && info.daily >= info.spec.maxPerDay {
        return DailyLimit, asked;
      }
      if info.spec.maxConcurrent > 0 && info.active >= info.spec.maxConcurrent {
        return ConcurrentLimit, asked;
      }
      if !quota {
        return QuotaExceeded, asked;
      }
      verdict := Allowed;
    }

    method AllocateResources(p: Parser, name: string, node: string, r: Resources) returns (ok: bool)
      modifies this
      ensures ok == (name in old(tenants))
      ensures tenants == if ok then old(tenants)[name := Allocated(p, old(tenants)[name], node, r)] else old(tenants)
    {
      if name !in tenants {
        return false;
      }
      var info := tenants[name];
      var cpu := Cpu(p, r);
      if cpu.Some? {
        info := info.(cpu := info.cpu + cpu.value);
      }
      var memory := Memory(p, r);
      if memory.Some? {
        info := info.(memory := info.memory + memory.value);
      }
      if r.gpu != "" {
        var gpu := p.whole(r.gpu);
        if gpu.Some? {
          info := info.(gpu := info.gpu + gpu.value);
        }
      }
      info := info.(active := info.active + 1, total := info.total + 1, daily := info.daily + 1);
      info := info.(perNode := info.perNode[node := NodeCount(info.perNode, node) + 1]);
      tenants := tenants[name := info];
      ok := true;
    }

    /** Subtracts and clamps, as is done for each of the three resources. */
    static method Lower(used: int, amount: Option<int>) returns (left: int)
      ensures left == Lowered(used, amount)
    {
      left := used;
      if amount.Some? {
        left := left - amount.value;
        if left < 0 {
          left := 0;
        }
      }
    }

    method ReleaseResources(p: Parser, name: string, node: string, r: Resources) returns (ok: bool)
      modifies this
      ensures ok == (name in old(tenants))
      ensures tenants == if ok then old(tenants)[name := Released(p, old(tenants)[name], node, r)] else old(tenants)
    {
      if name !in tenants {
        return false;
      }
      var info := tenants[name];
      var cpu := Lower(info.cpu, Cpu(p, r));
      info := info.(cpu := cpu);
      var memory := Lower(info.memory, Memory(p, r));
      info := info.(memory := memory);
      if r.gpu != "" {
        var gpu := Lower(info.gpu, p.whole(r.gpu));
        info := info.(gpu := gpu);
      }
      info := info.(active := info.active - 1);
      if info.active < 0 {
        info := info.(active := 0);
      }
      if NodeCount(info.perNode, node) > 0 {
        info := info.(perNode := info.perNode[node := NodeCount(info.perNode, node) - 1]);
      }
      tenants := tenants[name := info];
      ok := true;
    }
  }
}
