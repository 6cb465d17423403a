/** The scheduling cycle. Plugin results, the node listings and the queue's answers
    are arbitrary inputs; what the cycle does with them is a sequence of events. */
module Scheduler {
  import opened Wrappers

  datatype NodeScore = NodeScore(name: string, score: int)

  /** What the framework answers during one cycle. The node list is read twice, and
      an error of the second reading is ignored and leaves it empty. */
  datatype Env = Env(
    preFilter: bool,
    listed: Option<seq<string>>,
    passes: nat -> bool,
    relisted: Option<seq<string>>,
    preScore: bool,
    scores: Option<seq<NodeScore>>,
    reserve: bool,
    permit: bool,
    preBind: bool,
    bind: bool)

  datatype Event =
    | Reserve(node: string, ok: bool)
    | Permit(node: string, ok: bool)
    | Unreserve(node: string)
    | PreBind(node: string, ok: bool)
    | Bind(node: string, ok: bool)
    | PostBind(node: string)
    | Requeue(key: string)
    | Success
    | Failure
    | Unschedulable(key: string)

  datatype Popped = Popped(key: string, attempts: int)

  /** Go's conversion to a 32-bit integer. */
  function ToInt32(x: int): int {
    (x + 0x8000_0000) % 0x1_0000_0000 - 0x8000_0000
  }

  /** The nodes whose filter passes, in listing order; passes goes by position. */
  function Feasible(nodes: seq<string>, passes: nat -> bool): seq<string> {
    if nodes == [] then []
    else
      var n := |nodes| - 1;
      Feasible(nodes[..n], passes) + if passes(n) then [nodes[n]] else []
  }

  predicate IsBest(scores: seq<NodeScore>, i: nat) {
    && i < |scores|
    && (forall j | 0 <= j < |scores| :: scores[j].score <= scores[i].score)
    && (forall j | 0 <= j < i :: scores[j].score < scores[i].score)
  }

  function BestIndex(scores: seq<NodeScore>): (i: nat)
    requires scores != []
    ensures IsBest(scores, i)
  {
    if |scores| == 1 then 0
    else
      var n := |scores| - 1;
      var i := BestIndex(scores[..n]);
      if scores[n].score > scores[i].score then n else i
  }

  datatype Schedule = Failed(events: seq<Event>) | Placed(events: seq<Event>, host: string, evaluated: nat)

  function Evaluated(env: Env): nat {
    if env.relisted.Some? then |env.relisted.value| else 0
  }

  function ScheduleSandbox(env: Env): Schedule {
    if !env.preFilter || env.listed.None? then Failed([])
    else if Feasible(env.listed.value, env.passes) == [] then Failed([])
    else if !env.preScore || env.scores.None? || env.scores.value == [] then Failed([])
    else
      var n := env.scores.value[BestIndex(env.scores.value)].name;
      if !env.reserve then Failed([Reserve(n, false)])
      else if !env.permit then Failed([Reserve(n, true), Permit(n, false), Unreserve(n)])
      else Placed([Reserve(n, true), Permit(n, true)], n, Evaluated(env))
  }

  predicate Binds(env: Env) {
    env.preBind && env.bind
  }

  function BindSandbox(env: Env, n: string): seq<Event> {
    if !env.preBind then [PreBind(n, false), Unreserve(n)]
    else if !env.bind then [PreBind(n, true), Bind(n, false), Unreserve(n)]
    else [PreBind(n, true), Bind(n, true), PostBind(n), Success]
  }

  function HandleFailure(p: Popped, maxAttempts: int): seq<Event> {
    [Failure] + if ToInt32(p.attempts) < maxAttempts then [Requeue(p.key)] else [Unschedulable(p.key)]
  }

  function Cycle(env: Env, p: Popped, maxAttempts: int): seq<Event> {
    match ScheduleSandbox(env)
    case Failed(events) => events + HandleFailure(p, maxAttempts)
    case Placed(events, n, evaluated) =>
      if evaluated == 0 then events + HandleFailure(p, maxAttempts)
      else if Binds(env) then events + BindSandbox(env, n) + [Success]
      else events + BindSandbox(env, n) + HandleFailure(p, maxAttempts)
  }

  // ---- one cycle ----

  function Count(log: seq<Event>, e: Event): nat {
    if log == [] then 0 else (if log[0] == e then 1 else 0) + Count(log[1..], e)
  }

  lemma {:induction false} CountAppend(a: seq<Event>, b: seq<Event>, e: Event)
    ensures Count(a + b, e) == Count(a, e) + Count(b, e)
  {
    if a == [] {
      assert a + b == b;
    } else {
      assert (a + b)[1..] == a[1..] + b;
      CountAppend(a[1..], b, e);
    }
  }

  function Hit(log: seq<Event>, i: nat, e: Event): nat {
    if i < |log| && log[i] == e then 1 else 0
  }

  lemma {:induction false} CountShort(log: seq<Event>, e: Event)
    requires |log| <= 4
    ensures Count(log, e) == Hit(log, 0, e) + Hit(log, 1, e) + Hit(log, 2, e) + Hit(log, 3, e)
  {
    if log != [] {
      CountShort(log[1..], e);
    }
  }

  lemma HeldShort(log: seq<Event>, n: string)
    requires |log| <= 4
    ensures Held(log, n) ==
              Hit(log, 0, Reserve(n, true)) + Hit(log, 1, Reserve(n, true)) + Hit(log, 2, Reserve(n, true)) + Hit(log, 3, Reserve(n, true))
              - (Hit(log, 0, Bind(n, true)) + Hit(log, 1, Bind(n, true)) + Hit(log, 2, Bind(n, true)) + Hit(log, 3, Bind(n, true)))
              - (Hit(log, 0, Unreserve(n)) + Hit(log, 1, Unreserve(n)) + Hit(log, 2, Unreserve(n)) + Hit(log, 3, Unreserve(n)))
  {
    CountShort(log, Reserve(n, true));
    CountShort(log, Bind(n, true));
    CountShort(log, Unreserve(n));
  }

  /** Reservations made and neither turned into a binding nor taken back. */
  function Held(log: seq<Event>, n: string): int {
    Count(log, Reserve(n, true)) - Count(log, Bind(n, true)) - Count(log, Unreserve(n))
  }

  /** The second reading of the node list came back empty after a node was reserved and permitted. */
  predicate Vanished(env: Env) {
    ScheduleSandbox(env).Placed? && Evaluated(env) == 0
  }

  /** Reservation balance, exactly: a cycle keeps a reservation exactly when the node
      list vanished between its two readings, and then on the chosen node. */
  lemma CycleBalance(env: Env, p: Popped, maxAttempts: int, n: string)
    ensures Held(Cycle(env, p, maxAttempts), n) == if Vanished(env) && ScheduleSandbox(env).host == n then 1 else 0
  {
    var s := ScheduleSandbox(env);
    ScheduleHolds(env, n);
    FailureHoldsNothing(p, maxAttempts, n);
    assert s.Placed? ==> s.evaluated == Evaluated(env);
    hide Held, ScheduleSandbox, BindSandbox, HandleFailure;
    if s.Placed? && Evaluated(env) > 0 {
      var b := BindSandbox(env, s.host);
      BindSettles(env, s.host, n);
      HeldAppend(s.events, b, n);
      HeldAppend(s.events + b, [Success], n);
      HeldAppend(s.events + b, HandleFailure(p, maxAttempts), n);
      SuccessHoldsNothing(n);
    } else {
      HeldAppend(s.events, HandleFailure(p, maxAttempts), n);
    }
  }

  /** Everything succeeds, but the second reading of the node list fails. */
  function LostList(node: string): Env {
    Env(true, Some([node]), _ => true, None, true, Some([NodeScore(node, 0)]), true, true, true, true)
  }

  /** Then the node stays reserved, although the sandbox was put back or given up. */
  lemma LostListKeepsReservation(node: string, p: Popped, maxAttempts: int)
    ensures Vanished(LostList(node)) && Held(Cycle(LostList(node), p, maxAttempts), node) == 1
  {
    var env := LostList(node);
    assert Feasible([node][..0], env.passes) == [];
    assert Feasible([node], env.passes) == [node];
    CycleBalance(env, p, maxAttempts, node);
  }

  lemma ScheduleHolds(env: Env, n: string)
    ensures var s := ScheduleSandbox(env); Held(s.events, n) == if s.Placed? && s.host == n then 1 else 0
  {
    HeldShort(ScheduleSandbox(env).events, n);
  }

  lemma BindSettles(env: Env, host: string, n: string)
    ensures Held(BindSandbox(env, host), n) == if host == n then -1 else 0
  {
    HeldShort(BindSandbox(env, host), n);
  }

  lemma SuccessHoldsNothing(n: string)
    ensures Held([Success], n) == 0
  {
    HeldShort([Success], n);
  }

  lemma HeldAppend(a: seq<Event>, b: seq<Event>, n: string)
    ensures Held(a + b, n) == Held(a, n) + Held(b, n)
  {
    CountAppend(a, b, Reserve(n, true));
    CountAppend(a, b, Bind(n, true));
    CountAppend(a, b, Unreserve(n));
  }

  lemma FailureHoldsNothing(p: Popped, maxAttempts: int, n: string)
    ensures Held(HandleFailure(p, maxAttempts), n) == 0
  {
    HeldShort(HandleFailure(p, maxAttempts), n);
  }

  /** With a stable node list nothing is ever held: the zero-nodes branch cannot follow a placement. */
  lemma StableListBalances(env: Env, p: Popped, maxAttempts: int, n: string)
    requires env.relisted == env.listed
    ensures !Vanished(env) && Held(Cycle(env, p, maxAttempts), n) == 0
  {
    if ScheduleSandbox(env).Placed? {
      FeasibleExact(env.listed.value, env.passes, "");
    }
    CycleBalance(env, p, maxAttempts, n);
  }

  /** Bind runs only for a node whose Reserve and Permit succeeded before in the same cycle. */
  lemma BindAfterReserveAndPermit(env: Env, p: Popped, maxAttempts: int, i: nat)
    requires i < |Cycle(env, p, maxAttempts)| && (Cycle(env, p, maxAttempts)[i].PreBind? || Cycle(env, p, maxAttempts)[i].Bind?)
    ensures var log := Cycle(env, p, maxAttempts);
            exists j, k :: 0 <= j < k < i && log[j] == Reserve(log[i].node, true) && log[k] == Permit(log[i].node, true)
  {
    var log := Cycle(env, p, maxAttempts);
    var s := ScheduleSandbox(env);
    assert s.Placed? && log[..2] == s.events;
    assert log[0] == s.events[0] && log[1] == s.events[1];
    assert log[i].node == s.host;
  }

  predicate IsOutcome(e: Event) {
    (e.Bind? && e.ok) || e.Requeue? || e.Unschedulable?
  }

  function Outcomes(log: seq<Event>): seq<Event> {
    if log == [] then []
    else Outcomes(log[..|log| - 1]) + if IsOutcome(log[|log| - 1]) then [log[|log| - 1]] else []
  }

  lemma {:induction false} OutcomesAppend(a: seq<Event>, b: seq<Event>)
    ensures Outcomes(a + b) == Outcomes(a) + Outcomes(b)
  {
    if b == [] {
      assert a + b == a;
    } else {
      var m := |b| - 1;
      assert (a + b)[..|a| + m] == a + b[..m];
      OutcomesAppend(a, b[..m]);
    }
  }

  lemma OutcomesOfThree(a: seq<Event>, b: seq<Event>, c: seq<Event>)
    ensures Outcomes(a + b + c) == Outcomes(a) + Outcomes(b) + Outcomes(c)
  {
    hide Outcomes;
    OutcomesAppend(a, b);
    OutcomesAppend(a + b, c);
  }

  lemma NoOutcomes(log: seq<Event>)
    requires forall e | e in log :: !IsOutcome(e)
    ensures Outcomes(log) == []
  {
    if log != [] {
      assert log[|log| - 1] in log;
      NoOutcomes(log[..|log| - 1]);
    }
  }

  lemma FailureOutcome(p: Popped, maxAttempts: int)
    ensures Outcomes(HandleFailure(p, maxAttempts)) ==
              [if ToInt32(p.attempts) < maxAttempts then Requeue(p.key) else Unschedulable(p.key)]
  {
    var last := if ToInt32(p.attempts) < maxAttempts then [Requeue(p.key)] else [Unschedulable(p.key)];
    OutcomesAppend([Failure], last);
    NoOutcomes([Failure]);
    assert last[..0] == [];
  }

  lemma ScheduleOutcomes(env: Env)
    ensures Outcomes(ScheduleSandbox(env).events) == []
  {
    NoOutcomes(ScheduleSandbox(env).events);
  }

  lemma BindOutcomes(env: Env, n: string)
    ensures Outcomes(BindSandbox(env, n)) == if Binds(env) then [Bind(n, true)] else []
  {
    if Binds(env) {
      var before, after := [PreBind(n, true)], [PostBind(n), Success];
      assert BindSandbox(env, n) == before + ([Bind(n, true)] + after);
      OutcomesAppend(before, [Bind(n, true)] + after);
      OutcomesAppend([Bind(n, true)], after);
      NoOutcomes(before);
      NoOutcomes(after);
      assert [Bind(n, true)][..0] == [];
    } else {
      NoOutcomes(BindSandbox(env, n));
    }
  }

  /** A popped sandbox is bound, put back or recorded unschedulable: exactly one of
      the three, once, and bound exactly when every phase went well. */
  lemma ExactlyOneOutcome(env: Env, p: Popped, maxAttempts: int)
    ensures var bound := ScheduleSandbox(env).Placed? && Evaluated(env) > 0 && Binds(env);
            Outcomes(Cycle(env, p, maxAttempts)) ==
              [if bound then Bind(ScheduleSandbox(env).host, true)
               else if ToInt32(p.attempts) < maxAttempts then Requeue(p.key)
               else Unschedulable(p.key)]
  {
    var s := ScheduleSandbox(env);
    FailureOutcome(p, maxAttempts);
    ScheduleOutcomes(env);
    assert s.Placed? ==> s.evaluated == Evaluated(env);
    hide Outcomes, ScheduleSandbox, BindSandbox, HandleFailure;
    if s.Placed? && Evaluated(env) > 0 {
      BoundOutcome(env, s, p, maxAttempts);
    } else {
      OutcomesAppend(s.events, HandleFailure(p, maxAttempts));
    }
  }

  lemma BoundOutcome(env: Env, s: Schedule, p: Popped, maxAttempts: int)
    requires s == ScheduleSandbox(env) && s.Placed? && Evaluated(env) > 0
    ensures Outcomes(Cycle(env, p, maxAttempts)) ==
              if Binds(env) then [Bind(s.host, true)] else Outcomes(HandleFailure(p, maxAttempts))
  {
    hide Outcomes, BindSandbox, HandleFailure;
    var b := BindSandbox(env, s.host);
    ScheduleOutcomes(env);
    BindOutcomes(env, s.host);
    NoOutcomes([Success]);
    assert s.evaluated == Evaluated(env);
    var last := if Binds(env) then [Success] else HandleFailure(p, maxAttempts);
    assert Cycle(env, p, maxAttempts) == s.events + b + last;
    OutcomesOfThree(s.events, b, last);
  }

  /** A node is feasible exactly when it passes at one of its places in the list. */
  lemma {:induction false} FeasibleExact(nodes: seq<string>, passes: nat -> bool, n: string)
    ensures n in Feasible(nodes, passes) <==> exists i: nat :: i < |nodes| && nodes[i] == n && passes(i)
    ensures |Feasible(nodes, passes)| <= |nodes|
  {
    if nodes != [] {
      var m := |nodes| - 1;
      FeasibleExact(nodes[..m], passes, n);
      assert passes(m) && nodes[m] == n ==> n in Feasible(nodes, passes);
      if i: nat :| i < |nodes| && nodes[i] == n && passes(i) {
        assert i < m ==> nodes[..m][i] == n;
      }
      if n in Feasible(nodes[..m], passes) {
        var i: nat :| i < |nodes[..m]| && nodes[..m][i] == n && passes(i);
        assert nodes[i] == n;
      }
    }
  }

  /** The places among the first n that pass, in order. */
  function PassingAt(n: nat, passes: nat -> bool): (at: seq<nat>)
    ensures forall k | 0 <= k < |at| :: at[k] < n && passes(at[k])
    ensures forall j, k | 0 <= j < k < |at| :: at[j] < at[k]
  {
    if n == 0 then [] else PassingAt(n - 1, passes) + if passes(n - 1) then [n - 1] else []
  }

  lemma {:induction false} PassingComplete(n: nat, passes: nat -> bool, i: nat)
    requires i < n && passes(i)
    ensures i in PassingAt(n, passes)
  {
    var before := PassingAt(n - 1, passes);
    if i < n - 1 {
      PassingComplete(n - 1, passes, i);
      var k :| 0 <= k < |before| && before[k] == i;
      assert PassingAt(n, passes)[k] == i;
    } else {
      assert PassingAt(n, passes)[|before|] == i;
    }
  }

  /** The feasible nodes are the nodes at the passing places, every one of them once and in
      listing order. */
  lemma {:induction false} FeasibleInOrder(nodes: seq<string>, passes: nat -> bool)
    ensures var at, feasible := PassingAt(|nodes|, passes), Feasible(nodes, passes);
            && |feasible| == |at|
            && (forall k | 0 <= k < |at| :: feasible[k] == nodes[at[k]])
            && (forall i: nat | i < |nodes| && passes(i) :: i in at)
  {
    FeasibleAt(nodes, passes);
    hide Feasible, PassingAt;
    forall i: nat | i < |nodes| && passes(i)
      ensures i in PassingAt(|nodes|, passes)
    {
      PassingComplete(|nodes|, passes, i);
    }
  }

  lemma {:induction false} FeasibleAt(nodes: seq<string>, passes: nat -> bool)
    ensures var at, feasible := PassingAt(|nodes|, passes), Feasible(nodes, passes);
            |feasible| == |at| && forall k | 0 <= k < |at| :: feasible[k] == nodes[at[k]]
  {
    if nodes != [] {
      var n := |nodes| - 1;
      FeasibleAt(nodes[..n], passes);
      var at := PassingAt(n, passes);
      assert forall k | 0 <= k < |at| :: nodes[..n][at[k]] == nodes[at[k]];
    }
  }

  ghost predicate SomePasses(n: nat, passes: nat -> bool) {
    exists i: nat :: i < n && passes(i)
  }

  lemma {:induction false} SomeFeasible(nodes: seq<string>, passes: nat -> bool)
    ensures Feasible(nodes, passes) != [] <==> SomePasses(|nodes|, passes)
  {
    if nodes != [] {
      var n := |nodes| - 1;
      SomeFeasible(nodes[..n], passes);
      assert SomePasses(n + 1, passes) <==> SomePasses(n, passes) || passes(n);
    }
  }

  /** When the framework scores the feasible nodes in order, the host is a feasible
      node of the list, no feasible node scores higher and none before it as high. */
  lemma HostIsBestFeasible(env: Env)
    requires ScheduleSandbox(env).Placed?
    requires |env.scores.value| == |Feasible(env.listed.value, env.passes)|
    requires forall i | 0 <= i < |env.scores.value| :: env.scores.value[i].name == Feasible(env.listed.value, env.passes)[i]
    ensures var host, scores := ScheduleSandbox(env).host, env.scores.value;
            && (exists i: nat :: i < |env.listed.value| && env.listed.value[i] == host && env.passes(i))
            && (exists i: nat :: IsBest(scores, i) && scores[i].name == host)
  {
    var i := BestIndex(env.scores.value);
    assert IsBest(env.scores.value, i);
    FeasibleExact(env.listed.value, env.passes, ScheduleSandbox(env).host);
  }

  /** A node is placed exactly when pre-filter and listing succeed, some listed node passes its
      filters, pre-score and scoring succeed and score something, and reserve and permit succeed. */
  lemma PlacedExactly(env: Env)
    ensures ScheduleSandbox(env).Placed? <==>
              && env.preFilter && env.listed.Some?
              && SomePasses(|env.listed.value|, env.passes)
              && env.preScore && env.scores.Some? && env.scores.value != []
              && env.reserve && env.permit
  {
    if env.listed.Some? {
      SomeFeasible(env.listed.value, env.passes);
    }
  }

  /** A sandbox is bound exactly when all that and the second listing, which must not be empty,
      pre-bind and bind succeed. */
  lemma BoundExactly(env: Env, p: Popped, maxAttempts: int)
    ensures (exists n :: Bind(n, true) in Cycle(env, p, maxAttempts)) <==>
              && env.preFilter && env.listed.Some?
              && SomePasses(|env.listed.value|, env.passes)
              && env.preScore && env.scores.Some? && env.scores.value != []
              && env.reserve && env.permit
              && env.relisted.Some? && env.relisted.value != []
              && env.preBind && env.bind
  {
    PlacedExactly(env);
    BoundInLog(env, p, maxAttempts);
  }

  lemma BoundInLog(env: Env, p: Popped, maxAttempts: int)
    ensures var s := ScheduleSandbox(env);
            (exists n :: Bind(n, true) in Cycle(env, p, maxAttempts)) <==> s.Placed? && Evaluated(env) > 0 && Binds(env)
  {
    var s, log := ScheduleSandbox(env), Cycle(env, p, maxAttempts);
    assert s.Placed? ==> s.evaluated == Evaluated(env);
    if s.Placed? && Evaluated(env) > 0 && Binds(env) {
      assert log[3] == Bind(s.host, true);
      assert Bind(s.host, true) in log;
    }
  }

  /** The phases follow each other without gaps, and a failed permit, pre-bind or bind is
      directly followed by taking the reservation back. */
  ghost predicate InOrder(log: seq<Event>, i: nat)
    requires i < |log|
  {
    match log[i]
    case Reserve(n, ok) => i == 0 && (ok ==> 1 < |log| && log[1].Permit? && log[1].node == n)
    case Permit(n, ok) => i == 1 && log[0] == Reserve(n, true) && (!ok ==> 2 < |log| && log[2] == Unreserve(n))
    case PreBind(n, ok) =>
      && i == 2 && log[1] == Permit(n, true)
      && 3 < |log| && if ok then log[3].Bind? && log[3].node == n else log[3] == Unreserve(n)
    case Bind(n, ok) => i == 3 && log[2] == PreBind(n, true) && 4 < |log| && log[4] == if ok then PostBind(n) else Unreserve(n)
    case PostBind(n) => i == 4 && log[3] == Bind(n, true)
    case Unreserve(n) => i > 0 && (log[i - 1] == Permit(n, false) || log[i - 1] == PreBind(n, false) || log[i - 1] == Bind(n, false))
    case _ => true
  }

  lemma PhasesInOrder(env: Env, p: Popped, maxAttempts: int, i: nat)
    requires i < |Cycle(env, p, maxAttempts)|
    ensures InOrder(Cycle(env, p, maxAttempts), i)
  {
  }

  /** The conversion gives the one value of the signed 32-bit range that differs by a multiple of two to the 32. */
  lemma ToInt32Wraps(x: int)
    ensures -0x8000_0000 <= ToInt32(x) <= 0x7fff_ffff
    ensures (x - ToInt32(x)) % 0x1_0000_0000 == 0
  {
  }

  // ---- many cycles ----

  datatype Round = Round(env: Env, popped: Popped)

  function Log(rounds: seq<Round>, maxAttempts: int): seq<Event> {
    if rounds == [] then []
    else
      var r := rounds[|rounds| - 1];
      Log(rounds[..|rounds| - 1], maxAttempts) + Cycle(r.env, r.popped, maxAttempts)
  }

  function VanishedOn(rounds: seq<Round>, n: string): nat {
    if rounds == [] then 0
    else
      var r := rounds[|rounds| - 1];
      VanishedOn(rounds[..|rounds| - 1], n) + if Vanished(r.env) && ScheduleSandbox(r.env).host == n then 1 else 0
  }

  /** Over any run the reservations held on a node are the cycles in which the node
      list vanished after choosing it. */
  lemma {:induction false} RunBalance(rounds: seq<Round>, maxAttempts: int, n: string)
    ensures Held(Log(rounds, maxAttempts), n) == VanishedOn(rounds, n)
  {
    if rounds != [] {
      var before, r := rounds[..|rounds| - 1], rounds[|rounds| - 1];
      RunBalance(before, maxAttempts, n);
      CycleBalance(r.env, r.popped, maxAttempts, n);
      HeldAppend(Log(before, maxAttempts), Cycle(r.env, r.popped, maxAttempts), n);
    }
  }

  predicate IsBinding(e: Event) {
    e.Bind? && e.ok
  }

  function Bindings(log: seq<Event>): nat {
    if log == [] then 0 else Bindings(log[..|log| - 1]) + if IsBinding(log[|log| - 1]) then 1 else 0
  }

  lemma {:induction false} BindingsAppend(a: seq<Event>, b: seq<Event>)
    ensures Bindings(a + b) == Bindings(a) + Bindings(b)
  {
    if b == [] {
      assert a + b == a;
    } else {
      var m := |b| - 1;
      assert (a + b)[..|a| + m] == a + b[..m];
      BindingsAppend(a, b[..m]);
    }
  }

  lemma {:induction false} BindingsOfOutcomes(log: seq<Event>)
    ensures Bindings(Outcomes(log)) == Bindings(log)
  {
    if log != [] {
      var m := |log| - 1;
      BindingsOfOutcomes(log[..m]);
      var e := if IsOutcome(log[m]) then [log[m]] else [];
      BindingsAppend(Outcomes(log[..m]), e);
      if e != [] {
        assert e[..0] == [];
      }
    }
  }

  /** Both the binding and the cycle record a success; a failure is recorded once. */
  lemma CycleMetrics(env: Env, p: Popped, maxAttempts: int)
    ensures var log := Cycle(env, p, maxAttempts);
            Count(log, Success) == 2 * Bindings(log) && Count(log, Failure) == 1 - Bindings(log)
  {
    var log := Cycle(env, p, maxAttempts);
    ExactlyOneOutcome(env, p, maxAttempts);
    BindingsOfOutcomes(log);
    var e := Outcomes(log);
    assert e[..0] == [];
    assert Bindings(log) == if IsBinding(e[0]) then 1 else 0;
    CycleCounts(env, p, maxAttempts);
  }

  lemma CycleCounts(env: Env, p: Popped, maxAttempts: int)
    ensures var log := Cycle(env, p, maxAttempts);
            var bound := ScheduleSandbox(env).Placed? && Evaluated(env) > 0 && Binds(env);
            Count(log, Success) == (if bound then 2 else 0) && Count(log, Failure) == if bound then 0 else 1
  {
    var s := ScheduleSandbox(env);
    assert s.Placed? ==> s.evaluated == Evaluated(env);
    ScheduleCounts(env);
    FailureCounts(p, maxAttempts);
    CountShort([Success], Success);
    CountShort([Success], Failure);
    hide ScheduleSandbox, BindSandbox, HandleFailure, Count;
    if s.Placed? {
      BindCounts(env, s.host);
      var b := BindSandbox(env, s.host);
      forall e | e == Success || e == Failure
        ensures Count(s.events + b + [Success], e) == Count(s.events, e) + Count(b, e) + Count([Success], e)
        ensures Count(s.events + b + HandleFailure(p, maxAttempts), e) ==
                  Count(s.events, e) + Count(b, e) + Count(HandleFailure(p, maxAttempts), e)
      {
        CountAppend(s.events, b, e);
        CountAppend(s.events + b, [Success], e);
        CountAppend(s.events + b, HandleFailure(p, maxAttempts), e);
      }
    }
    CountAppend(s.events, HandleFailure(p, maxAttempts), Success);
    CountAppend(s.events, HandleFailure(p, maxAttempts), Failure);
  }

  lemma ScheduleCounts(env: Env)
    ensures Count(ScheduleSandbox(env).events, Failure) == 0
    ensures Count(ScheduleSandbox(env).events, Success) == 0
  {
    CountShort(ScheduleSandbox(env).events, Failure);
    CountShort(ScheduleSandbox(env).events, Success);
  }

  lemma FailureCounts(p: Popped, maxAttempts: int)
    ensures Count(HandleFailure(p, maxAttempts), Failure) == 1
    ensures Count(HandleFailure(p, maxAttempts), Success) == 0
  {
    CountShort(HandleFailure(p, maxAttempts), Failure);
    CountShort(HandleFailure(p, maxAttempts), Success);
  }

  lemma BindCounts(env: Env, n: string)
    ensures Count(BindSandbox(env, n), Failure) == 0
    ensures Count(BindSandbox(env, n), Success) == if Binds(env) then 1 else 0
  {
    CountShort(BindSandbox(env, n), Failure);
    CountShort(BindSandbox(env, n), Success);
  }

  lemma MetricsAdd(log: seq<Event>, c: seq<Event>)
    ensures Count(log + c, Success) == Count(log, Success) + Count(c, Success)
    ensures Count(log + c, Failure) == Count(log, Failure) + Count(c, Failure)
    ensures Bindings(log + c) == Bindings(log) + Bindings(c)
    ensures |Outcomes(log + c)| == |Outcomes(log)| + |Outcomes(c)|
  {
    hide Outcomes, Bindings, Count;
    OutcomesAppend(log, c);
    BindingsAppend(log, c);
    CountAppend(log, c, Success);
    CountAppend(log, c, Failure);
  }

  /** Over any run the success counter is twice the number of bindings, the failure
      counter the number of the other cycles, and every cycle has one outcome. */
  lemma {:induction false} RunMetrics(rounds: seq<Round>, maxAttempts: int)
    ensures var log := Log(rounds, maxAttempts);
            && Count(log, Success) == 2 * Bindings(log)
            && Count(log, Failure) == |rounds| - Bindings(log)
            && |Outcomes(log)| == |rounds|
  {
    if rounds != [] {
      var before, r := rounds[..|rounds| - 1], rounds[|rounds| - 1];
      var log, c := Log(before, maxAttempts), Cycle(r.env, r.popped, maxAttempts);
      RunMetrics(before, maxAttempts);
      CycleMetrics(r.env, r.popped, maxAttempts);
      ExactlyOneOutcome(r.env, r.popped, maxAttempts);
      MetricsAdd(log, c);
    }
  }

  // ---- the scheduler, appending to its log ----

  class Scheduler {
    var log: seq<Event>
    const maxAttempts: int

    constructor (maxAttempts: int)
      ensures log == [] && this.maxAttempts == maxAttempts
    {
      log := [];
      this.maxAttempts := maxAttempts;
    }

    method Emit(e: Event)
      modifies this
      ensures log == old(log) + [e]
    {
      log := log + [e];
    }

    method FindFeasibleNodes(nodes: seq<string>, passes: nat -> bool) returns (feasible: seq<string>)
      ensures feasible == Feasible(nodes, passes)
    {
      feasible := [];
      for i := 0 to |nodes|
        invariant feasible == Feasible(nodes[..i], passes)
      {
        if passes(i) {
          feasible := feasible + [nodes[i]];
        }
        assert nodes[..i + 1][..i] == nodes[..i];
      }
      assert nodes[..|nodes|] == nodes;
    }

    method SelectNode(scores: seq<NodeScore>) returns (best: Option<NodeScore>)
      ensures best.None? <==> scores == []
      ensures scores != [] ==> best == Some(scores[BestIndex(scores)])
    {
      if |scores| == 0 {
        return None;
      }
      var b := scores[0];
      ghost var at := 0;
      for i := 1 to |scores|
        invariant IsBest(scores[..i], at) && b == scores[at]
      {
        if scores[i].score > b.score {
          b, at := scores[i], i;
        }
      }
      assert scores[..|scores|] == scores;
      best := Some(b);
    }

    method Schedule(env: Env) returns (r: Schedule)
      modifies this
      ensures r == ScheduleSandbox(env) && log == old(log) + r.events
    {
      ghost var start := log;
      if !env.preFilter || env.listed.None? {
        return Failed([]);
      }
      var feasible := FindFeasibleNodes(env.listed.value, env.passes);
      if |feasible| == 0 || !env.preScore || env.scores.None? {
        return Failed([]);
      }
      var best := SelectNode(env.scores.value);
      if best.None? {
        return Failed([]);
      }
      var n := best.value.name;
      Emit(Reserve(n, env.reserve));
      if !env.reserve {
        return Failed([Reserve(n, false)]);
      }
      Emit(Permit(n, env.permit));
      if !env.permit {
        Emit(Unreserve(n));
        assert log == start + [Reserve(n, true), Permit(n, false), Unreserve(n)];
        return Failed([Reserve(n, true), Permit(n, false), Unreserve(n)]);
      }
      assert log == start + [Reserve(n, true), Permit(n, true)];
      r := Placed([Reserve(n, true), Permit(n, true)], n, Evaluated(env));
    }

    method BindTo(env: Env, n: string) returns (ok: bool)
      modifies this
      ensures ok == Binds(env) && log == old(log) + BindSandbox(env, n)
    {
      ghost var start := log;
      Emit(PreBind(n, env.preBind));
      if !env.preBind {
        Emit(Unreserve(n));
        assert log == start + [PreBind(n, false), Unreserve(n)];
        return false;
      }
      Emit(Bind(n, env.bind));
      if !env.bind {
        Emit(Unreserve(n));
        assert log == start + [PreBind(n, true), Bind(n, false), Unreserve(n)];
        return false;
      }
      Emit(PostBind(n));
      Emit(Success);
      assert log == start + [PreBind(n, true), Bind(n, true), PostBind(n), Success];
      ok := true;
    }

    method HandleSchedulingFailure(p: Popped)
      modifies this
      ensures log == old(log) + HandleFailure(p, maxAttempts)
    {
      Emit(Failure);
      if ToInt32(p.attempts) < maxAttempts {
        Emit(Requeue(p.key));
      } else {
        Emit(Unschedulable(p.key));
      }
    }

    /** popped is None when the queue is empty or reports an error. */
    method SchedulingCycle(env: Env, popped: Option<Popped>)
      modifies this
      ensures log == old(log) + if popped.Some? then Cycle(env, popped.value, maxAttempts) else []
    {
      if popped.None? {
        return;
      }
      var p := popped.value;
      var r := Schedule(env);
      if r.Failed? || r.evaluated == 0 {
        HandleSchedulingFailure(p);
        return;
      }
      var bound := BindTo(env, r.host);
      if !bound {
        HandleSchedulingFailure(p);
        return;
      }
      Emit(Success);
    }
  }
}
