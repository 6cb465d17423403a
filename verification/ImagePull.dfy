/** Deduplicated image pulls. A call to PullImage is two critical sections with
    the pull itself, or a wait for somebody else's pull, in between; removals and
    pruning may happen at any point. Each critical section is one step. */
module ImagePull {
  import opened Wrappers

  type Time = int
  type TaskId = nat
  type CallId = nat

  datatype Info = Info(pulledAt: Time, lastUsedAt: Time)

  datatype Task = Task(ref: string, done: bool, err: Option<string>)

  /** What the first critical section of PullImage finds. */
  datatype Decision = CacheHit | Wait(task: TaskId) | Start(task: TaskId)

  datatype Manager = Manager(cache: map<string, Info>, pullers: map<string, TaskId>, tasks: seq<Task>) {
    function Decide(ref: string): Decision {
      if ref in cache then CacheHit
      else if ref in pullers then Wait(pullers[ref])
      else Start(|tasks|)
    }

    function Entered(ref: string): Manager {
      if Decide(ref).Start?
      then Manager(cache, pullers[ref := |tasks|], tasks + [Task(ref, false, None)])
      else this
    }

    function Completed(ref: string, task: TaskId, err: Option<string>, now: Time): Manager
      requires task < |tasks|
    {
      Manager(if err.None? then cache[ref := Info(now, now)] else cache,
              pullers - {ref},
              tasks[task := Task(tasks[task].ref, true, err)])
    }

    function Touched(ref: string, now: Time): Manager {
      if ref in cache then this.(cache := cache[ref := cache[ref].(lastUsedAt := now)]) else this
    }

    function Removed(ref: string, deleted: bool): Manager {
      if deleted then this.(cache := cache - {ref}) else this
    }

    predicate Stale(ref: string, now: Time, maxAge: int, deletable: set<string>) {
      ref in cache && now - cache[ref].lastUsedAt > maxAge && ref in deletable
    }

    function Victims(now: Time, maxAge: int, deletable: set<string>): set<string> {
      set ref | ref in cache && Stale(ref, now, maxAge, deletable)
    }

    function Pruned(now: Time, maxAge: int, deletable: set<string>): Manager {
      this.(cache := cache - Victims(now, maxAge, deletable))
    }
  }

  /** A call waits or pulls, and finally returns its error; via is the task it
      pulled or waited on, and since the number of steps taken before it entered. */
  datatype Call =
    | Pulling(ref: string, task: TaskId, since: nat)
    | Waiting(ref: string, task: TaskId, since: nat)
    | Returned(ref: string, err: Option<string>, via: Decision, since: nat)

  /** history records which refs were cached initially and after every step. */
  datatype State = State(m: Manager, calls: map<CallId, Call>, history: seq<set<string>>)

  datatype Step =
    | Enter(call: CallId, ref: string)
    | Finish(call: CallId, err: Option<string>, now: Time)
    | Wake(call: CallId)
    | Touch(ref: string, now: Time)
    | Remove(ref: string, deleted: bool)
    | Prune(now: Time, maxAge: int, deletable: set<string>)

  const Init: State := State(Manager(map[], map[], []), map[], [{}])

  predicate Enabled(s: State, step: Step) {
    match step
    case Enter(c, _) => c !in s.calls && |s.history| > 0
    case Finish(c, _, _) => c in s.calls && s.calls[c].Pulling? && s.calls[c].task < |s.m.tasks|
    case Wake(c) => c in s.calls && s.calls[c].Waiting? && s.calls[c].task < |s.m.tasks| && s.m.tasks[s.calls[c].task].done
    case _ => true
  }

  function Next(s: State, step: Step): State
    requires Enabled(s, step)
  {
    var m := NextManager(s, step);
    State(m, NextCalls(s, step), s.history + [m.cache.Keys])
  }

  function NextManager(s: State, step: Step): Manager
    requires Enabled(s, step)
  {
    match step
    case Enter(_, ref) => s.m.Entered(ref)
    case Finish(c, err, now) => s.m.Completed(s.calls[c].ref, s.calls[c].task, err, now)
    case Wake(_) => s.m
    case Touch(ref, now) => s.m.Touched(ref, now)
    case Remove(ref, deleted) => s.m.Removed(ref, deleted)
    case Prune(now, maxAge, deletable) => s.m.Pruned(now, maxAge, deletable)
  }

  function NextCalls(s: State, step: Step): map<CallId, Call>
    requires Enabled(s, step)
  {
    match step
    case Enter(c, ref) =>
      var since := |s.history| - 1;
      (match s.m.Decide(ref)
       case CacheHit => s.calls[c := Returned(ref, None, CacheHit, since)]
       case Wait(t) => s.calls[c := Waiting(ref, t, since)]
       case Start(t) => s.calls[c := Pulling(ref, t, since)])
    case Finish(c, err, _) => s.calls[c := Returned(s.calls[c].ref, err, Start(s.calls[c].task), s.calls[c].since)]
    case Wake(c) =>
      s.calls[c := Returned(s.calls[c].ref, s.m.tasks[s.calls[c].task].err, Wait(s.calls[c].task), s.calls[c].since)]
    case _ => s.calls
  }

  /** The state a sequence of steps leads to, if each was enabled in turn. */
  function Exec(steps: seq<Step>): Option<State> {
    if steps == [] then Some(Init)
    else
      var before := Exec(steps[..|steps| - 1]);
      var step := steps[|steps| - 1];
      if before.Some? && Enabled(before.value, step) then Some(Next(before.value, step)) else None
  }

  /** Cached at some point from the state the call entered in up to now. */
  ghost predicate CachedSince(s: State, ref: string, since: nat) {
    exists k :: since <= k < |s.history| && ref in s.history[k]
  }

  ghost predicate TasksWellFormed(s: State) {
    && (forall r | r in s.m.pullers :: s.m.pullers[r] < |s.m.tasks| && s.m.tasks[s.m.pullers[r]] == Task(r, false, None))
    && (forall t | 0 <= t < |s.m.tasks| && !s.m.tasks[t].done ::
          s.m.tasks[t].ref in s.m.pullers && s.m.pullers[s.m.tasks[t].ref] == t)
    && s.m.cache.Keys !! s.m.pullers.Keys
    && |s.history| > 0 && s.history[|s.history| - 1] == s.m.cache.Keys
  }

  ghost predicate CallOk(s: State, call: Call) {
    && call.since < |s.history|
    && match call
       case Pulling(ref, t, _) => ref in s.m.pullers && s.m.pullers[ref] == t
       case Waiting(ref, t, since) =>
         && t < |s.m.tasks| && s.m.tasks[t].ref == ref
         && (s.m.tasks[t].done && s.m.tasks[t].err.None? ==> CachedSince(s, ref, since))
       case Returned(ref, err, via, since) =>
         && (err.None? ==> CachedSince(s, ref, since))
         && (via.CacheHit? ==> err.None?)
         && (!via.CacheHit? ==>
               via.task < |s.m.tasks| && s.m.tasks[via.task] == Task(ref, true, err))
  }

  predicate Pulls(s: State, c: CallId, t: TaskId) {
    && c in s.calls
    && ((s.calls[c].Pulling? && s.calls[c].task == t) || (s.calls[c].Returned? && s.calls[c].via == Start(t)))
  }

  ghost predicate HasPuller(s: State, t: TaskId) {
    exists c :: Pulls(s, c, t)
  }

  /** Every task ever started has exactly one call that pulls it. */
  ghost predicate OnePullerEach(s: State) {
    && (forall t: TaskId | t < |s.m.tasks| :: HasPuller(s, t))
    && (forall c, c', t: TaskId | Pulls(s, c, t) && Pulls(s, c', t) :: c == c')
    && (forall c, t: TaskId | Pulls(s, c, t) :: t < |s.m.tasks|)
  }

  ghost predicate Inv(s: State) {
    && TasksWellFormed(s)
    && (forall c | c in s.calls :: CallOk(s, s.calls[c]))
    && OnePullerEach(s)
  }

  lemma TasksStep(s: State, step: Step)
    requires Inv(s) && Enabled(s, step)
    ensures TasksWellFormed(Next(s, step))
  {
    if step.Finish? {
      assert CallOk(s, s.calls[step.call]);
    }
  }

  lemma HistoryGrows(s: State, step: Step, ref: string, since: nat)
    requires Enabled(s, step) && CachedSince(s, ref, since)
    ensures CachedSince(Next(s, step), ref, since)
  {
    var k :| since <= k < |s.history| && ref in s.history[k];
    assert Next(s, step).history[k] == s.history[k];
  }

  lemma CachedNow(s: State, ref: string, since: nat)
    requires |s.history| > since && s.history[|s.history| - 1] == s.m.cache.Keys && ref in s.m.cache
    ensures CachedSince(s, ref, since)
  {
    assert ref in s.history[|s.history| - 1];
  }

  /** A call the step does not concern stays well formed. */
  lemma OtherCall(s: State, step: Step, c: CallId)
    requires Inv(s) && Enabled(s, step) && c in s.calls
    requires match step case Finish(d, _, _) => c != d case Wake(d) => c != d case _ => true
    ensures CallOk(Next(s, step), s.calls[c])
  {
    var call, s' := s.calls[c], Next(s, step);
    assert CallOk(s, call);
    TasksStep(s, step);
    if CachedSince(s, call.ref, call.since) {
      HistoryGrows(s, step, call.ref, call.since);
    }
    if step.Finish? {
      var done := s.calls[step.call];
      assert CallOk(s, done) && Pulls(s, step.call, done.task);
      if call.Pulling? {
        assert Pulls(s, c, call.task);
        assert call.task != done.task;
      } else if call.Waiting? && call.task == done.task && step.err.None? {
        CachedNow(s', call.ref, call.since);
      }
    }
  }

  lemma OwnCall(s: State, step: Step)
    requires Inv(s) && Enabled(s, step) && (step.Enter? || step.Finish? || step.Wake?)
    ensures CallOk(Next(s, step), Next(s, step).calls[step.call])
  {
    var s' := Next(s, step);
    TasksStep(s, step);
    if step.Enter? {
      if s.m.Decide(step.ref).CacheHit? {
        assert step.ref in s.history[|s.history| - 1];
        assert s'.history[|s.history| - 1] == s.history[|s.history| - 1];
      }
    } else {
      var call := s.calls[step.call];
      assert CallOk(s, call);
      if step.Finish? && step.err.None? {
        CachedNow(s', call.ref, call.since);
      } else if step.Wake? && CachedSince(s, call.ref, call.since) {
        HistoryGrows(s, step, call.ref, call.since);
      }
    }
  }

  lemma PullersStep(s: State, step: Step)
    requires Inv(s) && Enabled(s, step)
    ensures OnePullerEach(Next(s, step))
  {
    var s' := Next(s, step);
    forall t: TaskId | t < |s'.m.tasks|
      ensures HasPuller(s', t)
    {
      if t < |s.m.tasks| {
        assert HasPuller(s, t);
        var c :| Pulls(s, c, t);
        assert Pulls(s', c, t);
      } else {
        assert Pulls(s', step.call, t);
      }
    }
    forall c, t: TaskId | Pulls(s', c, t)
      ensures Pulls(s, c, t) || (t == |s.m.tasks| && step.Enter? && step.call == c && s.m.Decide(step.ref).Start?)
    {
    }
  }

  lemma InvStep(s: State, step: Step)
    requires Inv(s) && Enabled(s, step)
    ensures Inv(Next(s, step))
  {
    TasksStep(s, step);
    PullersStep(s, step);
    var s' := Next(s, step);
    forall c | c in s'.calls
      ensures CallOk(s', s'.calls[c])
    {
      if (step.Enter? || step.Finish? || step.Wake?) && step.call == c {
        OwnCall(s, step);
      } else {
        OtherCall(s, step, c);
      }
    }
  }

  lemma {:induction false} Reachable(steps: seq<Step>)
    requires Exec(steps).Some?
    ensures Inv(Exec(steps).value)
  {
    if steps != [] {
      Reachable(steps[..|steps| - 1]);
      InvStep(Exec(steps[..|steps| - 1]).value, steps[|steps| - 1]);
    }
  }

  predicate PullsRef(s: State, c: CallId, ref: string) {
    c in s.calls && s.calls[c].Pulling? && s.calls[c].ref == ref
  }

  lemma PullsRefIsTask(s: State, c: CallId, ref: string)
    requires Inv(s)
    ensures PullsRef(s, c, ref) <==> ref in s.m.pullers && Pulls(s, c, s.m.pullers[ref])
  {
    if c in s.calls {
      assert CallOk(s, s.calls[c]);
    }
  }

  /** Single flight: nothing is both cached and in progress, and a ref is in
      progress exactly when a call is pulling it, which then is the only one. */
  lemma SingleFlight(steps: seq<Step>)
    requires Exec(steps).Some?
    ensures var s := Exec(steps).value;
            && s.m.cache.Keys !! s.m.pullers.Keys
            && (forall ref :: ref in s.m.pullers <==> exists c :: PullsRef(s, c, ref))
            && (forall ref, c, c' | PullsRef(s, c, ref) && PullsRef(s, c', ref) :: c == c')
  {
    Reachable(steps);
    var s := Exec(steps).value;
    forall c, ref
      ensures PullsRef(s, c, ref) <==> ref in s.m.pullers && Pulls(s, c, s.m.pullers[ref])
    {
      PullsRefIsTask(s, c, ref);
    }
    forall ref | ref in s.m.pullers
      ensures exists c :: PullsRef(s, c, ref)
    {
      assert HasPuller(s, s.m.pullers[ref]);
      var c :| Pulls(s, c, s.m.pullers[ref]);
      assert PullsRef(s, c, ref);
    }
  }

  /** The call that pulled the task w waits for has returned the error err. */
  predicate PullerReturned(s: State, p: CallId, task: TaskId, ref: string, err: Option<string>) {
    p in s.calls && s.calls[p].Returned? && s.calls[p].via == Start(task) && s.calls[p].ref == ref && s.calls[p].err == err
  }

  /** Every waiter that returned got the error its puller returned, and a waiter
      that cannot wake yet has the call it waits for still pulling. */
  lemma WaitersFollowTheirPuller(steps: seq<Step>, w: CallId)
    requires Exec(steps).Some? && w in Exec(steps).value.calls
    ensures var s := Exec(steps).value;
            var call := s.calls[w];
            && (call.Returned? && call.via.Wait? ==>
                  exists p :: PullerReturned(s, p, call.via.task, call.ref, call.err))
            && (call.Waiting? && !Enabled(s, Wake(w)) ==>
                  exists p :: PullsRef(s, p, call.ref) && s.calls[p].task == call.task)
  {
    Reachable(steps);
    var s := Exec(steps).value;
    var call := s.calls[w];
    assert CallOk(s, call);
    if call.Waiting? || (call.Returned? && call.via.Wait?) {
      var t := if call.Waiting? then call.task else call.via.task;
      assert HasPuller(s, t);
      var p :| Pulls(s, p, t);
      assert CallOk(s, s.calls[p]);
      if call.Returned? {
        assert PullerReturned(s, p, t, call.ref, call.err);
      } else if !Enabled(s, Wake(w)) {
        assert PullsRef(s, p, call.ref);
      }
    }
  }

  /** A nil return means the ref was in the cache at some point of the call. */
  lemma NilMeansCached(steps: seq<Step>, c: CallId)
    requires Exec(steps).Some? && c in Exec(steps).value.calls
    ensures var s := Exec(steps).value;
            s.calls[c].Returned? && s.calls[c].err.None? ==>
              exists k :: s.calls[c].since <= k < |s.history| && s.calls[c].ref in s.history[k]
  {
    Reachable(steps);
    assert CallOk(Exec(steps).value, Exec(steps).value.calls[c]);
  }

  /** The pulls of ref that succeeded. */
  function Successes(steps: seq<Step>, ref: string): nat
    requires Exec(steps).Some?
  {
    if steps == [] then 0
    else
      var s, step := Exec(steps[..|steps| - 1]).value, steps[|steps| - 1];
      Successes(steps[..|steps| - 1], ref) +
      if step.Finish? && step.err.None? && s.calls[step.call].ref == ref then 1 else 0
  }

  /** The removals and prunings that found ref in the cache and deleted it. */
  function RemovalHits(steps: seq<Step>, ref: string): nat
    requires Exec(steps).Some?
  {
    if steps == [] then 0
    else
      var s, step := Exec(steps[..|steps| - 1]).value, steps[|steps| - 1];
      RemovalHits(steps[..|steps| - 1], ref) +
      match step
      case Remove(r, deleted) => if deleted && r == ref && ref in s.m.cache then 1 else 0
      case Prune(now, maxAge, deletable) => if s.m.Stale(ref, now, maxAge, deletable) then 1 else 0
      case _ => 0
  }

  /** Successful pulls minus removals that hit is 1 for a cached ref and 0 otherwise. */
  lemma {:induction false} PullBalance(steps: seq<Step>, ref: string)
    requires Exec(steps).Some?
    ensures Successes(steps, ref) - RemovalHits(steps, ref) == if ref in Exec(steps).value.m.cache then 1 else 0
  {
    if steps != [] {
      var before, step := steps[..|steps| - 1], steps[|steps| - 1];
      PullBalance(before, ref);
      Reachable(before);
      var s := Exec(before).value;
      if step.Finish? {
        assert CallOk(s, s.calls[step.call]);
      }
    }
  }

  /** The ref a call was entered with, by the steps alone. */
  function EnteredWith(steps: seq<Step>, c: CallId): Option<string> {
    if steps == [] then None
    else
      var step := steps[|steps| - 1];
      if step.Enter? && step.call == c then Some(step.ref) else EnteredWith(steps[..|steps| - 1], c)
  }

  /** When a ref was last pulled and last used, by the steps alone; None if it was never
      pulled, or removed since: by a deletion, or by a pruning it was too old for. */
  function LastUse(steps: seq<Step>, ref: string): Option<Info> {
    if steps == [] then None
    else
      var before, step := LastUse(steps[..|steps| - 1], ref), steps[|steps| - 1];
      match step
      case Finish(c, err, now) => if err.None? && EnteredWith(steps[..|steps| - 1], c) == Some(ref) then Some(Info(now, now)) else before
      case Touch(r, now) => if r == ref && before.Some? then Some(Info(before.value.pulledAt, now)) else before
      case Remove(r, deleted) => if r == ref && deleted then None else before
      case Prune(now, maxAge, deletable) =>
        if before.Some? && now - before.value.lastUsedAt > maxAge && ref in deletable then None else before
      case _ => before
  }

  lemma {:induction false} CallsAreEntered(steps: seq<Step>, c: CallId)
    requires Exec(steps).Some?
    ensures var calls := Exec(steps).value.calls;
            && (c in calls <==> EnteredWith(steps, c).Some?)
            && (c in calls ==> calls[c].ref == EnteredWith(steps, c).value)
  {
    if steps != [] {
      CallsAreEntered(steps[..|steps| - 1], c);
    }
  }

  /** In every reachable state the cache holds exactly the refs pulled and not removed since,
      with the times of the latest pull and the latest use: a pruning removes a ref exactly
      when that use is older than the age and the runtime can delete it. */
  lemma {:induction false} CacheIsLastUse(steps: seq<Step>, ref: string)
    requires Exec(steps).Some?
    ensures var cache := Exec(steps).value.m.cache;
            && (ref in cache <==> LastUse(steps, ref).Some?)
            && (ref in cache ==> cache[ref] == LastUse(steps, ref).value)
  {
    if steps != [] {
      var before, step := steps[..|steps| - 1], steps[|steps| - 1];
      CacheIsLastUse(before, ref);
      if step.Finish? {
        CallsAreEntered(before, step.call);
      }
    }
  }

  /** The manager's critical sections, updating its maps in place. */
  class ImageManager {
    var cache: map<string, Info>
    var pullers: map<string, TaskId>
    var tasks: seq<Task>

    ghost function Model(): Manager
      reads this
    {
      Manager(cache, pullers, tasks)
    }

    constructor ()
      ensures Model() == Init.m
    {
      cache, pullers, tasks := map[], map[], [];
    }

    method BeginPull(ref: string) returns (d: Decision)
      modifies this
      ensures d == old(Model()).Decide(ref)
      ensures Model() == old(Model()).Entered(ref)
    {
      if ref in cache {
        return CacheHit;
      }
      if ref in pullers {
        return Wait(pullers[ref]);
      }
      d := Start(|tasks|);
      tasks := tasks + [Task(ref, false, None)];
      pullers := pullers[ref := d.task];
    }

    method EndPull(ref: string, task: TaskId, pullErr: Option<string>, now: Time) returns (err: Option<string>)
      requires task < |tasks| && tasks[task] == Task(ref, false, None)
      modifies this
      ensures err == pullErr
      ensures Model() == old(Model()).Completed(ref, task, pullErr, now)
    {
      if pullErr.Some? {
        tasks := tasks[task := tasks[task].(err := pullErr)];
      } else {
        cache := cache[ref := Info(now, now)];
      }
      pullers := pullers - {ref};
      tasks := tasks[task := tasks[task].(done := true)];
      err := tasks[task].err;
    }

    method GetImage(ref: string, now: Time) returns (info: Option<Info>)
      modifies this
      ensures info.Some? <==> ref in old(cache)
      ensures info.Some? ==> info.value == old(cache)[ref].(lastUsedAt := now)
      ensures Model() == old(Model()).Touched(ref, now)
    {
      if ref !in cache {
        return None;
      }
      cache := cache[ref := cache[ref].(lastUsedAt := now)];
      info := Some(cache[ref]);
    }

    method RemoveImage(ref: string, deleted: bool) returns (ok: bool)
      modifies this
      ensures ok == deleted
      ensures Model() == old(Model()).Removed(ref, deleted)
    {
      if !deleted {
        return false;
      }
      cache := cache - {ref};
      ok := true;
    }

    method PruneImages(now: Time, maxAge: int, deletable: set<string>) returns (pruned: nat)
      modifies this
      ensures pruned == |old(Model()).Victims(now, maxAge, deletable)|
      ensures Model() == old(Model()).Pruned(now, maxAge, deletable)
    {
      ghost var m := Model();
      ghost var gone: set<string> := {};
      var todo := cache.Keys;
      pruned := 0;
      while todo != {}
        invariant todo <= m.cache.Keys && todo !! gone
        invariant gone == set ref | ref in m.Victims(now, maxAge, deletable) && ref !in todo
        invariant Model() == m.(cache := m.cache - gone) && pruned == |gone|
        decreases |todo|
      {
        var ref :| ref in todo;
        if now - cache[ref].lastUsedAt > maxAge && ref in deletable {
          cache := cache - {ref};
          pruned := pruned + 1;
          gone := gone + {ref};
        }
        todo := todo - {ref};
      }
      assert gone == m.Victims(now, maxAge, deletable);
    }
  }
}
