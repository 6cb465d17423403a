/** GPU devices handed out to sandboxes. Devices are numbered from zero; a table maps
    each sandbox to the list of devices it was given last. */
module Gpu {
  import opened Wrappers

  type Table = map<string, seq<int>>

  /** What a caller of AllocateGPUs gets: no list and no error, a list, or an error.
      A negative count passes the length test and then fails as a slice bound. */
  datatype Outcome = NoRequest | Devices(ids: seq<int>) | Insufficient | Panic

  ghost predicate Taken(allocs: Table, i: int) {
    exists s | s in allocs :: i in allocs[s]
  }

  /** The devices below n that nobody holds, lowest first. */
  ghost function FreeBelow(allocs: Table, n: nat): (free: seq<int>)
    ensures forall k | 0 <= k < |free| :: 0 <= free[k] < n && !Taken(allocs, free[k])
    ensures forall j, k | 0 <= j < k < |free| :: free[j] < free[k]
  {
    if n == 0 then []
    else
      var lower := FreeBelow(allocs, n - 1);
      if Taken(allocs, n - 1) then lower else lower + [n - 1]
  }

  lemma {:induction false} FreeComplete(allocs: Table, n: nat, i: int)
    requires 0 <= i < n && !Taken(allocs, i)
    ensures i in FreeBelow(allocs, n)
  {
    if i < n - 1 {
      FreeComplete(allocs, n - 1, i);
    } else {
      assert (FreeBelow(allocs, n - 1) + [n - 1])[|FreeBelow(allocs, n - 1)|] == i;
    }
  }

  /** count is the number parsed from the request; no request is None. */
  ghost function Answer(n: nat, allocs: Table, count: Option<int>): Outcome {
    if count.None? || count.value == 0 then NoRequest
    else if |FreeBelow(allocs, n)| < count.value then Insufficient
    else if count.value < 0 then Panic
    else Devices(FreeBelow(allocs, n)[..count.value])
  }

  ghost function AfterAllocate(n: nat, allocs: Table, sandbox: string, count: Option<int>): Table {
    var answer := Answer(n, allocs, count);
    if answer.Devices? then allocs[sandbox := answer.ids] else allocs
  }

  // ---- what every table keeps ----

  ghost predicate Distinct(s: seq<int>) {
    forall j, k | 0 <= j < k < |s| :: s[j] != s[k]
  }

  /** Devices exist, no list repeats one, and no two sandboxes share one. */
  ghost predicate Sound(n: nat, allocs: Table) {
    && (forall s, i | s in allocs && i in allocs[s] :: 0 <= i < n)
    && (forall s | s in allocs :: Distinct(allocs[s]))
    && (forall s, t, i | s in allocs && t in allocs && i in allocs[s] && i in allocs[t] :: s == t)
  }

  datatype Step = Allocate(sandbox: string, count: Option<int>) | Release(sandbox: string)

  ghost function Next(n: nat, allocs: Table, step: Step): Table {
    match step
    case Allocate(s, count) => AfterAllocate(n, allocs, s, count)
    case Release(s) => allocs - {s}
  }

  ghost function Run(n: nat, steps: seq<Step>): Table {
    if steps == [] then map[] else Next(n, Run(n, steps[..|steps| - 1]), steps[|steps| - 1])
  }

  lemma AllocateKeepsSound(n: nat, allocs: Table, sandbox: string, count: Option<int>)
    requires Sound(n, allocs)
    ensures Sound(n, AfterAllocate(n, allocs, sandbox, count))
  {
    var answer := Answer(n, allocs, count);
    if answer.Devices? {
      forall i | i in answer.ids
        ensures 0 <= i < n && !Taken(allocs, i)
      {
        assert i in FreeBelow(allocs, n);
      }
    }
  }

  /** In every reachable table devices are in range and held once, also when a sandbox
      that already holds some asks again. */
  lemma {:induction false} AlwaysSound(n: nat, steps: seq<Step>)
    ensures Sound(n, Run(n, steps))
  {
    if steps != [] {
      var before, step := steps[..|steps| - 1], steps[|steps| - 1];
      AlwaysSound(n, before);
      if step.Allocate? {
        AllocateKeepsSound(n, Run(n, before), step.sandbox, step.count);
      }
    }
  }

  // ---- what is recorded is what was answered ----

  /** A request is answered without a list exactly when it asks for nothing; only an answer
      with a list changes the table, which then holds exactly that list for the sandbox. */
  lemma RecordsAnswer(n: nat, allocs: Table, sandbox: string, count: Option<int>)
    ensures var answer, after := Answer(n, allocs, count), AfterAllocate(n, allocs, sandbox, count);
            && (answer.NoRequest? <==> count == None || count == Some(0))
            && (!answer.Devices? ==> after == allocs)
            && (answer.Devices? ==> sandbox in after && after[sandbox] == answer.ids)
            && (forall s | s != sandbox :: (s in after <==> s in allocs) && (s in after ==> after[s] == allocs[s]))
  {
  }

  /** Call i gave the sandbox this list. */
  ghost predicate Gave(n: nat, steps: seq<Step>, i: nat, sandbox: string, ids: seq<int>) {
    && i < |steps| && steps[i].Allocate? && steps[i].sandbox == sandbox
    && Answer(n, Run(n, steps[..i]), steps[i].count) == Devices(ids)
  }

  /** Call j released or replaced what the sandbox had. */
  ghost predicate Ended(n: nat, steps: seq<Step>, j: nat, sandbox: string) {
    && j < |steps|
    && (steps[j] == Release(sandbox) || exists ids :: Gave(n, steps, j, sandbox, ids))
  }

  /** The answer of call i still stands after the run. */
  ghost predicate Outstanding(n: nat, steps: seq<Step>, i: nat, sandbox: string, ids: seq<int>) {
    Gave(n, steps, i, sandbox, ids) && forall j: nat | i < j < |steps| :: !Ended(n, steps, j, sandbox)
  }

  lemma LongerRun(n: nat, before: seq<Step>, step: Step, i: nat, sandbox: string)
    requires i < |before|
    ensures forall ids :: Gave(n, before + [step], i, sandbox, ids) <==> Gave(n, before, i, sandbox, ids)
    ensures Ended(n, before + [step], i, sandbox) <==> Ended(n, before, i, sandbox)
  {
    assert (before + [step])[..i] == before[..i] && (before + [step])[i] == before[i];
    assert forall ids :: Gave(n, before + [step], i, sandbox, ids) <==> Gave(n, before, i, sandbox, ids);
  }

  lemma StillOutstanding(n: nat, before: seq<Step>, step: Step, i: nat, sandbox: string, ids: seq<int>)
    requires i < |before|
    ensures Outstanding(n, before + [step], i, sandbox, ids) <==>
              Outstanding(n, before, i, sandbox, ids) && !Ended(n, before + [step], |before|, sandbox)
  {
    hide Gave, Ended;
    LongerRun(n, before, step, i, sandbox);
    forall j: nat | i < j < |before|
      ensures Ended(n, before + [step], j, sandbox) <==> Ended(n, before, j, sandbox)
    {
      LongerRun(n, before, step, j, sandbox);
    }
  }

  lemma LastGave(n: nat, before: seq<Step>, step: Step, sandbox: string)
    ensures var steps := before + [step];
            forall ids :: Gave(n, steps, |before|, sandbox, ids) <==>
              step.Allocate? && step.sandbox == sandbox && Answer(n, Run(n, before), step.count) == Devices(ids)
  {
    assert (before + [step])[..|before|] == before;
  }

  /** In every run the table holds a list for a sandbox exactly when an outstanding answer gave it that list. */
  lemma {:induction false} TableIsOutstanding(n: nat, steps: seq<Step>, sandbox: string, ids: seq<int>)
    ensures (sandbox in Run(n, steps) && Run(n, steps)[sandbox] == ids) <==> exists i: nat :: Outstanding(n, steps, i, sandbox, ids)
  {
    if steps != [] {
      var m := |steps| - 1;
      var before, step := steps[..m], steps[m];
      assert steps == before + [step];
      TableIsOutstanding(n, before, sandbox, ids);
      LastGave(n, before, step, sandbox);
      if step.Allocate? {
        RecordsAnswer(n, Run(n, before), step.sandbox, step.count);
      }
      if i: nat :| Outstanding(n, steps, i, sandbox, ids) {
        if i < m {
          StillOutstanding(n, before, step, i, sandbox, ids);
        }
      }
      if i: nat :| Outstanding(n, before, i, sandbox, ids) {
        StillOutstanding(n, before, step, i, sandbox, ids);
      }
      if Gave(n, steps, m, sandbox, ids) {
        assert Outstanding(n, steps, m, sandbox, ids);
      }
      assert Run(n, steps) == Next(n, Run(n, before), step);
    }
  }

  /** Over every run the answers that still stand are lists of existing, different devices, one
      for each sandbox, and no device is in two of them. */
  lemma AnswersDisjoint(n: nat, steps: seq<Step>, i: nat, j: nat, s: string, t: string, ids: seq<int>, ids': seq<int>)
    requires Outstanding(n, steps, i, s, ids) && Outstanding(n, steps, j, t, ids')
    ensures Distinct(ids) && forall d | d in ids :: 0 <= d < n
    ensures s == t <==> i == j
    ensures i != j ==> forall d | d in ids :: d !in ids'
  {
    TableIsOutstanding(n, steps, s, ids);
    TableIsOutstanding(n, steps, t, ids');
    AlwaysSound(n, steps);
    assert Ended(n, steps, i, s) && Ended(n, steps, j, t);
  }

  // ---- conservation ----

  ghost function Elements(s: seq<int>): set<int> {
    set i | i in s
  }

  ghost function Held(allocs: Table): set<int> {
    set s, i | s in allocs && i in allocs[s] :: i
  }

  ghost function Pick(allocs: Table): (s: string)
    requires allocs != map[]
    ensures s in allocs
  {
    var s :| s in allocs;
    s
  }

  ghost function TotalSize(allocs: Table): nat {
    if allocs == map[] then 0 else |allocs[Pick(allocs)]| + TotalSize(allocs - {Pick(allocs)})
  }

  ghost function Below(n: nat): (all: set<int>)
    ensures forall i :: i in all <==> 0 <= i < n
    ensures |all| == n
  {
    if n == 0 then {} else Below(n - 1) + {n - 1}
  }

  lemma {:induction false} DistinctSize(s: seq<int>)
    requires Distinct(s)
    ensures |Elements(s)| == |s|
  {
    if s != [] {
      var init := s[..|s| - 1];
      DistinctSize(init);
      assert s == init + [s[|s| - 1]];
      assert Elements(s) == Elements(init) + {s[|s| - 1]};
    }
  }

  lemma {:induction false} HeldSize(n: nat, allocs: Table)
    requires Sound(n, allocs)
    ensures |Held(allocs)| == TotalSize(allocs)
    decreases |allocs|
  {
    if allocs == map[] {
      assert Held(allocs) == {};
    } else {
      var s := Pick(allocs);
      var rest := allocs - {s};
      HeldSize(n, rest);
      DistinctSize(allocs[s]);
      HeldSplit(n, allocs, s);
    }
  }

  lemma HeldSplit(n: nat, allocs: Table, s: string)
    requires Sound(n, allocs) && s in allocs
    ensures Held(allocs) == Elements(allocs[s]) + Held(allocs - {s})
    ensures Elements(allocs[s]) !! Held(allocs - {s})
  {
    var rest := allocs - {s};
    forall i | i in Held(allocs)
      ensures i in Elements(allocs[s]) + Held(rest)
    {
      var t :| t in allocs && i in allocs[t];
      assert t == s || (t in rest && i in rest[t]);
    }
    forall i | i in Elements(allocs[s])
      ensures i in Held(allocs)
    {
    }
    forall i | i in Held(rest)
      ensures i in Held(allocs) && i !in Elements(allocs[s])
    {
      var t :| t in rest && i in rest[t];
      assert t in allocs && i in allocs[t];
    }
  }

  /** Free devices plus the sizes of all allocations make up the device count. */
  lemma Conservation(n: nat, allocs: Table)
    requires Sound(n, allocs)
    ensures |FreeBelow(allocs, n)| + TotalSize(allocs) == n
  {
    var free, held := FreeBelow(allocs, n), Held(allocs);
    HeldSize(n, allocs);
    DistinctSize(free);
    forall i
      ensures i in held <==> Taken(allocs, i)
      ensures Taken(allocs, i) ==> 0 <= i < n
    {
    }
    var all := Below(n);
    forall i | i in all
      ensures i in Elements(free) + held
    {
      if !Taken(allocs, i) {
        FreeComplete(allocs, n, i);
      }
    }
    SplitSize(Elements(free), held, all);
  }

  lemma SplitSize(a: set<int>, b: set<int>, all: set<int>)
    requires all == a + b && a !! b
    ensures |a| + |b| == |all|
  {
    assert a * b == {};
  }

  /** A positive request succeeds exactly when it is at most the number of devices not
      given out, and then gets the lowest ones, in increasing order. */
  lemma RequestExact(n: nat, allocs: Table, count: int)
    requires Sound(n, allocs) && count != 0
    ensures var answer := Answer(n, allocs, Some(count));
            && (answer.Panic? <==> count < 0)
            && (answer.Insufficient? <==> count > n - TotalSize(allocs))
            && (answer.Devices? <==> 0 < count <= n - TotalSize(allocs))
            && (answer.Devices? ==> |answer.ids| == count && LowestFree(n, allocs, answer.ids))
  {
    Conservation(n, allocs);
    var answer := Answer(n, allocs, Some(count));
    if answer.Devices? {
      var free := FreeBelow(allocs, n);
      forall i, k | 0 <= i < n && !Taken(allocs, i) && i !in answer.ids && 0 <= k < count
        ensures answer.ids[k] < i
      {
        FreeComplete(allocs, n, i);
        var a :| 0 <= a < |free| && free[a] == i;
        assert forall c | 0 <= c < count :: free[c] in answer.ids;
      }
    }
  }

  /** Free devices in increasing order, and no smaller one was left out. */
  ghost predicate LowestFree(n: nat, allocs: Table, ids: seq<int>) {
    && (forall j, k | 0 <= j < k < |ids| :: ids[j] < ids[k])
    && (forall k | 0 <= k < |ids| :: 0 <= ids[k] < n && !Taken(allocs, ids[k]))
    && (forall i, k | 0 <= i < n && !Taken(allocs, i) && i !in ids && 0 <= k < |ids| :: ids[k] < i)
  }

  ghost function HeldBy(allocs: Table, sandbox: string): seq<int> {
    if sandbox in allocs then allocs[sandbox] else []
  }

  lemma TakenAfter(allocs: Table, sandbox: string, ids: seq<int>, n: nat, i: int)
    requires Sound(n, allocs)
    ensures Taken(allocs[sandbox := ids], i) <==> i in ids || (Taken(allocs, i) && i !in HeldBy(allocs, sandbox))
  {
    var after := allocs[sandbox := ids];
    if i in ids {
      assert sandbox in after && i in after[sandbox];
    } else if Taken(allocs, i) && i !in HeldBy(allocs, sandbox) {
      var s :| s in allocs && i in allocs[s];
      assert s in after && i in after[s];
    }
  }

  /** Asking again gives the old devices back, but only after the new ones were chosen:
      the free devices shrink by the request and grow by what the sandbox held. */
  lemma Reallocation(n: nat, allocs: Table, sandbox: string, count: nat)
    requires Sound(n, allocs) && 0 < count <= n - TotalSize(allocs)
    ensures var after := AfterAllocate(n, allocs, sandbox, Some(count));
            && |FreeBelow(after, n)| == |FreeBelow(allocs, n)| - count + |HeldBy(allocs, sandbox)|
            && (forall i | i in HeldBy(allocs, sandbox) :: !Taken(after, i))
  {
    Conservation(n, allocs);
    var held, free := HeldBy(allocs, sandbox), FreeBelow(allocs, n);
    var ids := free[..count];
    var left := FreeBelow(allocs[sandbox := ids], n);
    forall i
      ensures Taken(allocs[sandbox := ids], i) <==> i in ids || (Taken(allocs, i) && i !in held)
    {
      TakenAfter(allocs, sandbox, ids, n, i);
    }
    assert forall i | i in held :: Taken(allocs, i) && 0 <= i < n;
    forall i
      ensures i in left <==> i in free[count..] || i in held
    {
      assert free == ids + free[count..];
      if i in free[count..] {
        assert i in free;
        FreeComplete(allocs[sandbox := ids], n, i);
      } else if i in held {
        FreeComplete(allocs[sandbox := ids], n, i);
      } else if i in left {
        FreeComplete(allocs, n, i);
      }
    }
    Exchange(free, count, held, left);
  }

  lemma Exchange(free: seq<int>, count: nat, held: seq<int>, left: seq<int>)
    requires Distinct(free) && Distinct(held) && Distinct(left) && count <= |free|
    requires forall i | i in held :: i !in free
    requires forall i :: i in left <==> i in free[count..] || i in held
    ensures |left| == |free| - count + |held|
  {
    DistinctSize(free[count..]); DistinctSize(left); DistinctSize(held);
    assert forall i | i in free[count..] :: i in free;
    SplitSize(Elements(free[count..]), Elements(held), Elements(left));
  }

  // ---- the manager ----

  class GPUManager {
    const devices: nat
    var allocs: Table

    ghost predicate Valid()
      reads this
    {
      Sound(devices, allocs)
    }

    constructor (discovered: nat)
      ensures Valid() && devices == discovered && allocs == map[]
    {
      devices, allocs := discovered, map[];
    }

    /** The two inner loops of AllocateGPUs. */
    method IsTaken(i: int) returns (taken: bool)
      ensures taken <==> Taken(allocs, i)
    {
      taken := false;
      var rest := allocs.Keys;
      while rest != {} && !taken
        invariant rest <= allocs.Keys
        invariant taken ==> Taken(allocs, i)
        invariant !taken ==> forall s | s in allocs.Keys - rest :: i !in allocs[s]
        decreases |rest|
      {
        var s :| s in rest;
        rest := rest - {s};
        for k := 0 to |allocs[s]|
          invariant !taken && i !in allocs[s][..k]
        {
          if allocs[s][k] == i {
            taken := true;
            break;
          }
        }
      }
    }

    /** count is what the request parses to, zero when it does not parse. */
    method AllocateGPUs(sandbox: string, count: Option<int>) returns (answer: Outcome)
      requires Valid()
      modifies `allocs
      ensures Valid()
      ensures answer == Answer(devices, old(allocs), count)
      ensures allocs == AfterAllocate(devices, old(allocs), sandbox, count)
      ensures allocs == if answer.Devices? then old(allocs)[sandbox := answer.ids] else old(allocs)
    {
      if count.None? || count.value == 0 {
        return NoRequest;
      }
      var available: seq<int> := [];
      for i := 0 to devices
        invariant available == FreeBelow(allocs, i)
        invariant allocs == old(allocs)
      {
        var taken := IsTaken(i);
        if !taken {
          available := available + [i];
        }
      }
      if |available| < count.value {
        return Insufficient;
      }
      if count.value < 0 {
        return Panic;
      }
      answer := Devices(available[..count.value]);
      AllocateKeepsSound(devices, allocs, sandbox, count);
      allocs := allocs[sandbox := answer.ids];
    }

    method ReleaseGPUs(sandbox: string)
      requires Valid()
      modifies `allocs
      ensures Valid() && allocs == old(allocs) - {sandbox}
    {
      if sandbox in allocs {
        allocs := allocs - {sandbox};
      }
    }

    method GetAvailableGPUs() returns (available: nat)
      requires Valid()
      ensures available + TotalSize(allocs) == devices
    {
      var taken: set<int> := {};
      var rest := allocs.Keys;
      while rest != {}
        invariant rest <= allocs.Keys
        invariant forall i :: i in taken <==> exists s | s in allocs.Keys - rest :: i in allocs[s]
        decreases |rest|
      {
        var s :| s in rest;
        var seen := taken;
        for k := 0 to |allocs[s]|
          invariant forall i :: i in taken <==> i in seen || i in allocs[s][..k]
        {
          taken := taken + {allocs[s][k]};
        }
        assert allocs[s][..|allocs[s]|] == allocs[s];
        assert allocs.Keys - (rest - {s}) == (allocs.Keys - rest) + {s};
        rest := rest - {s};
      }
      available := 0;
      for i := 0 to devices
        invariant available == |FreeBelow(allocs, i)|
      {
        assert i in taken <==> Taken(allocs, i);
        if i !in taken {
          available := available + 1;
        }
      }
      Conservation(devices, allocs);
    }
  }
}
