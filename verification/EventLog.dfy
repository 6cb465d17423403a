/** The event recorder: a bounded list of events without duplicates, and a counter per
    reason. Events dropped at the limit are kept as history, to say what became of them. */
module EventLog {
  import opened Wrappers

  datatype Ref = Ref(kind: string, name: string, namespace: string, uid: string)

  datatype Event = Event(kind: string, reason: string, message: string, obj: Ref, count: int, first: int, last: int)

  /** One call of RecordEvent; now is what the clock says at that time. */
  datatype Call = Call(kind: string, reason: string, message: string, obj: Ref, now: int)

  datatype Log = Log(events: seq<Event>, evicted: seq<Event>, counters: map<string, int>)

  const EMPTY: Log := Log([], [], map[])
  const DEFAULT_MAX: nat := 10000

  function Limit(requested: int): (max: nat)
    ensures max == requested || (requested <= 0 && max == 10000)
    ensures max > 0
  {
    if requested <= 0 then DEFAULT_MAX else requested
  }

  predicate Same(e: Event, reason: string, obj: Ref) {
    e.reason == reason && e.obj == obj
  }

  /** The first event of that reason and object, or the length of the list. */
  function Find(events: seq<Event>, reason: string, obj: Ref): (i: nat)
    ensures i <= |events|
    ensures i < |events| ==> Same(events[i], reason, obj)
    ensures forall k | 0 <= k < i :: !Same(events[k], reason, obj)
  {
    if events == [] || Same(events[0], reason, obj) then 0 else 1 + Find(events[1..], reason, obj)
  }

  function New(c: Call): Event {
    Event(c.kind, c.reason, c.message, c.obj, 1, c.now, c.now)
  }

  function Again(e: Event, c: Call): Event {
    e.(count := e.count + 1, last := c.now, message := c.message)
  }

  function Counter(counters: map<string, int>, reason: string): int {
    if reason in counters then counters[reason] else 0
  }

  function Excess(length: nat, max: nat): nat {
    if length > max then length - max else 0
  }

  function Record(log: Log, max: nat, c: Call): Log {
    var i := Find(log.events, c.reason, c.obj);
    var counters := log.counters[c.reason := Counter(log.counters, c.reason) + 1];
    if i < |log.events| then Log(log.events[i := Again(log.events[i], c)], log.evicted, counters)
    else
      var all := log.events + [New(c)];
      var drop := Excess(|all|, max);
      Log(all[drop..], log.evicted + all[..drop], counters)
  }

  function Run(calls: seq<Call>, max: nat): Log {
    if calls == [] then EMPTY else Record(Run(calls[..|calls| - 1], max), max, calls[|calls| - 1])
  }

  /** Every event there ever was: the dropped ones, then the retained ones. */
  function Seen(log: Log): seq<Event> {
    log.evicted + log.events
  }

  lemma NewAtEnd(log: Log, max: nat, c: Call)
    requires Find(log.events, c.reason, c.obj) == |log.events|
    ensures Seen(Record(log, max, c)) == Seen(log) + [New(c)]
  {
    var all := log.events + [New(c)];
    var drop := Excess(|all|, max);
    assert all == all[..drop] + all[drop..];
    assert log.evicted + all[..drop] + all[drop..] == log.evicted + (all[..drop] + all[drop..]);
    assert log.evicted + (log.events + [New(c)]) == log.evicted + log.events + [New(c)];
  }

  // ---- shape of the list ----

  ghost predicate Distinct(events: seq<Event>) {
    forall j, k | 0 <= j < k < |events| :: !Same(events[j], events[k].reason, events[k].obj)
  }

  /** No two retained events share reason and object, at most max are retained, and
      exactly max once anything was dropped. */
  ghost predicate Sound(log: Log, max: nat) {
    && Distinct(log.events)
    && |log.events| <= max
    && (log.evicted != [] ==> |log.events| == max)
  }

  lemma RecordKeepsSound(log: Log, max: nat, c: Call)
    requires Sound(log, max) && max > 0
    ensures Sound(Record(log, max, c), max)
    ensures var i := Find(Record(log, max, c).events, c.reason, c.obj);
            var n := |log.events|;
            && i < |Record(log, max, c).events|
            && (i == |Record(log, max, c).events| - 1 <==> Find(log.events, c.reason, c.obj) >= n - 1)
  {
    var i, after := Find(log.events, c.reason, c.obj), Record(log, max, c);
    if i < |log.events| {
      assert Same(after.events[i], c.reason, c.obj);
      assert forall k | 0 <= k < |log.events| :: after.events[k].reason == log.events[k].reason && after.events[k].obj == log.events[k].obj;
    } else {
      assert Same(after.events[|after.events| - 1], c.reason, c.obj);
    }
  }

  lemma {:induction false} AlwaysSound(calls: seq<Call>, max: nat)
    requires max > 0
    ensures Sound(Run(calls, max), max)
  {
    if calls != [] {
      AlwaysSound(calls[..|calls| - 1], max);
      RecordKeepsSound(Run(calls[..|calls| - 1], max), max, calls[|calls| - 1]);
    }
  }

  /** Handlers are given the last event of the list. That is the event just recorded
      exactly when it is new or was already the last one. */
  lemma HandlersSeeRecorded(calls: seq<Call>, max: nat, c: Call)
    requires max > 0
    ensures var before, after := Run(calls, max).events, Record(Run(calls, max), max, c).events;
            && after != []
            && (Same(after[|after| - 1], c.reason, c.obj) <==>
                  (forall e | e in before :: !Same(e, c.reason, c.obj)) || Same(before[|before| - 1], c.reason, c.obj))
  {
    var before, after := Run(calls, max).events, Record(Run(calls, max), max, c).events;
    AlwaysSound(calls, max);
    RecordKeepsSound(Run(calls, max), max, c);
    FoundLast(before, c.reason, c.obj);
    FoundLast(after, c.reason, c.obj);
  }

  lemma FoundLast(events: seq<Event>, reason: string, obj: Ref)
    requires Distinct(events)
    ensures Find(events, reason, obj) == |events| <==> forall e | e in events :: !Same(e, reason, obj)
    ensures events != [] ==> (Find(events, reason, obj) == |events| - 1 <==> Same(events[|events| - 1], reason, obj))
  {
    var i := Find(events, reason, obj);
    if i < |events| {
      assert events[i] in events;
      assert Same(events[i], events[|events| - 1].reason, events[|events| - 1].obj) ==> i == |events| - 1;
    }
  }

  // ---- counts ----

  /** Counts what concerns a reason, for one object or for all. */
  predicate Concerns(reason: string, obj: Ref, wanted: string, who: Option<Ref>) {
    reason == wanted && (who.Some? ==> obj == who.value)
  }

  function Sum(events: seq<Event>, reason: string, who: Option<Ref>): int {
    if events == [] then 0
    else
      var e := events[|events| - 1];
      Sum(events[..|events| - 1], reason, who) + (if Concerns(e.reason, e.obj, reason, who) then e.count else 0)
  }

  function Occurrences(calls: seq<Call>, reason: string, who: Option<Ref>): nat {
    if calls == [] then 0
    else
      var c := calls[|calls| - 1];
      Occurrences(calls[..|calls| - 1], reason, who) + (if Concerns(c.reason, c.obj, reason, who) then 1 else 0)
  }

  lemma {:induction false} SumConcat(a: seq<Event>, b: seq<Event>, reason: string, who: Option<Ref>)
    ensures Sum(a + b, reason, who) == Sum(a, reason, who) + Sum(b, reason, who)
  {
    if b == [] {
      assert a + b == a;
    } else {
      SumConcat(a, b[..|b| - 1], reason, who);
      assert (a + b)[..|a + b| - 1] == a + b[..|b| - 1];
    }
  }

  lemma SumAgain(events: seq<Event>, i: nat, c: Call, reason: string, who: Option<Ref>)
    requires i < |events| && Same(events[i], c.reason, c.obj)
    ensures Sum(events[i := Again(events[i], c)], reason, who)
         == Sum(events, reason, who) + (if Concerns(c.reason, c.obj, reason, who) then 1 else 0)
  {
    var e, e' := events[i], Again(events[i], c);
    assert events == events[..i] + [e] + events[i + 1..];
    assert events[i := e'] == events[..i] + [e'] + events[i + 1..];
    SumConcat(events[..i] + [e], events[i + 1..], reason, who);
    SumConcat(events[..i] + [e'], events[i + 1..], reason, who);
    SumConcat(events[..i], [e], reason, who);
    SumConcat(events[..i], [e'], reason, who);
  }

  lemma RecordCounts(log: Log, max: nat, c: Call, reason: string, who: Option<Ref>)
    ensures Sum(Record(log, max, c).evicted + Record(log, max, c).events, reason, who)
         == Sum(log.evicted + log.events, reason, who) + (if Concerns(c.reason, c.obj, reason, who) then 1 else 0)
  {
    var i, after := Find(log.events, c.reason, c.obj), Record(log, max, c);
    SumConcat(log.evicted, log.events, reason, who);
    SumConcat(after.evicted, after.events, reason, who);
    if i < |log.events| {
      SumAgain(log.events, i, c, reason, who);
    } else {
      NewAtEnd(log, max, c);
      SumNew(log.evicted + log.events, c, reason, who);
    }
  }

  lemma SumNew(events: seq<Event>, c: Call, reason: string, who: Option<Ref>)
    ensures Sum(events + [New(c)], reason, who) == Sum(events, reason, who) + (if Concerns(c.reason, c.obj, reason, who) then 1 else 0)
  {
    assert (events + [New(c)])[..|events|] == events;
  }

  /** No occurrence is lost or counted twice: for each reason, and for each reason and
      object, the counts of retained and dropped events add up to the number of calls. */
  lemma {:induction false} CountsConserved(calls: seq<Call>, max: nat, reason: string, who: Option<Ref>)
    ensures var log := Run(calls, max);
            && Sum(log.evicted, reason, who) + Sum(log.events, reason, who) == Occurrences(calls, reason, who)
            && (who.None? ==> Counter(log.counters, reason) == Occurrences(calls, reason, who))
  {
    var log := Run(calls, max);
    SumConcat(log.evicted, log.events, reason, who);
    if calls != [] {
      var before := Run(calls[..|calls| - 1], max);
      CountsConserved(calls[..|calls| - 1], max, reason, who);
      SumConcat(before.evicted, before.events, reason, who);
      RecordCounts(before, max, calls[|calls| - 1], reason, who);
    }
  }

  // ---- what is retained ----

  function LastCall(calls: seq<Call>, reason: string, obj: Ref): Option<Call> {
    if calls == [] then None
    else if calls[|calls| - 1].reason == reason && calls[|calls| - 1].obj == obj then Some(calls[|calls| - 1])
    else LastCall(calls[..|calls| - 1], reason, obj)
  }

  /** A retained event tells its latest message and time. */
  ghost predicate UpToDate(e: Event, calls: seq<Call>) {
    var c := LastCall(calls, e.reason, e.obj);
    c.Some? && e.message == c.value.message && e.last == c.value.now
  }

  lemma {:induction false} RetainedUpToDate(calls: seq<Call>, max: nat)
    requires max > 0
    ensures forall k | 0 <= k < |Run(calls, max).events| :: UpToDate(Run(calls, max).events[k], calls)
  {
    if calls != [] {
      var before, c := calls[..|calls| - 1], calls[|calls| - 1];
      RetainedUpToDate(before, max);
      AlwaysSound(before, max);
      var events, after := Run(before, max).events, Run(calls, max).events;
      var i := Find(events, c.reason, c.obj);
      forall k | 0 <= k < |after|
        ensures UpToDate(after[k], calls)
      {
        if i < |events| && k != i {
          assert after[k] == events[k] && !Same(events[k], c.reason, c.obj);
        } else if i == |events| && k < |after| - 1 {
          var drop := Excess(|events| + 1, max);
          assert after[k] == events[k + drop];
        }
      }
    }
  }

  /** Whether the last call of a run finds no retained event of its reason and object. */
  predicate Creates(calls: seq<Call>, max: nat)
    requires calls != []
  {
    var events, c := Run(calls[..|calls| - 1], max).events, calls[|calls| - 1];
    Find(events, c.reason, c.obj) == |events|
  }

  /** The positions of the calls that made an event, by the order of the calls alone. */
  function Creators(calls: seq<Call>, max: nat): seq<nat> {
    if calls == [] then []
    else Creators(calls[..|calls| - 1], max) + if Creates(calls, max) then [|calls| - 1] else []
  }

  /** Event e was made by call c. */
  predicate MadeBy(e: Event, c: Call) {
    Same(e, c.reason, c.obj) && e.kind == c.kind && e.first == c.now
  }

  ghost predicate MadeInOrder(events: seq<Event>, makers: seq<nat>, calls: seq<Call>) {
    && |makers| == |events|
    && (forall j, k | 0 <= j < k < |makers| :: makers[j] < makers[k])
    && (forall k | 0 <= k < |makers| :: makers[k] < |calls| && MadeBy(events[k], calls[makers[k]]))
  }

  /** One call more leaves who made the events seen so far, and adds at most one at the end. */
  lemma SeenAfter(log: Log, max: nat, c: Call)
    ensures var older, all := Seen(log), Seen(Record(log, max, c));
            && |all| == |older| + (if Find(log.events, c.reason, c.obj) == |log.events| then 1 else 0)
            && (forall k | 0 <= k < |older| ::
                  all[k].reason == older[k].reason && all[k].obj == older[k].obj && all[k].kind == older[k].kind && all[k].first == older[k].first)
            && (|older| < |all| ==> MadeBy(all[|older|], c))
  {
    if Find(log.events, c.reason, c.obj) == |log.events| {
      NewAtEnd(log, max, c);
    }
  }

  lemma MadeInOrderStep(older: seq<Event>, all: seq<Event>, makers: seq<nat>, before: seq<Call>, c: Call, made: bool)
    requires MadeInOrder(older, makers, before)
    requires |all| == |older| + (if made then 1 else 0)
    requires forall k | 0 <= k < |older| ::
               all[k].reason == older[k].reason && all[k].obj == older[k].obj && all[k].kind == older[k].kind && all[k].first == older[k].first
    requires made ==> MadeBy(all[|older|], c)
    ensures MadeInOrder(all, makers + (if made then [|before|] else []), before + [c])
  {
    var makers' := makers + if made then [|before|] else [];
    forall k | 0 <= k < |makers'|
      ensures makers'[k] < |before| + 1 && MadeBy(all[k], (before + [c])[makers'[k]])
    {
      if k < |makers| {
        assert MadeBy(older[k], before[makers[k]]);
      }
    }
  }

  /** Dropped and retained events together are in the order of the calls that made them,
      one event each: what is dropped is always the earliest made. */
  lemma {:induction false} OldestFirst(calls: seq<Call>, max: nat)
    ensures MadeInOrder(Seen(Run(calls, max)), Creators(calls, max), calls)
  {
    hide Record, Find, MadeInOrder, Seen;
    if calls == [] {
      NothingMade();
    } else {
      var before, c := calls[..|calls| - 1], calls[|calls| - 1];
      OldestFirst(before, max);
      SeenAfter(Run(before, max), max, c);
      assert calls == before + [c];
      MadeInOrderStep(Seen(Run(before, max)), Seen(Run(calls, max)), Creators(before, max), before, c, Creates(calls, max));
    }
  }

  lemma NothingMade()
    ensures MadeInOrder(Seen(EMPTY), [], [])
  {
  }

  /** With a clock that does not run backwards the times of first occurrence ascend as well. */
  lemma FirstTimesAscend(calls: seq<Call>, max: nat)
    requires forall j, k | 0 <= j < k < |calls| :: calls[j].now <= calls[k].now
    ensures var all := Seen(Run(calls, max)); forall j, k | 0 <= j < k < |all| :: all[j].first <= all[k].first
  {
    OldestFirst(calls, max);
    var all, makers := Seen(Run(calls, max)), Creators(calls, max);
    forall j, k | 0 <= j < k < |all|
      ensures all[j].first <= all[k].first
    {
      assert MadeBy(all[j], calls[makers[j]]) && MadeBy(all[k], calls[makers[k]]);
    }
  }

  // ---- when nothing is dropped ----

  ghost function CallKeys(calls: seq<Call>): set<(string, Ref)> {
    set c | c in calls :: (c.reason, c.obj)
  }

  ghost function EventKeys(events: seq<Event>): set<(string, Ref)> {
    set e | e in events :: (e.reason, e.obj)
  }

  lemma {:induction false} DistinctKeys(events: seq<Event>)
    requires Distinct(events)
    ensures |EventKeys(events)| == |events|
  {
    if events != [] {
      var rest, e := events[..|events| - 1], events[|events| - 1];
      DistinctKeys(rest);
      assert events == rest + [e];
      assert EventKeys(events) == EventKeys(rest) + {(e.reason, e.obj)};
      assert (e.reason, e.obj) !in EventKeys(rest);
    }
  }

  lemma {:induction false} UndroppedKeys(calls: seq<Call>, max: nat)
    requires max > 0
    ensures var log := Run(calls, max);
            && EventKeys(log.events) <= CallKeys(calls)
            && (log.evicted == [] ==> EventKeys(log.events) == CallKeys(calls))
            && (log.evicted != [] ==> |CallKeys(calls)| > max)
  {
    if calls != [] {
      var before, c := calls[..|calls| - 1], calls[|calls| - 1];
      UndroppedKeys(before, max);
      AlwaysSound(before, max);
      var log := Run(before, max);
      CallKeysAfter(before, c);
      assert calls == before + [c];
      KeysAfter(log, max, c);
      DistinctKeys(log.events);
      UndroppedStep(log, Record(log, max, c), max, CallKeys(before), EventKeys(log.events), EventKeys(Record(log, max, c).events), (c.reason, c.obj));
    }
  }

  lemma UndroppedStep(log: Log, after: Log, max: nat, calls: set<(string, Ref)>,
                      keys: set<(string, Ref)>, keys': set<(string, Ref)>, key: (string, Ref))
    requires keys <= calls && |keys| == |log.events| && keys' <= keys + {key}
    requires log.evicted == [] ==> keys == calls
    requires log.evicted != [] ==> |calls| > max
    requires after.evicted == log.evicted ==> keys' == keys + {key}
    requires after.evicted != log.evicted ==> |log.events| == max && key !in keys
    requires |log.evicted| <= |after.evicted|
    ensures keys' <= calls + {key}
    ensures after.evicted == [] ==> keys' == calls + {key}
    ensures after.evicted != [] ==> |calls + {key}| > max
  {
    if log.evicted != [] && key in calls {
      assert calls + {key} == calls;
    }
  }

  lemma CallKeysAfter(calls: seq<Call>, c: Call)
    ensures CallKeys(calls + [c]) == CallKeys(calls) + {(c.reason, c.obj)}
  {
    assert (calls + [c])[|calls|] == c;
  }

  lemma KeysAfter(log: Log, max: nat, c: Call)
    requires Sound(log, max) && max > 0
    ensures var after := Record(log, max, c);
            && |log.evicted| <= |after.evicted|
            && EventKeys(after.events) <= EventKeys(log.events) + {(c.reason, c.obj)}
            && (after.evicted == log.evicted ==> EventKeys(after.events) == EventKeys(log.events) + {(c.reason, c.obj)})
            && (after.evicted != log.evicted ==> |log.events| == max && (c.reason, c.obj) !in EventKeys(log.events))
  {
    var i, after := Find(log.events, c.reason, c.obj), Record(log, max, c);
    if i < |log.events| {
      assert forall k | 0 <= k < |log.events| :: after.events[k].reason == log.events[k].reason && after.events[k].obj == log.events[k].obj;
      assert forall e | e in log.events :: (e.reason, e.obj) in EventKeys(after.events) by {
        forall e | e in log.events
          ensures (e.reason, e.obj) in EventKeys(after.events)
        {
          var k :| 0 <= k < |log.events| && log.events[k] == e;
          assert after.events[k] in after.events;
        }
      }
      assert log.events[i] in log.events;
    } else {
      var all := log.events + [New(c)];
      assert EventKeys(all) == EventKeys(log.events) + {(c.reason, c.obj)} by {
        assert all[|all| - 1] == New(c);
      }
      var drop := Excess(|all|, max);
      assert forall e | e in all[drop..] :: e in all;
      assert drop == 0 ==> all[drop..] == all;
    }
  }

  /** Nothing was dropped exactly when at most max different pairs of reason and object
      were recorded; then every pair is retained with its exact number of occurrences. */
  lemma NothingDroppedExact(calls: seq<Call>, max: nat)
    requires max > 0
    ensures var log := Run(calls, max);
            && (log.evicted == [] <==> |CallKeys(calls)| <= max)
            && (log.evicted == [] ==>
                  && EventKeys(log.events) == CallKeys(calls)
                  && forall reason, obj :: Sum(log.events, reason, Some(obj)) == Occurrences(calls, reason, Some(obj)))
  {
    var log := Run(calls, max);
    UndroppedKeys(calls, max);
    AlwaysSound(calls, max);
    DistinctKeys(log.events);
    forall reason, obj
      ensures log.evicted == [] ==> Sum(log.events, reason, Some(obj)) == Occurrences(calls, reason, Some(obj))
    {
      CountsConserved(calls, max, reason, Some(obj));
    }
  }

  lemma SelectsEach(events: seq<Event>, e: Event, filter: Event -> bool)
    ensures Selected([], filter) == []
    ensures Selected(events + [e], filter) == Selected(events, filter) + if filter(e) then [e] else []
  {
    assert (events + [e])[..|events|] == events;
  }

  /** A selection keeps order and number: it picks the one event of a list of one if that
      passes, and of two lists in a row first from the one, then from the other. */
  lemma {:induction false} SelectsInOrder(a: seq<Event>, b: seq<Event>, e: Event, filter: Event -> bool)
    ensures Selected([e], filter) == if filter(e) then [e] else []
    ensures Selected(a + b, filter) == Selected(a, filter) + Selected(b, filter)
  {
    hide Selected;
    SelectsEach([], e, filter);
    assert [] + [e] == [e];
    if b == [] {
      assert a + b == a;
    } else {
      var init, last := b[..|b| - 1], b[|b| - 1];
      assert b == init + [last] && a + b == (a + init) + [last];
      SelectsInOrder(a, init, e, filter);
      SelectsEach(init, last, filter);
      SelectsEach(a + init, last, filter);
      var picked := if filter(last) then [last] else [];
      assert Selected(a, filter) + Selected(init, filter) + picked == Selected(a, filter) + (Selected(init, filter) + picked);
    }
  }

  lemma RunThen(calls: seq<Call>, max: nat, c: Call)
    ensures Run(calls + [c], max) == Record(Run(calls, max), max, c)
  {
    assert (calls + [c])[..|calls|] == calls;
  }

  // ---- the recorder ----

  function Selected(events: seq<Event>, filter: Event -> bool): (r: seq<Event>)
    ensures forall e :: e in r <==> e in events && filter(e)
  {
    if events == [] then []
    else
      var rest, e := Selected(events[..|events| - 1], filter), events[|events| - 1];
      if filter(e) then rest + [e] else rest
  }

  class EventRecorder {
    const maxEvents: nat
    var events: seq<Event>
    var counters: map<string, int>
    ghost var evicted: seq<Event>
    ghost var calls: seq<Call>

    ghost function History(): Log
      reads this
    {
      Log(events, evicted, counters)
    }

    /** The fields are what the calls recorded so far lead to. */
    ghost predicate Valid()
      reads this
    {
      maxEvents > 0 && History() == Run(calls, maxEvents)
    }

    constructor (max: int)
      ensures Valid() && maxEvents == Limit(max) && calls == []
    {
      maxEvents := if max <= 0 then DEFAULT_MAX else max;
      events, counters, evicted, calls := [], map[], [], [];
    }

    method FindEvent(reason: string, obj: Ref) returns (i: nat)
      ensures i == Find(events, reason, obj)
    {
      i := 0;
      while i < |events| && !Same(events[i], reason, obj)
        invariant i <= |events|
        invariant forall k | 0 <= k < i :: !Same(events[k], reason, obj)
      {
        i := i + 1;
      }
    }

    /** Answers the event that the handlers are given. */
    method RecordEvent(c: Call) returns (notified: Event)
      requires Valid()
      modifies this
      ensures Valid() && calls == old(calls) + [c] && History() == Record(old(History()), maxEvents, c)
      ensures events != [] && notified == events[|events| - 1]
    {
      hide Run;
      RunThen(calls, maxEvents, c);
      var i := FindEvent(c.reason, c.obj);
      if i < |events| {
        events := events[i := Again(events[i], c)];
      } else {
        events := events + [New(c)];
        if |events| > maxEvents {
          evicted := evicted + events[..|events| - maxEvents];
          events := events[|events| - maxEvents..];
        }
      }
      counters := counters[c.reason := Counter(counters, c.reason) + 1];
      calls := calls + [c];
      assert History() == Record(old(History()), maxEvents, c);
      notified := events[|events| - 1];
    }

    /** No filter selects everything. */
    method GetEvents(filter: Option<Event -> bool>) returns (result: seq<Event>)
      ensures result == Selected(events, e => filter.Some? ==> filter.value(e))
    {
      result := [];
      ghost var wanted := e => filter.Some? ==> filter.value(e);
      for i := 0 to |events|
        invariant result == Selected(events[..i], wanted)
      {
        assert events[..i + 1][..i] == events[..i];
        if filter.None? || filter.value(events[i]) {
          result := result + [events[i]];
        }
      }
      assert events[..|events|] == events;
    }

    /** However many of its events were dropped, the calls that gave the reason. */
    method GetEventCount(reason: string) returns (count: int)
      requires Valid()
      ensures count == Occurrences(calls, reason, None)
    {
      CountsConserved(calls, maxEvents, reason, None);
      count := if reason in counters then counters[reason] else 0;
    }
  }
}
