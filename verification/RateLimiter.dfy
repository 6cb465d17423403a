/** Per-tenant token buckets. Time is an argument, in seconds, and token counts are reals. */
module RateLimiter {
  import opened Wrappers

  /** The product, under a name so that most proofs can stay linear. */
  function Times(a: real, b: real): real {
    a * b
  }

  datatype Bucket = Bucket(tokens: real, max: real, rate: real, last: real) {
    function Refill(now: real): Bucket {
      if now - last > 0.0 then
        var filled := tokens + Times(now - last, rate);
        Bucket(if filled > max then max else filled, max, rate, now)
      else this
    }

    predicate Admits(now: real) {
      Refill(now).tokens >= 1.0
    }

    function Consume(now: real): Bucket {
      var b := Refill(now);
      if b.tokens >= 1.0 then b.(tokens := b.tokens - 1.0) else b
    }
  }

  datatype Config = Config(createLimit: int, createBurst: int, apiLimit: int, apiBurst: int)

  /** A tenant's two buckets; API calls are unlimited when there is no second one. */
  datatype Limits = Limits(create: Bucket, api: Option<Bucket>)

  /** Limits are given per minute. */
  function PerSecond(limit: int): real {
    limit as real / 60.0
  }

  function NewBucket(burst: int, limit: int, now: real): Bucket {
    Bucket(burst as real, burst as real, PerSecond(limit), now)
  }

  function ApiBurst(config: Config): int {
    if config.apiBurst <= 0 then config.apiLimit else config.apiBurst
  }

  function NewLimits(config: Config, now: real): Limits {
    Limits(NewBucket(config.createBurst, config.createLimit, now),
           if config.apiLimit > 0 then Some(NewBucket(ApiBurst(config), config.apiLimit, now)) else None)
  }

  /** Only "APICall" has a bucket of its own; every other operation draws on the create bucket. */
  predicate IsApi(operation: string) {
    operation == "APICall"
  }

  function BucketFor(l: Limits, api: bool): Option<Bucket> {
    if api then l.api else Some(l.create)
  }

  function WithBucket(l: Limits, api: bool, b: Bucket): Limits {
    if api then l.(api := Some(b)) else l.(create := b)
  }

  type Limiter = map<string, Limits>

  datatype Op =
    | Register(tenant: string, config: Config, now: real)
    | Unregister(tenant: string, now: real)
    | Allow(tenant: string, operation: string, now: real)
    | Remaining(tenant: string, operation: string, now: real)

  datatype Answer = Done | Verdict(allowed: bool) | Tokens(left: real)

  function Bucketed(rl: Limiter, tenant: string, api: bool): Option<Bucket> {
    if tenant in rl then BucketFor(rl[tenant], api) else None
  }

  function Step(rl: Limiter, op: Op): Limiter {
    match op
    case Register(t, config, now) => rl[t := NewLimits(config, now)]
    case Unregister(t, _) => rl - {t}
    case Allow(t, operation, now) =>
      (match Bucketed(rl, t, IsApi(operation))
       case None => rl
       case Some(b) => rl[t := WithBucket(rl[t], IsApi(operation), b.Consume(now))])
    case Remaining(t, operation, now) =>
      (match Bucketed(rl, t, IsApi(operation))
       case None => rl
       case Some(b) => rl[t := WithBucket(rl[t], IsApi(operation), b.Refill(now))])
  }

  function Reply(rl: Limiter, op: Op): Answer {
    match op
    case Allow(t, operation, now) =>
      (match Bucketed(rl, t, IsApi(operation))
       case None => Verdict(true)
       case Some(b) => Verdict(b.Admits(now)))
    case Remaining(t, operation, now) =>
      (match Bucketed(rl, t, IsApi(operation))
       case None => Tokens(-1.0)
       case Some(b) => Tokens(b.Refill(now).tokens))
    case _ => Done
  }

  function Run(rl: Limiter, ops: seq<Op>): Limiter
    decreases |ops|
  {
    if ops == [] then rl else Run(Step(rl, ops[0]), ops[1..])
  }

  function Replies(rl: Limiter, ops: seq<Op>): seq<Answer>
    decreases |ops|
  {
    if ops == [] then [] else [Reply(rl, ops[0])] + Replies(Step(rl, ops[0]), ops[1..])
  }

  /** The clock never goes backwards, from start through the run to end. */
  predicate Clocked(start: real, ops: seq<Op>, end: real)
    decreases |ops|
  {
    if ops == [] then start <= end else start <= ops[0].now && Clocked(ops[0].now, ops[1..], end)
  }

  // ---- the window bound ----

  /** A bucket in use at a time: never overfull, never in debt, and refilled no later than now. */
  predicate Sound(b: Bucket, now: real) {
    0.0 <= b.tokens <= b.max && b.rate >= 0.0 && b.last <= now
  }

  lemma Product(a: real, b: real, c: real)
    ensures Times(a + b, c) == Times(a, c) + Times(b, c)
    ensures b >= 0.0 && c >= 0.0 ==> Times(b, c) >= 0.0
    ensures b >= 0.0 && c <= 0.0 ==> Times(b, c) <= 0.0
  {
  }

  lemma RefillSound(b: Bucket, now: real, later: real)
    requires Sound(b, now) && now <= later
    ensures Sound(b.Refill(later), later)
    ensures b.Refill(later).tokens <= b.Refill(now).tokens + Times(later - now, b.rate)
  {
    hide Times;
    Product(now - b.last, later - now, b.rate);
    Product(0.0, now - b.last, b.rate);
    assert (now - b.last) + (later - now) == later - b.last;
  }

  /** What a request admits is paid out of the level and the refill since. */
  lemma ConsumePays(b: Bucket, now: real, later: real)
    requires Sound(b, now) && now <= later
    ensures Sound(b.Consume(later), later)
    ensures (if b.Admits(later) then 1.0 else 0.0) + b.Consume(later).Refill(later).tokens
            <= b.Refill(now).tokens + Times(later - now, b.rate)
  {
    hide Times;
    RefillSound(b, now, later);
  }

  /** Requests of this kind that were let through by the tenant's bucket. */
  function Admitted(rl: Limiter, ops: seq<Op>, tenant: string, api: bool): nat
    decreases |ops|
  {
    if ops == [] then 0 else Admission(rl, ops[0], tenant, api) + Admitted(Step(rl, ops[0]), ops[1..], tenant, api)
  }

  function Registrations(ops: seq<Op>, tenant: string): nat
    decreases |ops|
  {
    if ops == [] then 0
    else (if ops[0].Register? && ops[0].tenant == tenant then 1 else 0) + Registrations(ops[1..], tenant)
  }

  /** The tenant stays registered, with this burst and limit for the bucket in question. */
  predicate KeepsConfig(op: Op, api: bool, burst: int, limit: int) {
    && !op.Unregister?
    && (op.Register? ==>
          if api then op.config.apiLimit == limit && limit > 0 && ApiBurst(op.config) == burst
          else op.config.createLimit == limit && op.config.createBurst == burst)
  }

  ghost predicate SameConfig(ops: seq<Op>, tenant: string, api: bool, burst: int, limit: int) {
    forall op | op in ops && op.tenant == tenant :: KeepsConfig(op, api, burst, limit)
  }

  predicate HasBucket(rl: Limiter, tenant: string, api: bool, burst: int, limit: int, now: real) {
    var b := Bucketed(rl, tenant, api);
    b.Some? && b.value.max == burst as real && b.value.rate == PerSecond(limit) && Sound(b.value, now)
  }

  function Level(rl: Limiter, tenant: string, api: bool, now: real): real
    requires Bucketed(rl, tenant, api).Some?
  {
    Bucketed(rl, tenant, api).value.Refill(now).tokens
  }

  function Admission(rl: Limiter, op: Op, tenant: string, api: bool): nat {
    if op.Allow? && op.tenant == tenant && IsApi(op.operation) == api && Reply(rl, op) == Verdict(true) then 1 else 0
  }

  /** One step pays for what it admits out of the level, the time passed and a fresh burst. */
  lemma StepPays(rl: Limiter, op: Op, tenant: string, api: bool, burst: int, limit: int, now: real)
    requires 0 <= burst && 0 <= limit && now <= op.now
    requires HasBucket(rl, tenant, api, burst, limit, now)
    requires op.tenant == tenant ==> KeepsConfig(op, api, burst, limit)
    ensures HasBucket(Step(rl, op), tenant, api, burst, limit, op.now)
    ensures Admission(rl, op, tenant, api) as real + Level(Step(rl, op), tenant, api, op.now)
            <= Level(rl, tenant, api, now) + Times(op.now - now, PerSecond(limit))
               + if op.Register? && op.tenant == tenant then burst as real else 0.0
  {
    hide Times;
    var b := Bucketed(rl, tenant, api).value;
    Kept(b, op.now);
    RefillSound(b, now, op.now);
    LevelBound(rl, tenant, api, burst, limit, now);
    ConsumePays(b, now, op.now);
    RefillAgain(b, op.now);
    FreshLevel(burst, limit, op.now);
    Product(0.0, op.now - now, PerSecond(limit));
    var b' := Bucketed(Step(rl, op), tenant, api).value;
    if op.tenant == tenant && op.Register? {
      assert b' == NewBucket(burst, limit, op.now);
    } else if op.tenant == tenant && !op.Unregister? && IsApi(op.operation) == api {
      assert b' == if op.Allow? then b.Consume(op.now) else b.Refill(op.now);
    } else {
      assert b' == b;
    }
  }

  lemma Kept(b: Bucket, now: real)
    ensures b.Refill(now).max == b.max && b.Refill(now).rate == b.rate
  {
    hide Times;
  }

  lemma RefillAgain(b: Bucket, now: real)
    requires b.last <= now
    ensures b.Refill(now).Refill(now) == b.Refill(now)
  {
    hide Times;
  }

  lemma FreshLevel(burst: int, limit: int, now: real)
    ensures NewBucket(burst, limit, now).Refill(now) == NewBucket(burst, limit, now)
  {
  }

  /** The bursts handed out by registrations during the run. */
  function Bursts(ops: seq<Op>, tenant: string, burst: int): real
    decreases |ops|
  {
    if ops == [] then 0.0
    else (if ops[0].Register? && ops[0].tenant == tenant then burst as real else 0.0) + Bursts(ops[1..], tenant, burst)
  }

  lemma {:induction false} BurstsCount(ops: seq<Op>, tenant: string, burst: int)
    ensures Bursts(ops, tenant, burst) == Registrations(ops, tenant) as real * burst as real
    decreases |ops|
  {
    if ops != [] {
      BurstsCount(ops[1..], tenant, burst);
      OneMore(Registrations(ops[1..], tenant), burst);
    }
  }

  lemma {:induction false} AdmittedWithinLevel(rl: Limiter, ops: seq<Op>, tenant: string, api: bool, burst: int, limit: int, start: real, end: real)
    requires 0 <= burst && 0 <= limit
    requires HasBucket(rl, tenant, api, burst, limit, start)
    requires SameConfig(ops, tenant, api, burst, limit) && Clocked(start, ops, end)
    ensures Admitted(rl, ops, tenant, api) as real
            <= Level(rl, tenant, api, start) + Times(end - start, PerSecond(limit)) + Bursts(ops, tenant, burst)
    decreases |ops|
  {
    hide Times;
    if ops == [] {
      RefillSound(Bucketed(rl, tenant, api).value, start, start);
      Product(0.0, end - start, PerSecond(limit));
    } else {
      var op := ops[0];
      assert op in ops;
      StepPays(rl, op, tenant, api, burst, limit, start);
      assert forall o | o in ops[1..] :: o in ops;
      AdmittedWithinLevel(Step(rl, op), ops[1..], tenant, api, burst, limit, op.now, end);
      Product(op.now - start, end - op.now, PerSecond(limit));
      assert (op.now - start) + (end - op.now) == end - start;
    }
  }

  /** The window bound: over any stretch of a run in which the tenant is registered k more
      times with the same configuration, at most (k+1) bursts and the refill of the stretch
      are admitted, whatever other tenants and observers do. */
  lemma WindowBound(rl: Limiter, ops: seq<Op>, tenant: string, api: bool, burst: int, limit: int, start: real, end: real)
    requires 0 <= burst && 0 <= limit
    requires HasBucket(rl, tenant, api, burst, limit, start)
    requires SameConfig(ops, tenant, api, burst, limit) && Clocked(start, ops, end)
    ensures Admitted(rl, ops, tenant, api) as real
            <= (Registrations(ops, tenant) + 1) as real * burst as real + (end - start) * PerSecond(limit)
  {
    hide Times, Bucket.Refill, Admitted, Clocked, Step;
    AdmittedWithinLevel(rl, ops, tenant, api, burst, limit, start, end);
    LevelBound(rl, tenant, api, burst, limit, start);
    BurstsCount(ops, tenant, burst);
    WindowArithmetic(Admitted(rl, ops, tenant, api), Level(rl, tenant, api, start), end - start, PerSecond(limit),
                     Registrations(ops, tenant), burst);
  }

  lemma WindowArithmetic(admitted: nat, level: real, d: real, rate: real, k: nat, burst: int)
    requires admitted as real <= level + Times(d, rate) + k as real * burst as real && level <= burst as real
    ensures admitted as real <= (k + 1) as real * burst as real + d * rate
  {
    OneMore(k, burst);
  }

  lemma OneMore(k: nat, burst: int)
    ensures (k + 1) as real * burst as real == k as real * burst as real + burst as real
  {
  }

  lemma LevelBound(rl: Limiter, tenant: string, api: bool, burst: int, limit: int, now: real)
    requires HasBucket(rl, tenant, api, burst, limit, now)
    ensures 0.0 <= Level(rl, tenant, api, now) <= burst as real
  {
    hide Times;
    RefillSound(Bucketed(rl, tenant, api).value, now, now);
  }

  /** Registering gives the bucket the window bound starts from. */
  lemma RegisterGivesBucket(rl: Limiter, tenant: string, config: Config, now: real, api: bool)
    requires if api then config.apiLimit > 0 else 0 <= config.createBurst && 0 <= config.createLimit
    ensures HasBucket(Step(rl, Register(tenant, config, now)), tenant, api,
                      if api then ApiBurst(config) else config.createBurst,
                      if api then config.apiLimit else config.createLimit, now)
  {
    hide Times;
    assert config.apiLimit > 0 ==> PerSecond(config.apiLimit) >= 0.0;
    assert config.createLimit >= 0 ==> PerSecond(config.createLimit) >= 0.0;
  }

  ghost predicate NonNegative(config: Config) {
    0 <= config.createBurst && 0 <= config.createLimit
  }

  ghost predicate AllSound(rl: Limiter, now: real) {
    forall t | t in rl :: Sound(rl[t].create, now) && (rl[t].api.Some? ==> Sound(rl[t].api.value, now))
  }

  /** In every reachable state every bucket holds between nothing and its burst. */
  lemma {:induction false} TokensWithinBurst(rl: Limiter, ops: seq<Op>, start: real, end: real)
    requires AllSound(rl, start) && Clocked(start, ops, end)
    requires forall op | op in ops && op.Register? :: NonNegative(op.config)
    ensures AllSound(Run(rl, ops), end)
    decreases |ops|
  {
    hide Times;
    if ops != [] {
      var op := ops[0];
      assert op in ops;
      forall t | t in Step(rl, op)
        ensures var l := Step(rl, op)[t];
                Sound(l.create, op.now) && (l.api.Some? ==> Sound(l.api.value, op.now))
      {
        if op.Register? && op.tenant == t {
          RegisterGivesBucket(rl, t, op.config, op.now, false);
          if op.config.apiLimit > 0 {
            RegisterGivesBucket(rl, t, op.config, op.now, true);
          }
        } else {
          RefillSound(rl[t].create, start, op.now);
          if rl[t].api.Some? {
            RefillSound(rl[t].api.value, start, op.now);
          }
        }
      }
      TokensWithinBurst(Step(rl, op), ops[1..], op.now, end);
    }
  }

  /** What holds of a bucket whatever numbers it was configured with. */
  predicate InUse(b: Bucket, now: real) {
    b.tokens <= b.max && b.last <= now && (b.max >= 0.0 && b.rate >= 0.0 ==> b.tokens >= 0.0)
  }

  ghost predicate AllInUse(rl: Limiter, now: real) {
    forall t | t in rl :: InUse(rl[t].create, now) && (rl[t].api.Some? ==> InUse(rl[t].api.value, now))
  }

  lemma InUseLater(b: Bucket, now: real, later: real)
    requires InUse(b, now) && now <= later
    ensures InUse(b, later) && InUse(b.Refill(later), later) && InUse(b.Consume(later), later)
  {
    hide Times;
    Product(0.0, later - b.last, b.rate);
  }

  /** In every reachable state, with any configurations, no bucket is overfull, and one
      with a nonnegative burst and limit is never in debt. */
  lemma {:induction false} AlwaysInUse(rl: Limiter, ops: seq<Op>, start: real, end: real)
    requires AllInUse(rl, start) && Clocked(start, ops, end)
    ensures AllInUse(Run(rl, ops), end)
    decreases |ops|
  {
    hide Times, InUse, Bucket.Refill, Bucket.Consume;
    if ops != [] {
      var op := ops[0];
      forall t | t in Step(rl, op)
        ensures var l := Step(rl, op)[t];
                InUse(l.create, op.now) && (l.api.Some? ==> InUse(l.api.value, op.now))
      {
        if op.Register? && op.tenant == t {
          FreshInUse(op.config, op.now);
        } else {
          InUseLater(rl[t].create, start, op.now);
          if rl[t].api.Some? {
            InUseLater(rl[t].api.value, start, op.now);
          }
        }
      }
      AlwaysInUse(Step(rl, op), ops[1..], op.now, end);
    } else {
      forall t | t in rl
        ensures InUse(rl[t].create, end) && (rl[t].api.Some? ==> InUse(rl[t].api.value, end))
      {
        InUseLater(rl[t].create, start, end);
        if rl[t].api.Some? {
          InUseLater(rl[t].api.value, start, end);
        }
      }
    }
  }

  lemma FreshInUse(config: Config, now: real)
    ensures var l := NewLimits(config, now);
            InUse(l.create, now) && (l.api.Some? ==> InUse(l.api.value, now))
  {
  }

  /** No call for one tenant changes another tenant's buckets. */
  lemma {:induction false} TenantsIndependent(rl: Limiter, ops: seq<Op>, tenant: string)
    requires forall op | op in ops :: op.tenant != tenant
    ensures tenant in Run(rl, ops) <==> tenant in rl
    ensures tenant in rl ==> Run(rl, ops)[tenant] == rl[tenant]
    decreases |ops|
  {
    if ops != [] {
      assert ops[0] in ops;
      TenantsIndependent(Step(rl, ops[0]), ops[1..], tenant);
    }
  }

  // ---- which call draws on which bucket ----

  /** Creating sandboxes, and whatever is not called "APICall", is decided by the create
      bucket, takes its token there and leaves the API bucket alone. */
  lemma CreateDrawsOnCreate(rl: Limiter, tenant: string, operation: string, now: real)
    requires tenant in rl && operation != "APICall"
    ensures var b := rl[tenant].create;
            && Reply(rl, Allow(tenant, operation, now)) == Verdict(b.Admits(now))
            && Step(rl, Allow(tenant, operation, now)) == rl[tenant := Limits(b.Consume(now), rl[tenant].api)]
            && Reply(rl, Remaining(tenant, operation, now)) == Tokens(b.Refill(now).tokens)
            && Step(rl, Remaining(tenant, operation, now)) == rl[tenant := Limits(b.Refill(now), rl[tenant].api)]
  {
  }

  /** "APICall" is decided by the API bucket and leaves the create bucket alone; without an
      API bucket it is unlimited and changes nothing. */
  lemma ApiDrawsOnApi(rl: Limiter, tenant: string, now: real)
    requires tenant in rl
    ensures var allow, remaining, api := Allow(tenant, "APICall", now), Remaining(tenant, "APICall", now), rl[tenant].api;
            if api.None? then
              Reply(rl, allow) == Verdict(true) && Reply(rl, remaining) == Tokens(-1.0) && Step(rl, allow) == Step(rl, remaining) == rl
            else
              && Reply(rl, allow) == Verdict(api.value.Admits(now))
              && Step(rl, allow) == rl[tenant := Limits(rl[tenant].create, Some(api.value.Consume(now)))]
              && Reply(rl, remaining) == Tokens(api.value.Refill(now).tokens)
              && Step(rl, remaining) == rl[tenant := Limits(rl[tenant].create, Some(api.value.Refill(now)))]
  {
  }

  /** A tenant that is not registered, or no longer, is not limited. */
  lemma UnknownUnlimited(rl: Limiter, tenant: string, operation: string, now: real, at: real)
    ensures var gone := Step(rl, Unregister(tenant, at));
            && Reply(gone, Allow(tenant, operation, now)) == Verdict(true)
            && Reply(gone, Remaining(tenant, operation, now)) == Tokens(-1.0)
            && Step(gone, Allow(tenant, operation, now)) == gone == Step(gone, Remaining(tenant, operation, now))
            && (tenant !in rl ==> gone == rl)
  {
    assert tenant !in rl ==> rl - {tenant} == rl;
  }

  /** Calls of this name that were let through. */
  function Passed(rl: Limiter, ops: seq<Op>, tenant: string, operation: string): nat
    decreases |ops|
  {
    if ops == [] then 0
    else
      (if ops[0].Allow? && ops[0].tenant == tenant && ops[0].operation == operation && Reply(rl, ops[0]) == Verdict(true) then 1 else 0)
      + Passed(Step(rl, ops[0]), ops[1..], tenant, operation)
  }

  lemma {:induction false} PassedIsAdmitted(rl: Limiter, ops: seq<Op>, tenant: string, operation: string)
    requires operation != "APICall"
    ensures Passed(rl, ops, tenant, operation) <= Admitted(rl, ops, tenant, false)
    decreases |ops|
  {
    hide Step, Reply;
    if ops != [] {
      PassedIsAdmitted(Step(rl, ops[0]), ops[1..], tenant, operation);
    }
  }

  /** The tenant is not unregistered, and registered again only with this burst and limit for creation. */
  ghost predicate KeepsCreation(ops: seq<Op>, tenant: string, burst: int, limit: int) {
    forall op | op in ops && op.tenant == tenant ::
      !op.Unregister? && (op.Register? ==> op.config.createBurst == burst && op.config.createLimit == limit)
  }

  /** A burst for each of k + 1 registrations, and the limit per minute for d seconds. */
  function InWindow(k: nat, burst: int, limit: int, d: real): real {
    (k + 1) as real * burst as real + d * (limit as real / 60.0)
  }

  /** The window bound for creating sandboxes, from a registration on. */
  lemma CreationWindow(rl: Limiter, config: Config, ops: seq<Op>, tenant: string, start: real, end: real)
    requires 0 <= config.createBurst && 0 <= config.createLimit
    requires KeepsCreation(ops, tenant, config.createBurst, config.createLimit) && Clocked(start, ops, end)
    ensures Passed(Step(rl, Register(tenant, config, start)), ops, tenant, "CreateSandbox") as real
            <= InWindow(Registrations(ops, tenant), config.createBurst, config.createLimit, end - start)
  {
    hide Passed, Admitted, Step, Times, Clocked, InWindow;
    var first := Step(rl, Register(tenant, config, start));
    RegisterGivesBucket(rl, tenant, config, start, false);
    PassedIsAdmitted(first, ops, tenant, "CreateSandbox");
    AdmittedInWindow(first, ops, tenant, config.createBurst, config.createLimit, start, end);
  }

  lemma AdmittedInWindow(rl: Limiter, ops: seq<Op>, tenant: string, burst: int, limit: int, start: real, end: real)
    requires 0 <= burst && 0 <= limit
    requires HasBucket(rl, tenant, false, burst, limit, start)
    requires SameConfig(ops, tenant, false, burst, limit) && Clocked(start, ops, end)
    ensures Admitted(rl, ops, tenant, false) as real <= InWindow(Registrations(ops, tenant), burst, limit, end - start)
  {
    hide Admitted, Step, Times, Clocked, HasBucket, InWindow, PerSecond;
    WindowBound(rl, ops, tenant, false, burst, limit, start, end);
    InWindowIs(Registrations(ops, tenant), burst, limit, end - start);
  }

  lemma InWindowIs(k: nat, burst: int, limit: int, d: real)
    ensures InWindow(k, burst, limit, d) == (k + 1) as real * burst as real + d * PerSecond(limit)
  {
  }

  function Repeated(op: Op, n: nat): seq<Op> {
    if n == 0 then [] else [op] + Repeated(op, n - 1)
  }

  function AtMost(n: nat, burst: int): nat {
    if burst < 0 then 0 else if n <= burst then n else burst
  }

  lemma {:induction false} FullBucketPasses(rl: Limiter, tenant: string, tokens: int, now: real, n: nat)
    requires tenant in rl && rl[tenant].create.tokens == tokens as real && rl[tenant].create.last == now
    ensures Passed(rl, Repeated(Allow(tenant, "CreateSandbox", now), n), tenant, "CreateSandbox") == AtMost(n, tokens)
    decreases n
  {
    if n > 0 {
      var op := Allow(tenant, "CreateSandbox", now);
      CreateDrawsOnCreate(rl, tenant, "CreateSandbox", now);
      assert Repeated(op, n)[1..] == Repeated(op, n - 1);
      FullBucketPasses(Step(rl, op), tenant, if tokens >= 1 then tokens - 1 else tokens, now, n - 1);
    }
  }

  /** A registration lets through exactly a burst of sandbox creations at once, and no more. */
  lemma FreshBurst(rl: Limiter, tenant: string, config: Config, now: real, n: nat)
    ensures Passed(Step(rl, Register(tenant, config, now)), Repeated(Allow(tenant, "CreateSandbox", now), n), tenant, "CreateSandbox")
         == AtMost(n, config.createBurst)
  {
    FullBucketPasses(Step(rl, Register(tenant, config, now)), tenant, config.createBurst, now, n);
  }

  /** The API bucket exists exactly for a positive limit; its burst is the limit unless a positive one is given. */
  lemma FreshApi(rl: Limiter, tenant: string, config: Config, now: real)
    ensures var api := Step(rl, Register(tenant, config, now))[tenant].api;
            && (api.Some? <==> config.apiLimit > 0)
            && (api.Some? ==>
                  && api.value.tokens == api.value.max >= 1.0
                  && api.value.rate * 60.0 == config.apiLimit as real
                  && (config.apiBurst > 0 ==> api.value.max == config.apiBurst as real)
                  && (config.apiBurst <= 0 ==> api.value.max == config.apiLimit as real))
  {
  }

  /** What GetRemainingTokens reads tells whether a call at that moment is let through. */
  lemma RemainingPredicts(rl: Limiter, tenant: string, operation: string, now: real)
    requires tenant in rl && (operation == "APICall" ==> rl[tenant].api.Some?)
    ensures var left := Reply(rl, Remaining(tenant, operation, now));
            && left.Tokens?
            && Reply(Step(rl, Remaining(tenant, operation, now)), Allow(tenant, operation, now)) == Verdict(left.left >= 1.0)
  {
  }

  // ---- observers ----

  /** Refilling in two steps is refilling once, in spite of the cap. */
  lemma RefillTwice(b: Bucket, now: real, later: real)
    requires b.tokens <= b.max && b.last <= now <= later
    ensures b.Refill(now).Refill(later).tokens == b.Refill(later).tokens
  {
    hide Times;
    Product(now - b.last, later - now, b.rate);
    Product(0.0, now - b.last, b.rate);
    assert (now - b.last) + (later - now) == later - b.last;
  }

  /** Two buckets nobody can tell apart from now on. */
  predicate Alike(a: Bucket, b: Bucket, now: real) {
    && a.max == b.max && a.rate == b.rate
    && a.last <= now && b.last <= now
    && a.tokens <= a.max && b.tokens <= b.max
    && a.Refill(now).tokens == b.Refill(now).tokens
  }

  lemma AlikeLater(a: Bucket, b: Bucket, now: real, later: real)
    requires Alike(a, b, now) && now <= later
    ensures Alike(a, b, later) && Alike(a.Refill(later), b, later)
    ensures Alike(a.Consume(later), b.Consume(later), later)
    ensures a.Admits(later) == b.Admits(later)
    ensures !a.Admits(later) ==> Alike(a.Consume(later), b, later)
  {
    hide Times;
    RefillTwice(a, now, later);
    RefillTwice(b, now, later);
    RefillTwice(a, later, later);
    RefillTwice(b, later, later);
  }

  predicate LimitsAlike(l: Limits, m: Limits, now: real) {
    && Alike(l.create, m.create, now)
    && l.api.Some? == m.api.Some?
    && (l.api.Some? ==> Alike(l.api.value, m.api.value, now))
  }

  ghost predicate LimitersAlike(rl: Limiter, rm: Limiter, now: real) {
    rl.Keys == rm.Keys && forall t | t in rl :: LimitsAlike(rl[t], rm[t], now)
  }

  lemma LimitersLater(rl: Limiter, rm: Limiter, now: real, later: real)
    requires LimitersAlike(rl, rm, now) && now <= later
    ensures LimitersAlike(rl, rm, later)
  {
    hide Times;
    forall t | t in rl
      ensures LimitsAlike(rl[t], rm[t], later)
    {
      AlikeLater(rl[t].create, rm[t].create, now, later);
      if rl[t].api.Some? { AlikeLater(rl[t].api.value, rm[t].api.value, now, later); }
    }
  }

  /** Reading the remaining tokens, or being refused. */
  predicate Observer(rl: Limiter, op: Op) {
    op.Remaining? || (op.Allow? && Reply(rl, op) == Verdict(false))
  }

  lemma SameStep(rl: Limiter, rm: Limiter, op: Op, now: real)
    requires LimitersAlike(rl, rm, now) && now <= op.now
    ensures Reply(rl, op) == Reply(rm, op)
    ensures LimitersAlike(Step(rl, op), Step(rm, op), op.now)
  {
    hide Times;
    LimitersLater(rl, rm, now, op.now);
    if (op.Allow? || op.Remaining?) && Bucketed(rl, op.tenant, IsApi(op.operation)).Some? {
      var a, b := Bucketed(rl, op.tenant, IsApi(op.operation)).value, Bucketed(rm, op.tenant, IsApi(op.operation)).value;
      AlikeLater(a, b, now, op.now);
      AlikeLater(b, a, now, op.now);
      AlikeLater(a.Refill(op.now), b, op.now, op.now);
      AlikeLater(b, a.Refill(op.now), op.now, op.now);
      assert Alike(a.Refill(op.now), b.Refill(op.now), op.now);
    }
  }

  lemma SkippedStep(rl: Limiter, rm: Limiter, op: Op, now: real)
    requires LimitersAlike(rl, rm, now) && now <= op.now && Observer(rl, op)
    ensures LimitersAlike(Step(rl, op), rm, op.now)
  {
    hide Times;
    LimitersLater(rl, rm, now, op.now);
    if Bucketed(rl, op.tenant, IsApi(op.operation)).Some? {
      var a, b := Bucketed(rl, op.tenant, IsApi(op.operation)).value, Bucketed(rm, op.tenant, IsApi(op.operation)).value;
      AlikeLater(a, b, now, op.now);
    }
  }

  /** The operations that are left when some of the observers are erased. */
  function Thin(rl: Limiter, ops: seq<Op>, erase: seq<bool>): seq<Op>
    requires |erase| == |ops|
    decreases |ops|
  {
    if ops == [] then []
    else
      var rest := Thin(Step(rl, ops[0]), ops[1..], erase[1..]);
      if erase[0] && Observer(rl, ops[0]) then rest else [ops[0]] + rest
  }

  /** The answers the operations left over got in the full run. */
  function ThinReplies(rl: Limiter, ops: seq<Op>, erase: seq<bool>): seq<Answer>
    requires |erase| == |ops|
    decreases |ops|
  {
    if ops == [] then []
    else
      var rest := ThinReplies(Step(rl, ops[0]), ops[1..], erase[1..]);
      if erase[0] && Observer(rl, ops[0]) then rest else [Reply(rl, ops[0])] + rest
  }

  /** Observers do not matter: erase any of them and every other call gets the answer it got. */
  lemma {:induction false} ObserversDoNotMatter(rl: Limiter, rm: Limiter, ops: seq<Op>, erase: seq<bool>, start: real, end: real)
    requires |erase| == |ops| && Clocked(start, ops, end) && LimitersAlike(rl, rm, start)
    ensures Replies(rm, Thin(rl, ops, erase)) == ThinReplies(rl, ops, erase)
    decreases |ops|
  {
    hide Times;
    if ops != [] {
      var op := ops[0];
      if erase[0] && Observer(rl, op) {
        SkippedStep(rl, rm, op, start);
        ObserversDoNotMatter(Step(rl, op), rm, ops[1..], erase[1..], op.now, end);
      } else {
        SameStep(rl, rm, op, start);
        ObserversDoNotMatter(Step(rl, op), Step(rm, op), ops[1..], erase[1..], op.now, end);
        var rest := Thin(Step(rl, op), ops[1..], erase[1..]);
        assert ([op] + rest)[1..] == rest;
      }
    }
  }

  /** From the empty limiter, in particular. */
  lemma ErasingObservers(ops: seq<Op>, erase: seq<bool>, start: real, end: real)
    requires |erase| == |ops| && Clocked(start, ops, end)
    ensures Replies(map[], Thin(map[], ops, erase)) == ThinReplies(map[], ops, erase)
  {
    ObserversDoNotMatter(map[], map[], ops, erase, start, end);
  }

  // ---- waiting ----

  /** A sole caller refused at now is admitted d seconds later exactly when the bucket
      can hold a token and has refilled to one. */
  lemma AdmittedAfter(b: Bucket, now: real, d: real)
    requires b.last <= now && d > 0.0 && !b.Admits(now)
    ensures b.Consume(now).Admits(now + d) <==> b.max >= 1.0 && b.Refill(now).tokens + Times(d, b.rate) >= 1.0
  {
  }

  /** A bucket that never holds a whole token, or never gains anything. */
  predicate Stuck(b: Bucket) {
    b.max < 1.0 || b.rate <= 0.0
  }

  lemma NoGain(b: Bucket, now: real, d: real)
    requires b.last <= now && d > 0.0 && !b.Admits(now) && Stuck(b)
    ensures !AdmitsAfter(b, now, d)
  {
    hide Times, Bucket.Refill;
    Product(0.0, d, b.rate);
    AdmittedAfter(b, now, d);
  }

  predicate AdmitsAfter(b: Bucket, now: real, d: real) {
    d > 0.0 && b.Consume(now).Admits(now + d)
  }

  /** The seconds between two tokens. */
  function Interval(limit: int): real
    requires limit > 0
  {
    60.0 / limit as real
  }

  /** Waiting ever helps exactly when the burst is at least one and the limit is positive,
      and then 60/limit seconds are enough. */
  lemma WaitingHelps(b: Bucket, burst: int, limit: int, now: real)
    requires InUse(b, now) && b.max == burst as real && b.rate == PerSecond(limit)
    requires !b.Admits(now)
    ensures (exists d :: AdmitsAfter(b, now, d)) <==> burst >= 1 && limit > 0
    ensures burst >= 1 && limit > 0 ==> AdmitsAfter(b, now, Interval(limit))
  {
    hide Times, Interval;
    RateSign(limit);
    if burst >= 1 && limit > 0 {
      FullInterval(limit);
      RefillSound(b, now, now);
      AdmittedAfter(b, now, Interval(limit));
      assert AdmitsAfter(b, now, Interval(limit));
    } else {
      forall d | d > 0.0
        ensures !AdmitsAfter(b, now, d)
      {
        NoGain(b, now, d);
      }
    }
  }

  /** One poll after another, at these times, is refused. */
  predicate AllRefused(b: Bucket, polls: seq<real>)
    decreases |polls|
  {
    polls == [] || (!b.Admits(polls[0]) && AllRefused(b.Consume(polls[0]), polls[1..]))
  }

  predicate Ascending(start: real, polls: seq<real>)
    decreases |polls|
  {
    polls == [] || (start <= polls[0] && Ascending(polls[0], polls[1..]))
  }

  /** Polling on at these times after a refusal at now. */
  predicate RefusedAt(b: Bucket, now: real, polls: seq<real>) {
    Ascending(now, polls) ==> AllRefused(b.Consume(now), polls)
  }

  lemma {:induction false} StuckRefuses(b: Bucket, now: real, polls: seq<real>)
    requires b.last <= now && !b.Admits(now) && Stuck(b) && Ascending(now, polls)
    ensures AllRefused(b.Consume(now), polls)
    decreases |polls|
  {
    hide Times;
    if polls != [] {
      var waited := b.Consume(now);
      RefillAgain(b, now);
      if polls[0] > now {
        NoGain(b, now, polls[0] - now);
        assert now + (polls[0] - now) == polls[0];
      }
      StuckRefuses(waited, polls[0], polls[1..]);
    }
  }

  /** The loop of Wait: after a first refusal every later poll, however many and whenever,
      is refused exactly when the burst is below one or the limit not positive. */
  lemma WaitNeverReturns(b: Bucket, burst: int, limit: int, now: real)
    requires InUse(b, now) && b.max == burst as real && b.rate == PerSecond(limit)
    requires !b.Admits(now)
    ensures (forall polls :: RefusedAt(b, now, polls)) <==> burst < 1 || limit <= 0
  {
    hide Times, Interval, Bucket.Refill;
    RateSign(limit);
    if burst < 1 || limit <= 0 {
      forall polls
        ensures RefusedAt(b, now, polls)
      {
        if Ascending(now, polls) {
          StuckRefuses(b, now, polls);
        }
      }
    } else {
      WaitingHelps(b, burst, limit, now);
      var later := now + Interval(limit);
      assert Ascending(later, [later][1..]);
      assert !RefusedAt(b, now, [later]);
    }
  }

  lemma RateSign(limit: int)
    ensures limit <= 0 ==> PerSecond(limit) <= 0.0
    ensures limit >= 0 ==> PerSecond(limit) >= 0.0
  {
  }

  lemma FullInterval(limit: int)
    requires limit > 0
    ensures Interval(limit) > 0.0 && Times(Interval(limit), PerSecond(limit)) == 1.0
  {
    var l := limit as real;
    assert (60.0 / l) * l == 60.0;
    assert (60.0 / l) * (l / 60.0) == ((60.0 / l) * l) / 60.0;
  }

  // ---- the limiter's objects ----

  class TokenBucket {
    var tokens: real
    const max: real
    const rate: real
    var last: real

    ghost function Model(): Bucket
      reads this
    {
      Bucket(tokens, max, rate, last)
    }

    constructor (burst: int, limit: int, now: real)
      ensures Model() == NewBucket(burst, limit, now)
    {
      tokens, max, rate, last := burst as real, burst as real, PerSecond(limit), now;
    }

    method Refill(now: real)
      modifies this
      ensures Model() == old(Model()).Refill(now)
    {
      var elapsed := now - last;
      if elapsed > 0.0 {
        tokens := tokens + Times(elapsed, rate);
        if tokens > max {
          tokens := max;
        }
        last := now;
      }
    }

    method Consume(now: real) returns (ok: bool)
      modifies this
      ensures ok == old(Model()).Admits(now)
      ensures Model() == old(Model()).Consume(now)
    {
      Refill(now);
      if tokens >= 1.0 {
        tokens := tokens - 1.0;
        return true;
      }
      ok := false;
    }
  }

  datatype Buckets = Buckets(create: TokenBucket, api: TokenBucket?) {
    ghost function Model(): Limits
      reads create, api
    {
      Limits(create.Model(), if api == null then None else Some(api.Model()))
    }

    ghost function Objects(): set<TokenBucket> {
      {create} + if api == null then {} else {api}
    }
  }

  class RateLimiter {
    var configs: map<string, Buckets>

    ghost var repr: set<TokenBucket>

    /** Every bucket object belongs to one slot of one tenant. */
    ghost predicate Valid()
      reads this
    {
      && (forall t | t in configs :: configs[t].create != configs[t].api && configs[t].Objects() <= repr)
      && (forall t, u | t in configs && u in configs && t != u :: configs[t].Objects() !! configs[u].Objects())
    }

    ghost function Model(): Limiter
      requires Valid()
      reads this, repr
    {
      map t | t in configs :: configs[t].Model()
    }

    constructor ()
      ensures Valid() && Model() == map[] && repr == {}
    {
      configs, repr := map[], {};
    }

    method RegisterTenant(tenant: string, config: Config, now: real)
      requires Valid()
      modifies this
      ensures Valid() && fresh(repr - old(repr))
      ensures Model() == Step(old(Model()), Register(tenant, config, now))
    {
      hide NewLimits;
      var buckets := NewBuckets(config, now);
      configs, repr := configs[tenant := buckets], repr + buckets.Objects();
    }

    static method NewBuckets(config: Config, now: real) returns (b: Buckets)
      ensures fresh(b.Objects()) && b.create != b.api
      ensures b.Model() == NewLimits(config, now)
    {
      hide NewBucket;
      var create := new TokenBucket(config.createBurst, config.createLimit, now);
      var api: TokenBucket? := null;
      if config.apiLimit > 0 {
        var burst := config.apiBurst;
        if burst <= 0 {
          burst := config.apiLimit;
        }
        api := new TokenBucket(burst, config.apiLimit, now);
      }
      b := Buckets(create, api);
    }

    method UnregisterTenant(tenant: string, now: real)
      requires Valid()
      modifies this
      ensures Valid() && repr == old(repr)
      ensures Model() == Step(old(Model()), Unregister(tenant, now))
    {
      configs := configs - {tenant};
    }

    method Allow(tenant: string, operation: string, now: real) returns (allowed: bool)
      requires Valid()
      modifies repr
      ensures Valid()
      ensures Verdict(allowed) == Reply(old(Model()), Op.Allow(tenant, operation, now))
      ensures Model() == Step(old(Model()), Op.Allow(tenant, operation, now))
    {
      hide Times, IsApi, PerSecond;
      if tenant !in configs {
        return true;
      }
      var config := configs[tenant];
      var bucket := if IsApi(operation) then config.api else config.create;
      if bucket == null {
        return true;
      }
      assert bucket in config.Objects();
      ghost var before := Model();
      allowed := bucket.Consume(now);
      forall t | t in configs && t != tenant
        ensures configs[t].Model() == before[t]
      {
        assert bucket !in configs[t].Objects();
      }
    }

    method GetRemainingTokens(tenant: string, operation: string, now: real) returns (left: real)
      requires Valid()
      modifies repr
      ensures Valid()
      ensures Tokens(left) == Reply(old(Model()), Remaining(tenant, operation, now))
      ensures Model() == Step(old(Model()), Remaining(tenant, operation, now))
    {
      hide Times, IsApi, PerSecond;
      if tenant !in configs {
        return -1.0;
      }
      var config := configs[tenant];
      var bucket := if IsApi(operation) then config.api else config.create;
      if bucket == null {
        return -1.0;
      }
      assert bucket in config.Objects();
      ghost var before := Model();
      bucket.Refill(now);
      left := bucket.tokens;
      forall t | t in configs && t != tenant
        ensures configs[t].Model() == before[t]
      {
        assert bucket !in configs[t].Objects();
      }
    }

    /** Polls every 100 milliseconds; a sole caller is through within 60/limit seconds and one poll. */
    method Wait(tenant: string, operation: string, start: real) returns (end: real)
      requires Valid()
      requires var b := Bucketed(Model(), tenant, IsApi(operation));
               b.Some? ==> Sound(b.value, start) && b.value.max >= 1.0 && b.value.rate > 0.0
      modifies repr
      ensures Valid() && start <= end
      ensures var b := Bucketed(old(Model()), tenant, IsApi(operation));
              if b.None? then end == start else end <= start + Refilling(b.value.rate) + 0.1
    {
      hide Times, IsApi, PerSecond, Refilling;
      ghost var before := Model();
      ghost var b0 := Bucketed(before, tenant, IsApi(operation));
      ghost var rate := if b0.Some? then b0.value.rate else 1.0;
      end := start;
      if b0.Some? && !b0.value.Admits(start) {
        FirstRefusal(b0.value, start);
      }
      var allowed := Allow(tenant, operation, end);
      while !allowed
        invariant Valid() && start <= end
        invariant b0.None? ==> allowed && end == start
        invariant b0.Some? ==> Bucketed(Model(), tenant, IsApi(operation)).Some?
        invariant allowed || WaitedFor(Bucketed(Model(), tenant, IsApi(operation)).value, rate, start, end)
        invariant allowed && b0.Some? ==> end <= start + Refilling(rate) + 0.1
        decreases 10.0 * (start + Refilling(rate) - end), !allowed
      {
        ghost var b := Bucketed(Model(), tenant, IsApi(operation)).value;
        WaitedBound(b, rate, start, end);
        end := end + 0.1;
        WaitedOn(b, rate, start, end - 0.1, end);
        allowed := Allow(tenant, operation, end);
      }
    }
  }

  /** The seconds in which one token comes in. */
  function Refilling(rate: real): (seconds: real)
    requires rate > 0.0
    ensures seconds > 0.0
  {
    1.0 / rate
  }

  /** A bucket a sole caller was refused by at now has less than one token but at
      least what came in since the caller started. */
  predicate WaitedFor(b: Bucket, rate: real, start: real, now: real) {
    && b.max >= 1.0 && b.rate == rate > 0.0 && b.last == now && start <= now
    && Times(now - start, rate) <= b.tokens < 1.0
  }

  lemma FirstRefusal(b: Bucket, start: real)
    requires Sound(b, start) && b.max >= 1.0 && b.rate > 0.0 && !b.Admits(start)
    ensures WaitedFor(b.Consume(start), b.rate, start, start)
  {
    hide Times;
    RefillSound(b, start, start);
    Product(0.0, 0.0, b.rate);
  }

  lemma WaitedBound(b: Bucket, rate: real, start: real, now: real)
    requires WaitedFor(b, rate, start, now)
    ensures now < start + Refilling(rate)
  {
    Inverse(now - start, rate);
  }

  lemma Inverse(d: real, rate: real)
    requires rate > 0.0
    ensures Times(d, rate) < 1.0 ==> d < Refilling(rate)
  {
    var inverse := 1.0 / rate;
    assert Times(inverse, rate) == 1.0;
    Product(inverse, d - inverse, rate);
    assert inverse + (d - inverse) == d;
  }

  lemma WaitedOn(b: Bucket, rate: real, start: real, now: real, later: real)
    requires WaitedFor(b, rate, start, now) && now <= later
    ensures !b.Admits(later) ==> WaitedFor(b.Consume(later), rate, start, later)
  {
    hide Times;
    Product(now - start, later - now, rate);
    if !b.Admits(later) {
      var waited := b.Consume(later);
      assert later > now ==> waited.tokens == b.tokens + Times(later - now, rate);
      assert Times(later - start, rate) == Times(now - start, rate) + Times(later - now, rate);
    }
  }
}
