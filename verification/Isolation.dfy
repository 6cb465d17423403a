/** Tenant isolation: which tenants may talk to each other and which may be
    placed on a node. Grants are kept in a rule table written from both ends;
    node ownership in two indexes, with a third list inside each policy. */
module Isolation {
  import opened Wrappers

  const EVERYONE: string := "*"

  datatype Level = Standard | Enhanced | Maximum | Unspecified

  datatype NetworkPolicy = NetworkPolicy(allowInterTenant: bool, ingress: seq<string>)

  datatype TenantSpec = TenantSpec(level: Level, network: Option<NetworkPolicy>)

  datatype Policy = Policy(level: Level, network: Option<NetworkPolicy>, dedicated: seq<string>)

  type Rules = map<string, map<string, bool>>

  datatype State = State(
    policies: map<string, Policy>,
    rules: Rules,
    owner: map<string, string>,
    nodes: map<string, seq<string>>)

  const Init: State := State(map[], map[], map[], map[])

  datatype Op =
    | Register(tenant: string, spec: TenantSpec)
    | Unregister(tenant: string)
    | Assign(tenant: string, node: string)
    | Release(tenant: string, node: string)

  // ---- network rules ----

  function Put(rules: Rules, f: string, t: string): Rules {
    rules[f := (if f in rules then rules[f] else map[])[t := true]]
  }

  function PutAll(rules: Rules, fs: seq<string>, t: string): Rules {
    if fs == [] then rules else Put(PutAll(rules, fs[..|fs| - 1], t), fs[|fs| - 1], t)
  }

  function RegisterNetwork(rules: Rules, t: string, p: NetworkPolicy): Rules {
    var r := if p.allowInterTenant then Put(rules, t, EVERYONE) else rules;
    if p.ingress == [] then r
    else PutAll(if t in r then r else r[t := map[]], p.ingress, t)
  }

  /** The tenant's own rules go, its name goes from everyone else's, and emptied tables go. */
  function UnregisterNetwork(rules: Rules, t: string): Rules {
    map f | f in rules && f != t && rules[f] - {t} != map[] :: rules[f] - {t}
  }

  predicate HasRule(rules: Rules, f: string, t: string) {
    f in rules && t in rules[f]
  }

  function CommunicationAllowed(s: State, f: string, t: string): bool {
    if f == t then true
    else if HasRule(s.rules, f, t) then s.rules[f][t]
    else f in s.policies && s.policies[f].network.Some? && s.policies[f].network.value.allowInterTenant
  }

  // ---- nodes ----

  function NodesOf(nodes: map<string, seq<string>>, t: string): seq<string> {
    if t in nodes then nodes[t] else []
  }

  function RemoveFirst(xs: seq<string>, x: string): seq<string> {
    if xs == [] then []
    else if xs[0] == x then xs[1..]
    else [xs[0]] + RemoveFirst(xs[1..], x)
  }

  function WithDedicated(policies: map<string, Policy>, t: string, dedicated: seq<string>): map<string, Policy>
    requires t in policies
  {
    policies[t := policies[t].(dedicated := dedicated)]
  }

  function AssignNode(s: State, t: string, n: string): State {
    if n in s.owner then s
    else State(
      if t in s.policies then WithDedicated(s.policies, t, s.policies[t].dedicated + [n]) else s.policies,
      s.rules,
      s.owner[n := t],
      s.nodes[t := NodesOf(s.nodes, t) + [n]])
  }

  function ReleaseNode(s: State, t: string, n: string): State {
    if n !in s.owner || s.owner[n] != t then s
    else State(
      if t in s.policies then WithDedicated(s.policies, t, RemoveFirst(s.policies[t].dedicated, n)) else s.policies,
      s.rules,
      s.owner - {n},
      if t in s.nodes then s.nodes[t := RemoveFirst(s.nodes[t], n)] else s.nodes)
  }

  predicate NodeAllowed(s: State, t: string, n: string) {
    t in s.policies ==> n in s.owner ==> s.owner[n] == t
  }

  predicate PlacementValid(s: State, t: string, n: string) {
    t in s.policies ==>
      && NodeAllowed(s, t, n)
      && (s.policies[t].level == Maximum ==> n in s.policies[t].dedicated)
  }

  // ---- runs ----

  function Step(s: State, op: Op): State {
    match op
    case Register(t, spec) =>
      s.(policies := s.policies[t := Policy(spec.level, spec.network, [])],
         rules := if spec.network.Some? then RegisterNetwork(s.rules, t, spec.network.value) else s.rules)
    case Unregister(t) =>
      State(s.policies - {t}, UnregisterNetwork(s.rules, t),
            map n | n in s.owner && n !in NodesOf(s.nodes, t) :: s.owner[n],
            s.nodes - {t})
    case Assign(t, n) => AssignNode(s, t, n)
    case Release(t, n) => ReleaseNode(s, t, n)
  }

  function Run(h: seq<Op>): State {
    if h == [] then Init else Step(Run(h[..|h| - 1]), h[|h| - 1])
  }

  /** A registration of t that lists f, or of f open to everyone when t is that name. */
  predicate Grants(op: Op, f: string, t: string) {
    && op.Register? && op.spec.network.Some?
    && ((op.tenant == t && f in op.spec.network.value.ingress)
        || (op.tenant == f && t == EVERYONE && op.spec.network.value.allowInterTenant))
  }

  predicate Revokes(op: Op, f: string, t: string) {
    op.Unregister? && (op.tenant == f || op.tenant == t)
  }

  predicate GrantedAt(h: seq<Op>, i: nat, f: string, t: string) {
    i < |h| && Grants(h[i], f, t) && forall j | i < j < |h| :: !Revokes(h[j], f, t)
  }

  /** Some registration granted f -> t, and neither was unregistered since. */
  ghost predicate Granted(h: seq<Op>, f: string, t: string) {
    exists i: nat :: GrantedAt(h, i, f, t)
  }

  lemma PutRule(rules: Rules, a: string, b: string)
    ensures forall f, u :: HasRule(Put(rules, a, b), f, u) <==> HasRule(rules, f, u) || (f == a && u == b)
  {
  }

  lemma UnregisterRules(rules: Rules, t: string)
    ensures forall f, u :: HasRule(UnregisterNetwork(rules, t), f, u) <==> HasRule(rules, f, u) && f != t && u != t
    ensures forall f | f in UnregisterNetwork(rules, t) :: UnregisterNetwork(rules, t)[f] != map[]
  {
    forall f, u | HasRule(rules, f, u) && f != t && u != t
      ensures HasRule(UnregisterNetwork(rules, t), f, u)
    {
      assert u in rules[f] - {t};
    }
  }

  lemma {:induction false} PutAllRules(rules: Rules, fs: seq<string>, t: string)
    ensures forall f, u :: HasRule(PutAll(rules, fs, t), f, u) <==> HasRule(rules, f, u) || (f in fs && u == t)
  {
    if fs != [] {
      PutAllRules(rules, fs[..|fs| - 1], t);
      PutRule(PutAll(rules, fs[..|fs| - 1], t), fs[|fs| - 1], t);
      assert fs == fs[..|fs| - 1] + [fs[|fs| - 1]];
    }
  }

  lemma RegisterRules(s: State, op: Op)
    requires op.Register?
    ensures forall f, t :: HasRule(Step(s, op).rules, f, t) <==> HasRule(s.rules, f, t) || Grants(op, f, t)
  {
    if op.spec.network.Some? {
      var p := op.spec.network.value;
      var r := if p.allowInterTenant then Put(s.rules, op.tenant, EVERYONE) else s.rules;
      PutRule(s.rules, op.tenant, EVERYONE);
      PutAllRules(if op.tenant in r then r else r[op.tenant := map[]], p.ingress, op.tenant);
    }
  }

  lemma GrantedSnoc(h: seq<Op>, op: Op, f: string, t: string)
    ensures Granted(h + [op], f, t) <==> Grants(op, f, t) || (Granted(h, f, t) && !Revokes(op, f, t))
  {
    var h' := h + [op];
    assert h'[|h|] == op && forall j | 0 <= j < |h| :: h'[j] == h[j];
    if Grants(op, f, t) {
      assert GrantedAt(h', |h|, f, t);
    }
    if Granted(h, f, t) && !Revokes(op, f, t) {
      var i: nat :| GrantedAt(h, i, f, t);
      assert GrantedAt(h', i, f, t);
    }
    if Granted(h', f, t) && !Grants(op, f, t) {
      var i: nat :| GrantedAt(h', i, f, t);
      assert GrantedAt(h, i, f, t);
    }
  }

  /** Grant history: in every reachable state the rule f -> t exists exactly when
      it was granted and not taken back by unregistering either of the two. */
  lemma {:induction false} RulesAreGrants(h: seq<Op>, f: string, t: string)
    ensures HasRule(Run(h).rules, f, t) <==> Granted(h, f, t)
  {
    if h != [] {
      var before, op := h[..|h| - 1], h[|h| - 1];
      assert h == before + [op];
      RulesAreGrants(before, f, t);
      GrantedSnoc(before, op, f, t);
      if op.Register? {
        RegisterRules(Run(before), op);
      } else if op.Unregister? {
        UnregisterRules(Run(before).rules, op.tenant);
      }
    }
  }

  ghost predicate OnlyTrue(rules: Rules) {
    forall f, t | HasRule(rules, f, t) :: rules[f][t]
  }

  lemma {:induction false} PutAllTrue(rules: Rules, fs: seq<string>, t: string)
    requires OnlyTrue(rules)
    ensures OnlyTrue(PutAll(rules, fs, t))
  {
    if fs != [] {
      PutAllTrue(rules, fs[..|fs| - 1], t);
    }
  }

  lemma {:induction false} RulesTrue(h: seq<Op>)
    ensures OnlyTrue(Run(h).rules)
  {
    if h != [] {
      var before, op := h[..|h| - 1], h[|h| - 1];
      RulesTrue(before);
      if op.Register? && op.spec.network.Some? {
        var p := op.spec.network.value;
        var r := if p.allowInterTenant then Put(Run(before).rules, op.tenant, EVERYONE) else Run(before).rules;
        PutAllTrue(if op.tenant in r then r else r[op.tenant := map[]], p.ingress, op.tenant);
      }
    }
  }

  /** The specification the tenant was last registered with, if it is registered. */
  function CurrentSpec(h: seq<Op>, t: string): Option<TenantSpec> {
    if h == [] then None
    else
      var op := h[|h| - 1];
      if op.Register? && op.tenant == t then Some(op.spec)
      else if op.Unregister? && op.tenant == t then None
      else CurrentSpec(h[..|h| - 1], t)
  }

  lemma {:induction false} PolicyIsCurrentSpec(h: seq<Op>, t: string)
    ensures var policies := Run(h).policies;
            && (t in policies <==> CurrentSpec(h, t).Some?)
            && (t in policies ==> CurrentSpec(h, t) == Some(TenantSpec(policies[t].level, policies[t].network)))
  {
    if h != [] {
      PolicyIsCurrentSpec(h[..|h| - 1], t);
    }
  }

  /** Traffic between two tenants is allowed exactly when they are one, one granted it to the
      other, or the sender's current policy is open. */
  lemma TrafficIsGranted(h: seq<Op>, f: string, t: string)
    ensures CommunicationAllowed(Run(h), f, t) <==>
              || f == t
              || Granted(h, f, t)
              || (CurrentSpec(h, f).Some? && CurrentSpec(h, f).value.network.Some?
                  && CurrentSpec(h, f).value.network.value.allowInterTenant)
  {
    RulesAreGrants(h, f, t);
    RulesTrue(h);
    PolicyIsCurrentSpec(h, f);
  }

  // ---- placement ----

  predicate NoDuplicates(xs: seq<string>) {
    forall i, j | 0 <= i < j < |xs| :: xs[i] != xs[j]
  }

  predicate IsSuffix(d: seq<string>, xs: seq<string>) {
    |d| <= |xs| && xs[|xs| - |d|..] == d
  }

  /** The two node indexes are inverse to each other, without duplicates. */
  ghost predicate Indexed(owner: map<string, string>, nodes: map<string, seq<string>>) {
    && (forall t, n | t in nodes && n in nodes[t] :: n in owner && owner[n] == t)
    && (forall n | n in owner :: n in NodesOf(nodes, owner[n]))
    && (forall t | t in nodes :: NoDuplicates(nodes[t]))
  }

  /** And each policy's list is the most recent part of its tenant's nodes. */
  ghost predicate Placed(s: State) {
    && Indexed(s.owner, s.nodes)
    && (forall t | t in s.policies :: IsSuffix(s.policies[t].dedicated, NodesOf(s.nodes, t)))
  }

  lemma {:induction false} RemoveFirstMember(xs: seq<string>, x: string, y: string)
    requires NoDuplicates(xs)
    ensures y in RemoveFirst(xs, x) <==> y in xs && y != x
    decreases |xs|
  {
    if xs != [] {
      assert xs == [xs[0]] + xs[1..];
      if xs[0] != x {
        RemoveFirstMember(xs[1..], x, y);
      }
    }
  }

  lemma {:induction false} RemoveFirstDistinct(xs: seq<string>, x: string)
    requires NoDuplicates(xs)
    ensures NoDuplicates(RemoveFirst(xs, x))
    decreases |xs|
  {
    if xs != [] && xs[0] != x {
      var rest := RemoveFirst(xs[1..], x);
      RemoveFirstDistinct(xs[1..], x);
      forall j | 0 <= j < |rest|
        ensures rest[j] != xs[0]
      {
        RemoveFirstMember(xs[1..], x, rest[j]);
      }
    }
  }

  lemma RemoveFirstKeeps(xs: seq<string>, x: string)
    requires NoDuplicates(xs)
    ensures NoDuplicates(RemoveFirst(xs, x))
    ensures forall y :: y in RemoveFirst(xs, x) <==> y in xs && y != x
  {
    RemoveFirstDistinct(xs, x);
    forall y
      ensures y in RemoveFirst(xs, x) <==> y in xs && y != x
    {
      RemoveFirstMember(xs, x, y);
    }
  }

  lemma {:induction false} RemoveFirstAppend(a: seq<string>, b: seq<string>, x: string)
    ensures RemoveFirst(a + b, x) == if x in a then RemoveFirst(a, x) + b else a + RemoveFirst(b, x)
    decreases |a|
  {
    if a == [] {
      assert a + b == b;
    } else {
      assert (a + b)[1..] == a[1..] + b && (a + b)[0] == a[0];
      assert a == [a[0]] + a[1..];
      if a[0] != x {
        RemoveFirstAppend(a[1..], b, x);
        assert x in a <==> x in a[1..];
        assert RemoveFirst(a + b, x) == [a[0]] + RemoveFirst(a[1..] + b, x);
        if x !in a {
          assert [a[0]] + (a[1..] + RemoveFirst(b, x)) == a + RemoveFirst(b, x);
        }
      }
    }
  }

  lemma {:induction false} RemoveMissing(xs: seq<string>, x: string)
    requires x !in xs
    ensures RemoveFirst(xs, x) == xs
    decreases |xs|
  {
    if xs != [] {
      RemoveMissing(xs[1..], x);
      assert xs == [xs[0]] + xs[1..];
    }
  }

  lemma SuffixAfterRemoval(d: seq<string>, xs: seq<string>, x: string)
    requires IsSuffix(d, xs) && NoDuplicates(xs)
    ensures IsSuffix(RemoveFirst(d, x), RemoveFirst(xs, x))
  {
    var front := xs[..|xs| - |d|];
    assert xs == front + d;
    RemoveFirstAppend(front, d, x);
    if x in front {
      var i :| 0 <= i < |front| && front[i] == x;
      assert xs[i] == x && forall j | 0 <= j < |d| :: d[j] == xs[|front| + j];
      RemoveMissing(d, x);
    }
  }

  lemma IndexedRelease(owner: map<string, string>, nodes: map<string, seq<string>>, t: string, n: string)
    requires Indexed(owner, nodes) && n in owner && owner[n] == t && t in nodes
    ensures Indexed(owner - {n}, nodes[t := RemoveFirst(nodes[t], n)])
  {
    hide RemoveFirst, NoDuplicates;
    RemoveFirstKeeps(nodes[t], n);
    var owner', nodes' := owner - {n}, nodes[t := RemoveFirst(nodes[t], n)];
    forall u, m | u in nodes' && m in nodes'[u]
      ensures m in owner' && owner'[m] == u
    {
      assert m in nodes[u];
    }
    forall m | m in owner'
      ensures m in NodesOf(nodes', owner'[m])
    {
      assert m in NodesOf(nodes, owner[m]);
    }
  }

  lemma PlacedRelease(s: State, t: string, n: string)
    requires Placed(s)
    ensures Placed(ReleaseNode(s, t, n))
  {
    if n in s.owner && s.owner[n] == t {
      assert t in s.nodes;
      IndexedRelease(s.owner, s.nodes, t, n);
      if t in s.policies {
        SuffixAfterRemoval(s.policies[t].dedicated, s.nodes[t], n);
      }
    }
  }

  lemma IndexedAssign(owner: map<string, string>, nodes: map<string, seq<string>>, t: string, n: string)
    requires Indexed(owner, nodes) && n !in owner
    ensures Indexed(owner[n := t], nodes[t := NodesOf(nodes, t) + [n]])
  {
    hide NoDuplicates;
    var xs := NodesOf(nodes, t);
    assert n !in xs;
    var ys := xs + [n];
    MemberOfLonger(xs, n);
    NoDuplicatesGrows(xs, n);
    var owner', nodes' := owner[n := t], nodes[t := ys];
    forall u, m | u in nodes' && m in nodes'[u]
      ensures m in owner' && owner'[m] == u
    {
      assert u == t ==> m == n || m in xs;
    }
    forall m | m in owner'
      ensures m in NodesOf(nodes', owner'[m])
    {
      if m != n {
        assert m in NodesOf(nodes, owner[m]);
      }
    }
  }

  lemma MemberOfLonger(xs: seq<string>, x: string)
    ensures forall y :: y in xs + [x] <==> y in xs || y == x
  {
    assert (xs + [x])[|xs|] == x;
  }

  lemma NoDuplicatesGrows(xs: seq<string>, x: string)
    requires x !in xs && (xs == [] || NoDuplicates(xs))
    ensures NoDuplicates(xs + [x])
  {
  }

  lemma SuffixGrows(d: seq<string>, xs: seq<string>, x: string)
    requires IsSuffix(d, xs)
    ensures IsSuffix(d + [x], xs + [x])
  {
    assert (xs + [x])[|xs| - |d|..] == xs[|xs| - |d|..] + [x];
  }

  lemma PlacedAssign(s: State, t: string, n: string)
    requires Placed(s)
    ensures Placed(AssignNode(s, t, n))
  {
    hide Indexed, IsSuffix;
    if n !in s.owner {
      IndexedAssign(s.owner, s.nodes, t, n);
      if t in s.policies {
        SuffixGrows(s.policies[t].dedicated, NodesOf(s.nodes, t), n);
      }
    }
  }

  lemma IndexedUnregister(owner: map<string, string>, nodes: map<string, seq<string>>, t: string)
    requires Indexed(owner, nodes)
    ensures Indexed(map n | n in owner && n !in NodesOf(nodes, t) :: owner[n], nodes - {t})
  {
    var owner', nodes' := map n | n in owner && n !in NodesOf(nodes, t) :: owner[n], nodes - {t};
    forall u, n | u in nodes' && n in nodes'[u]
      ensures n in owner' && owner'[n] == u
    {
      assert n in nodes[u] && owner[n] == u;
      assert n !in NodesOf(nodes, t);
    }
    forall n | n in owner'
      ensures n in NodesOf(nodes', owner'[n])
    {
      assert n in NodesOf(nodes, owner[n]);
    }
    forall u | u in nodes'
      ensures NoDuplicates(nodes'[u])
    {
      assert NoDuplicates(nodes[u]);
    }
  }

  lemma PlacedUnregister(s: State, t: string)
    requires Placed(s)
    ensures Placed(Step(s, Unregister(t)))
  {
    IndexedUnregister(s.owner, s.nodes, t);
    var s' := Step(s, Unregister(t));
    assert s'.owner == map n | n in s.owner && n !in NodesOf(s.nodes, t) :: s.owner[n];
    hide Indexed, IsSuffix;
    forall u | u in s'.policies
      ensures IsSuffix(s'.policies[u].dedicated, NodesOf(s'.nodes, u))
    {
      assert u != t && NodesOf(s'.nodes, u) == NodesOf(s.nodes, u);
    }
  }

  /** In every reachable state node ownership is consistent. */
  lemma {:induction false} AlwaysPlaced(h: seq<Op>)
    ensures Placed(Run(h))
  {
    if h != [] {
      var s, op := Run(h[..|h| - 1]), h[|h| - 1];
      AlwaysPlaced(h[..|h| - 1]);
      match op
      case Assign(t, n) => PlacedAssign(s, t, n);
      case Release(t, n) => PlacedRelease(s, t, n);
      case Unregister(t) => PlacedUnregister(s, t);
      case Register(t, spec) =>
    }
  }

  /** Placement exclusivity: on a node where a Maximum-isolation tenant is valid,
      another tenant is valid exactly when it has no policy at all. */
  lemma MaximumIsExclusive(h: seq<Op>, a: string, b: string, n: string)
    requires a in Run(h).policies && Run(h).policies[a].level == Maximum && PlacementValid(Run(h), a, n)
    requires a != b
    ensures PlacementValid(Run(h), b, n) <==> b !in Run(h).policies
  {
    hide Placed, Run;
    AlwaysPlaced(h);
    DedicatedOwned(Run(h), a, n);
  }

  /** Position i assigned a free node to a registered tenant, and since then the
      tenant was neither registered again nor removed, nor the node released. */
  predicate DedicatedAt(h: seq<Op>, i: nat, t: string, n: string) {
    && i < |h| && h[i] == Assign(t, n)
    && n !in Run(h[..i]).owner && t in Run(h[..i]).policies
    && forall j | i < j < |h| :: !((h[j].Register? || h[j].Unregister?) && h[j].tenant == t) && h[j] != Release(t, n)
  }

  ghost predicate DedicatedSince(h: seq<Op>, t: string, n: string) {
    exists i: nat :: DedicatedAt(h, i, t, n)
  }

  lemma DedicatedSnoc(h: seq<Op>, op: Op, t: string, n: string)
    ensures DedicatedSince(h + [op], t, n) <==>
              || (op == Assign(t, n) && n !in Run(h).owner && t in Run(h).policies)
              || (DedicatedSince(h, t, n) && !((op.Register? || op.Unregister?) && op.tenant == t) && op != Release(t, n))
  {
    var h' := h + [op];
    assert h'[|h|] == op && h'[..|h|] == h && forall j | 0 <= j < |h| :: h'[j] == h[j] && h'[..j] == h[..j];
    if op == Assign(t, n) && n !in Run(h).owner && t in Run(h).policies {
      assert DedicatedAt(h', |h|, t, n);
    }
    if DedicatedSince(h, t, n) && !((op.Register? || op.Unregister?) && op.tenant == t) && op != Release(t, n) {
      var i: nat :| DedicatedAt(h, i, t, n);
      assert DedicatedAt(h', i, t, n);
    }
    if DedicatedSince(h', t, n) {
      var i: nat :| DedicatedAt(h', i, t, n);
      if i < |h| {
        assert DedicatedAt(h, i, t, n);
      }
    }
  }

  predicate Lists(s: State, t: string, n: string) {
    t in s.policies && n in s.policies[t].dedicated
  }

  lemma ListsRelease(s: State, t: string, m: string, n: string)
    requires Placed(s) && t in s.policies
    ensures Lists(ReleaseNode(s, t, m), t, n) <==> Lists(s, t, n) && m != n
  {
    hide Indexed;
    DedicatedDistinct(s, t);
    DedicatedOwned(s, t, n);
    RemoveFirstMember(s.policies[t].dedicated, m, n);
  }

  lemma ListsStep(s: State, op: Op, t: string, n: string)
    requires Placed(s)
    ensures Lists(Step(s, op), t, n) <==>
              || (op == Assign(t, n) && n !in s.owner && t in s.policies)
              || (Lists(s, t, n) && !((op.Register? || op.Unregister?) && op.tenant == t) && op != Release(t, n))
  {
    hide Placed;
    if op.Release? && op.tenant == t && t in s.policies {
      ListsRelease(s, t, op.node, n);
    }
  }

  /** A policy lists a node exactly when the node was assigned to the tenant since
      it was last registered, and not released. */
  lemma {:induction false} DedicatedHistory(h: seq<Op>, t: string, n: string)
    ensures (t in Run(h).policies && n in Run(h).policies[t].dedicated) <==> DedicatedSince(h, t, n)
  {
    if h != [] {
      var before, op := h[..|h| - 1], h[|h| - 1];
      assert h == before + [op];
      DedicatedHistory(before, t, n);
      DedicatedSnoc(before, op, t, n);
      AlwaysPlaced(before);
      ListsStep(Run(before), op, t, n);
    }
  }

  /** A Maximum-isolation tenant is valid on a node exactly when the node was assigned to
      it since its last registration and not released. */
  lemma MaximumValidExactly(h: seq<Op>, t: string, n: string)
    requires t in Run(h).policies && Run(h).policies[t].level == Maximum
    ensures PlacementValid(Run(h), t, n) <==> DedicatedSince(h, t, n)
  {
    hide Run, Placed, DedicatedSince;
    AlwaysPlaced(h);
    DedicatedHistory(h, t, n);
    DedicatedOwned(Run(h), t, n);
  }

  /** Position i gave a free node to u, and u neither released it nor was unregistered since. */
  predicate OwnedAt(h: seq<Op>, i: nat, u: string, n: string) {
    && i < |h| && h[i] == Assign(u, n) && n !in Run(h[..i]).owner
    && forall j | i < j < |h| :: h[j] != Release(u, n) && h[j] != Unregister(u)
  }

  ghost predicate OwnedSince(h: seq<Op>, u: string, n: string) {
    exists i: nat :: OwnedAt(h, i, u, n)
  }

  predicate Owns(s: State, u: string, n: string) {
    n in s.owner && s.owner[n] == u
  }

  lemma OwnedSnoc(h: seq<Op>, op: Op, u: string, n: string)
    ensures OwnedSince(h + [op], u, n) <==>
              || (op == Assign(u, n) && n !in Run(h).owner)
              || (OwnedSince(h, u, n) && op != Release(u, n) && op != Unregister(u))
  {
    hide Run;
    var h' := h + [op];
    assert h'[|h|] == op && h'[..|h|] == h && forall j | 0 <= j < |h| :: h'[j] == h[j] && h'[..j] == h[..j];
    if op == Assign(u, n) && n !in Run(h).owner {
      assert OwnedAt(h', |h|, u, n);
    }
    if OwnedSince(h, u, n) && op != Release(u, n) && op != Unregister(u) {
      var i: nat :| OwnedAt(h, i, u, n);
      assert OwnedAt(h', i, u, n);
    }
    if OwnedSince(h', u, n) {
      var i: nat :| OwnedAt(h', i, u, n);
      if i < |h| {
        assert OwnedAt(h, i, u, n);
      }
    }
  }

  lemma OwnsStep(s: State, op: Op, u: string, n: string)
    requires Placed(s)
    ensures Owns(Step(s, op), u, n) <==>
              || (op == Assign(u, n) && n !in s.owner)
              || (Owns(s, u, n) && op != Release(u, n) && op != Unregister(u))
  {
    assert n in s.owner ==> n in NodesOf(s.nodes, s.owner[n]);
  }

  /** A tenant owns a node exactly when it was given the free node and neither released it nor was unregistered. */
  lemma {:induction false} OwnerHistory(h: seq<Op>, u: string, n: string)
    ensures Owns(Run(h), u, n) <==> OwnedSince(h, u, n)
  {
    if h != [] {
      var before, op := h[..|h| - 1], h[|h| - 1];
      assert h == before + [op];
      OwnerHistory(before, u, n);
      OwnedSnoc(before, op, u, n);
      AlwaysPlaced(before);
      OwnsStep(Run(before), op, u, n);
    }
  }

  /** Placement by history alone: a tenant without a policy is valid anywhere, one at Maximum only
      on nodes dedicated to it since its last registration, any other wherever no other tenant owns the node. */
  lemma ValidExactly(h: seq<Op>, t: string, n: string)
    ensures PlacementValid(Run(h), t, n) <==>
              match CurrentSpec(h, t)
              case None => true
              case Some(spec) => if spec.level == Maximum then DedicatedSince(h, t, n) else forall u | u != t :: !OwnedSince(h, u, n)
  {
    hide Run, OwnedSince, DedicatedSince, CurrentSpec;
    PolicyIsCurrentSpec(h, t);
    if t in Run(h).policies {
      if Run(h).policies[t].level == Maximum {
        MaximumValidExactly(h, t, n);
      } else {
        forall u
          ensures Owns(Run(h), u, n) <==> OwnedSince(h, u, n)
        {
          OwnerHistory(h, u, n);
        }
        assert n in Run(h).owner ==> Owns(Run(h), Run(h).owner[n], n);
      }
    }
  }

  lemma DedicatedDistinct(s: State, t: string)
    requires Placed(s) && t in s.policies
    ensures NoDuplicates(s.policies[t].dedicated)
  {
    var d, xs := s.policies[t].dedicated, NodesOf(s.nodes, t);
    assert forall i | 0 <= i < |d| :: d[i] == xs[|xs| - |d| + i];
  }

  lemma DedicatedOwned(s: State, t: string, n: string)
    requires Placed(s) && t in s.policies
    ensures n in s.policies[t].dedicated ==> n in s.owner && s.owner[n] == t
  {
    var d, xs := s.policies[t].dedicated, NodesOf(s.nodes, t);
    assert forall i | 0 <= i < |d| :: d[i] == xs[|xs| - |d| + i];
  }

  /** Registering a Maximum-isolation tenant again makes every node it owns invalid
      for it; assigning such a node again succeeds but changes nothing, while
      releasing it first does help. */
  lemma ReregisteringStrandsNodes(h: seq<Op>, t: string, spec: TenantSpec, n: string)
    requires spec.level == Maximum
    requires n in Run(h).owner && Run(h).owner[n] == t
    ensures var h1 := h + [Register(t, spec)];
            && Run(h1).owner[n] == t
            && !PlacementValid(Run(h1), t, n)
            && Run(h1 + [Assign(t, n)]) == Run(h1)
            && PlacementValid(Run(h1 + [Release(t, n)] + [Assign(t, n)]), t, n)
  {
    var h1 := h + [Register(t, spec)];
    assert h1[..|h|] == h;
    assert (h1 + [Assign(t, n)])[..|h1|] == h1;
    var h2 := h1 + [Release(t, n)];
    assert h2[..|h1|] == h1;
    assert (h2 + [Assign(t, n)])[..|h2|] == h2;
  }

  // ---- the enforcer's objects ----

  class NetworkIsolationManager {
    var rules: Rules

    constructor ()
      ensures rules == map[]
    {
      rules := map[];
    }

    method AddRule(from: string, to: string)
      modifies this
      ensures rules == Put(old(rules), from, to)
    {
      if from !in rules {
        rules := rules[from := map[]];
      }
      rules := rules[from := rules[from][to := true]];
    }

    method RegisterTenantNetwork(tenant: string, policy: NetworkPolicy)
      modifies this
      ensures rules == RegisterNetwork(old(rules), tenant, policy)
    {
      if policy.allowInterTenant {
        AddRule(tenant, EVERYONE);
      }
      if |policy.ingress| > 0 {
        if tenant !in rules {
          rules := rules[tenant := map[]];
        }
        ghost var base := rules;
        for i := 0 to |policy.ingress|
          invariant rules == PutAll(base, policy.ingress[..i], tenant)
        {
          AddRule(policy.ingress[i], tenant);
          assert policy.ingress[..i + 1][..i] == policy.ingress[..i];
        }
        assert policy.ingress[..|policy.ingress|] == policy.ingress;
      }
    }

    method DropName(from: string, tenant: string)
      requires from in rules
      modifies this
      ensures var left := old(rules)[from] - {tenant};
              rules == if left == map[] then old(rules) - {from} else old(rules)[from := left]
    {
      var left := rules[from] - {tenant};
      if left == map[] {
        rules := rules - {from};
      } else {
        rules := rules[from := left];
      }
    }

    method UnregisterTenantNetwork(tenant: string)
      modifies this
      ensures rules == UnregisterNetwork(old(rules), tenant)
    {
      rules := rules - {tenant};
      ghost var base := rules;
      var todo := rules.Keys;
      while todo != {}
        invariant todo <= base.Keys
        invariant forall f :: f in rules <==> f in base && (f in todo || base[f] - {tenant} != map[])
        invariant forall f | f in rules :: rules[f] == if f in todo then base[f] else base[f] - {tenant}
        decreases |todo|
      {
        var f :| f in todo;
        DropName(f, tenant);
        todo := todo - {f};
      }
    }
  }

  class NodeIsolationManager {
    var owner: map<string, string>
    var nodes: map<string, seq<string>>

    constructor ()
      ensures owner == map[] && nodes == map[]
    {
      owner, nodes := map[], map[];
    }

    method UnregisterTenantNodes(tenant: string)
      modifies this
      ensures owner == map n | n in old(owner) && n !in NodesOf(old(nodes), tenant) :: old(owner)[n]
      ensures nodes == old(nodes) - {tenant}
    {
      if tenant !in nodes {
        return;
      }
      var mine := nodes[tenant];
      for i := 0 to |mine|
        invariant nodes == old(nodes)
        invariant owner == map n | n in old(owner) && n !in mine[..i] :: old(owner)[n]
      {
        owner := owner - {mine[i]};
        assert mine[..i + 1] == mine[..i] + [mine[i]];
      }
      assert mine[..|mine|] == mine;
      nodes := nodes - {tenant};
    }
  }

  /** The slice-removal loop: drop the first occurrence, if there is one. */
  method RemoveLoop(xs: seq<string>, x: string) returns (ys: seq<string>)
    ensures ys == RemoveFirst(xs, x)
  {
    for i := 0 to |xs|
      invariant x !in xs[..i]
    {
      if xs[i] == x {
        RemoveFirstAppend(xs[..i], xs[i..], x);
        assert xs == xs[..i] + xs[i..];
        return xs[..i] + xs[i + 1..];
      }
      assert xs[..i + 1] == xs[..i] + [xs[i]];
    }
    assert xs[..|xs|] == xs;
    RemoveMissing(xs, x);
    ys := xs;
  }

  class IsolationEnforcer {
    var policies: map<string, Policy>
    const network: NetworkIsolationManager
    const nodeIsolation: NodeIsolationManager

    ghost function Model(): State
      reads this, network, nodeIsolation
    {
      State(policies, network.rules, nodeIsolation.owner, nodeIsolation.nodes)
    }

    constructor ()
      ensures Model() == Init && fresh(network) && fresh(nodeIsolation)
    {
      policies := map[];
      network := new NetworkIsolationManager();
      nodeIsolation := new NodeIsolationManager();
    }

    method RegisterIsolationPolicy(tenant: string, spec: TenantSpec)
      modifies this, network
      ensures Model() == Step(old(Model()), Register(tenant, spec))
    {
      policies := policies[tenant := Policy(spec.level, spec.network, [])];
      if spec.network.Some? {
        network.RegisterTenantNetwork(tenant, spec.network.value);
      }
    }

    method UnregisterIsolationPolicy(tenant: string)
      modifies this, network, nodeIsolation
      ensures Model() == Step(old(Model()), Unregister(tenant))
    {
      policies := policies - {tenant};
      network.UnregisterTenantNetwork(tenant);
      nodeIsolation.UnregisterTenantNodes(tenant);
    }

    method AssignDedicatedNode(tenant: string, node: string) returns (ok: bool)
      modifies this, nodeIsolation
      ensures ok <==> node !in old(nodeIsolation.owner) || old(nodeIsolation.owner)[node] == tenant
      ensures Model() == Step(old(Model()), Assign(tenant, node))
    {
      if node in nodeIsolation.owner {
        return nodeIsolation.owner[node] == tenant;
      }
      nodeIsolation.owner := nodeIsolation.owner[node := tenant];
      var mine := if tenant in nodeIsolation.nodes then nodeIsolation.nodes[tenant] else [];
      nodeIsolation.nodes := nodeIsolation.nodes[tenant := mine + [node]];
      if tenant in policies {
        var p := policies[tenant];
        policies := policies[tenant := p.(dedicated := p.dedicated + [node])];
      }
      ok := true;
    }

    method ReleaseDedicatedNode(tenant: string, node: string) returns (ok: bool)
      modifies this, nodeIsolation
      ensures ok <==> node in old(nodeIsolation.owner) && old(nodeIsolation.owner)[node] == tenant
      ensures Model() == Step(old(Model()), Release(tenant, node))
    {
      if node !in nodeIsolation.owner || nodeIsolation.owner[node] != tenant {
        return false;
      }
      nodeIsolation.owner := nodeIsolation.owner - {node};
      if tenant in nodeIsolation.nodes {
        var left := RemoveLoop(nodeIsolation.nodes[tenant], node);
        nodeIsolation.nodes := nodeIsolation.nodes[tenant := left];
      }
      if tenant in policies {
        var p := policies[tenant];
        var left := RemoveLoop(p.dedicated, node);
        policies := policies[tenant := p.(dedicated := left)];
      }
      ok := true;
    }

    method IsNetworkCommunicationAllowed(from: string, to: string) returns (allowed: bool)
      ensures allowed == CommunicationAllowed(Model(), from, to)
    {
      if from == to {
        return true;
      }
      if from in network.rules && to in network.rules[from] {
        return network.rules[from][to];
      }
      if from !in policies || policies[from].network.None? {
        return false;
      }
      allowed := policies[from].network.value.allowInterTenant;
    }

    method ValidateSandboxPlacement(tenant: string, node: string) returns (ok: bool)
      ensures ok == PlacementValid(Model(), tenant, node)
    {
      if tenant !in policies {
        return true;
      }
      if node in nodeIsolation.owner && nodeIsolation.owner[node] != tenant {
        return false;
      }
      if policies[tenant].level == Maximum {
        var dedicated := policies[tenant].dedicated;
        for i := 0 to |dedicated|
          invariant node !in dedicated[..i]
        {
          if dedicated[i] == node {
            return true;
          }
          assert dedicated[..i + 1] == dedicated[..i] + [dedicated[i]];
        }
        assert dedicated[..|dedicated|] == dedicated;
        return false;
      }
      ok := true;
    }
  }
}
