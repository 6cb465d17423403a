/** The scheduler's cache: sandboxes by key, nodes with the sandboxes on them,
    and bindings that are assumed until confirmed or forgotten. Timestamps are not modelled. */
module SandboxCache {
  import opened Wrappers

  /** The parts of a sandbox object the cache looks at; payload stands for the rest. */
  datatype Sandbox = Sandbox(namespace: string, name: string, node: string, payload: int) {
    function Key(): string {
      namespace + "/" + name
    }
  }

  /** A key begins with the namespace and ends with the name; where namespaces have no
      separator in them, two sandboxes share a key only if they agree in both. */
  lemma KeysIdentify(a: Sandbox, b: Sandbox)
    ensures a.namespace <= a.Key() && |a.Key()| == |a.namespace| + 1 + |a.name| && a.Key()[|a.namespace| + 1..] == a.name
    ensures '/' !in a.namespace && '/' !in b.namespace ==>
              (a.Key() == b.Key() <==> a.namespace == b.namespace && a.name == b.name)
  {
    var m, n := |a.namespace|, |b.namespace|;
    assert a.Key()[m] == '/' && b.Key()[n] == '/';
    assert a.Key()[..m] == a.namespace && b.Key()[..n] == b.namespace;
    assert a.Key()[m + 1..] == a.name && b.Key()[n + 1..] == b.name;
    if a.Key() == b.Key() {
      assert m < n ==> b.namespace[m] == '/';
      assert n < m ==> a.namespace[n] == '/';
    }
  }

  const UNBOUND: string := ""

  function Without<K, V>(m: map<K, V>, k: K): map<K, V> {
    m - {k}
  }

  datatype Entry = Entry(sandbox: Sandbox, node: string, assumed: bool)

  datatype Node = Node(boxes: map<string, Sandbox>, count: int) {
    function Insert(key: string, sb: Sandbox): Node {
      Node(boxes[key := sb], count + 1)
    }

    function Delete(key: string): Node {
      Node(Without(boxes, key), count - 1)
    }
  }

  datatype Assumption = Assumption(sandbox: Sandbox, node: string)

  datatype State = State(
    sandboxes: map<string, Entry>,
    nodes: map<string, Node>,
    assumed: map<string, Assumption>)

  const Init: State := State(map[], map[], map[])

  datatype Op =
    | Add(sb: Sandbox)
    | Update(sb: Sandbox)
    | Delete(sb: Sandbox)
    | Assume(sb: Sandbox, on: string)
    | Confirm(sb: Sandbox)
    | Forget(sb: Sandbox)
    | AddNode(name: string)
    | RemoveNode(name: string)

  function Inserted(nodes: map<string, Node>, n: string, key: string, sb: Sandbox): map<string, Node> {
    if n in nodes then nodes[n := nodes[n].Insert(key, sb)] else nodes
  }

  function Deleted(nodes: map<string, Node>, n: string, key: string): map<string, Node> {
    if n in nodes then nodes[n := nodes[n].Delete(key)] else nodes
  }

  /** Whether the call returns without an error. */
  predicate Succeeds(s: State, op: Op) {
    match op
    case Add(sb) => sb.Key() !in s.sandboxes
    case Update(sb) => sb.Key() in s.sandboxes
    case Delete(sb) => sb.Key() in s.sandboxes
    case Assume(sb, _) => sb.Key() !in s.assumed
    case Forget(sb) => sb.Key() in s.assumed
    case _ => true
  }

  function Step(s: State, op: Op): State {
    if !Succeeds(s, op) then s else
    match op
    case Add(sb) => AddStep(s, sb, sb.Key())
    case Update(sb) => UpdateStep(s, sb, sb.Key())
    case Delete(sb) => DeleteStep(s, sb.Key())
    case Assume(sb, n) => AssumeStep(s, sb, sb.Key(), n)
    case Confirm(sb) => ConfirmStep(s, sb.Key())
    case Forget(sb) => ForgetStep(s, sb.Key())
    case AddNode(n) => s.(nodes := s.nodes[n := Node(map[], 0)])
    case RemoveNode(n) => s.(nodes := Without(s.nodes, n))
  }

  function AddStep(s: State, sb: Sandbox, key: string): State {
    State(s.sandboxes[key := Entry(sb, sb.node, false)],
          if sb.node != UNBOUND then Inserted(s.nodes, sb.node, key, sb) else s.nodes,
          s.assumed)
  }

  function UpdateStep(s: State, sb: Sandbox, key: string): State
    requires key in s.sandboxes
  {
    var was := s.sandboxes[key].node;
    var left := if was != UNBOUND && was != sb.node then Deleted(s.nodes, was, key) else s.nodes;
    State(s.sandboxes[key := Entry(sb, sb.node, false)],
          if sb.node != UNBOUND then Inserted(left, sb.node, key, sb) else left,
          s.assumed)
  }

  function DeleteStep(s: State, key: string): State
    requires key in s.sandboxes
  {
    var was := s.sandboxes[key].node;
    State(Without(s.sandboxes, key), if was != UNBOUND then Deleted(s.nodes, was, key) else s.nodes, Without(s.assumed, key))
  }

  function AssumeStep(s: State, sb: Sandbox, key: string, n: string): State {
    State(if key in s.sandboxes then s.sandboxes[key := Entry(s.sandboxes[key].sandbox, n, true)] else s.sandboxes,
          Inserted(s.nodes, n, key, sb),
          s.assumed[key := Assumption(sb, n)])
  }

  function ConfirmStep(s: State, key: string): State {
    State(if key in s.sandboxes then s.sandboxes[key := s.sandboxes[key].(assumed := false)] else s.sandboxes,
          s.nodes,
          Without(s.assumed, key))
  }

  function ForgetStep(s: State, key: string): State
    requires key in s.assumed
  {
    State(if key in s.sandboxes then s.sandboxes[key := Entry(s.sandboxes[key].sandbox, UNBOUND, false)] else s.sandboxes,
          Deleted(s.nodes, s.assumed[key].node, key),
          Without(s.assumed, key))
  }

  function Run(h: seq<Op>): State {
    if h == [] then Init else Step(Run(h[..|h| - 1]), h[|h| - 1])
  }

  // ---- laws of every run ----

  /** A sandbox flagged as assumed has an assumption on record. */
  ghost predicate Flagged(s: State) {
    forall k | k in s.sandboxes && s.sandboxes[k].assumed :: k in s.assumed
  }

  lemma {:induction false} AlwaysFlagged(h: seq<Op>)
    ensures Flagged(Run(h))
  {
    if h != [] {
      AlwaysFlagged(h[..|h| - 1]);
    }
  }

  /** What a key was last successfully added or updated with, by the calls alone. */
  function LastWritten(h: seq<Op>, k: string): Option<Sandbox> {
    if h == [] then None
    else
      var before, op := LastWritten(h[..|h| - 1], k), h[|h| - 1];
      match op
      case Add(sb) => if sb.Key() == k && before.None? then Some(sb) else before
      case Update(sb) => if sb.Key() == k && before.Some? then Some(sb) else before
      case Delete(sb) => if sb.Key() == k then None else before
      case _ => before
  }

  /** In every run a key is cached exactly when it was added and not deleted since, with
      the sandbox of the latest addition or update; assuming and forgetting never change it. */
  lemma {:induction false} CachedIsLatest(h: seq<Op>, k: string)
    ensures k in Run(h).sandboxes <==> LastWritten(h, k).Some?
    ensures k in Run(h).sandboxes ==> Run(h).sandboxes[k].sandbox == LastWritten(h, k).value
  {
    if h != [] {
      CachedIsLatest(h[..|h| - 1], k);
    }
  }

  /** The assumption on record for a key, by the calls alone: made by the latest assume that
      found none, ended by a confirmation, a forgetting or a deletion that found the key cached. */
  function LastAssumed(h: seq<Op>, k: string): Option<Assumption> {
    if h == [] then None
    else
      var before, op := LastAssumed(h[..|h| - 1], k), h[|h| - 1];
      match op
      case Assume(sb, on) => if sb.Key() == k && before.None? then Some(Assumption(sb, on)) else before
      case Confirm(sb) => if sb.Key() == k then None else before
      case Forget(sb) => if sb.Key() == k then None else before
      case Delete(sb) => if sb.Key() == k && LastWritten(h[..|h| - 1], k).Some? then None else before
      case _ => before
  }

  /** In every run the assumptions on record are exactly those made and not confirmed, forgotten or deleted. */
  lemma {:induction false} AssumedIsHistory(h: seq<Op>, k: string)
    ensures k in Run(h).assumed <==> LastAssumed(h, k).Some?
    ensures k in Run(h).assumed ==> Run(h).assumed[k] == LastAssumed(h, k).value
  {
    if h != [] {
      AssumedIsHistory(h[..|h| - 1], k);
      CachedIsLatest(h[..|h| - 1], k);
    }
  }

  datatype Binding = Binding(node: string, assumed: bool)

  /** Where a key was last bound, and whether that is only assumed, by the calls alone. */
  function LastBinding(h: seq<Op>, k: string): Binding {
    if h == [] then Binding(UNBOUND, false)
    else
      var before, op := LastBinding(h[..|h| - 1], k), h[|h| - 1];
      var cached, assumed := LastWritten(h[..|h| - 1], k).Some?, LastAssumed(h[..|h| - 1], k);
      match op
      case Add(sb) => if sb.Key() == k && !cached then Binding(sb.node, false) else before
      case Update(sb) => if sb.Key() == k && cached then Binding(sb.node, false) else before
      case Assume(sb, on) => if sb.Key() == k && assumed.None? && cached then Binding(on, true) else before
      case Confirm(sb) => if sb.Key() == k then before.(assumed := false) else before
      case Forget(sb) => if sb.Key() == k && assumed.Some? then Binding(UNBOUND, false) else before
      case _ => before
  }

  /** In every run a cached sandbox is bound where the latest of these calls put it: confirming
      keeps the binding and drops the flag, forgetting drops both. */
  lemma {:induction false} BindingIsHistory(h: seq<Op>, k: string)
    ensures k in Run(h).sandboxes ==>
              Binding(Run(h).sandboxes[k].node, Run(h).sandboxes[k].assumed) == LastBinding(h, k)
  {
    if h != [] {
      BindingIsHistory(h[..|h| - 1], k);
      CachedIsLatest(h[..|h| - 1], k);
      AssumedIsHistory(h[..|h| - 1], k);
    }
  }

  function NodeAdded(h: seq<Op>, n: string): bool {
    if h == [] then false
    else if h[|h| - 1] == AddNode(n) then true
    else if h[|h| - 1] == RemoveNode(n) then false
    else NodeAdded(h[..|h| - 1], n)
  }

  /** In every run the nodes are those added and not removed since. */
  lemma {:induction false} NodesAreHistory(h: seq<Op>, n: string)
    ensures n in Run(h).nodes <==> NodeAdded(h, n)
  {
    if h != [] {
      NodesAreHistory(h[..|h| - 1], n);
    }
  }

  // ---- agreement of the node index ----

  predicate OnNode(s: State, k: string, n: string) {
    k in s.sandboxes && s.sandboxes[k].node == n
  }

  /** Each registered node holds exactly the sandboxes whose state names it, and
      the name that stands for "unbound" is not a node. */
  ghost predicate Agree(s: State) {
    && UNBOUND !in s.nodes
    && (forall n, k | n in s.nodes :: k in s.nodes[n].boxes <==> OnNode(s, k, n))
  }

  /** The steps that keep the index in agreement, as a check before the call. */
  ghost predicate Safe(s: State, op: Op) {
    match op
    case Assume(sb, n) =>
      Succeeds(s, op) ==>
        if sb.Key() in s.sandboxes
        then s.sandboxes[sb.Key()].node !in s.nodes || s.sandboxes[sb.Key()].node == n
        else n !in s.nodes
    case Forget(sb) =>
      Succeeds(s, op) && sb.Key() in s.sandboxes ==>
        s.sandboxes[sb.Key()].node !in s.nodes || s.sandboxes[sb.Key()].node == s.assumed[sb.Key()].node
    case AddNode(n) => n != UNBOUND && forall k | k in s.sandboxes :: s.sandboxes[k].node != n
    case _ => true
  }

  /** From agreement, a step leads to agreement exactly when it is safe: no other
      call can break the index, and every unsafe one does. */
  lemma AgreementExact(s: State, op: Op)
    requires Agree(s)
    ensures Agree(Step(s, op)) <==> Safe(s, op)
  {
    if Safe(s, op) {
      SafeKeepsAgreement(s, op);
    } else {
      UnsafeBreaksAgreement(s, op);
    }
  }

  lemma SafeKeepsAgreement(s: State, op: Op)
    requires Agree(s) && Safe(s, op)
    ensures Agree(Step(s, op))
  {
    if Succeeds(s, op) {
      var s' := Step(s, op);
      forall n, k | n in s'.nodes
        ensures k in s'.nodes[n].boxes <==> OnNode(s', k, n)
      {
        if n in s.nodes {
          assert k in s.nodes[n].boxes <==> OnNode(s, k, n);
        }
      }
    }
  }

  lemma UnsafeBreaksAgreement(s: State, op: Op)
    requires Agree(s) && !Safe(s, op)
    ensures !Agree(Step(s, op))
  {
    var s' := Step(s, op);
    match op
    case AddNode(n) =>
      if n != UNBOUND {
        var k :| k in s.sandboxes && s.sandboxes[k].node == n;
        assert OnNode(s', k, n) && k !in s'.nodes[n].boxes;
      }
    case Assume(sb, n) =>
      var k := sb.Key();
      var stale := if k in s.sandboxes then s.sandboxes[k].node else n;
      assert k in s'.nodes[stale].boxes && !OnNode(s', k, stale);
    case Forget(sb) =>
      var k := sb.Key();
      var stale := s.sandboxes[k].node;
      assert k in s.nodes[stale].boxes <==> OnNode(s, k, stale);
      assert k in s'.nodes[stale].boxes && !OnNode(s', k, stale);
    case _ =>
  }

  /** Assuming a binding and forgetting it again restores the cache exactly when
      the sandbox was not bound before. */
  lemma AssumeForgetRestores(h: seq<Op>, sb: Sandbox, n: string)
    requires Agree(Run(h)) && Succeeds(Run(h), Assume(sb, n))
    ensures var s := Run(h);
            Step(Step(s, Assume(sb, n)), Forget(sb)) == s <==>
              (sb.Key() in s.sandboxes ==> s.sandboxes[sb.Key()].node == UNBOUND)
  {
    AlwaysFlagged(h);
    var s, k := Run(h), sb.Key();
    var s1 := Step(s, Assume(sb, n));
    var s2 := Step(s1, Forget(sb));
    assert s2.assumed == s.assumed;
    if k in s.sandboxes ==> s.sandboxes[k].node == UNBOUND {
      if n in s.nodes {
        assert k in s.nodes[n].boxes <==> OnNode(s, k, n);
        assert s2.nodes[n].boxes == s.nodes[n].boxes;
      }
      assert s2.nodes == s.nodes;
      assert s2.sandboxes == s.sandboxes;
    } else {
      assert s2.sandboxes[k].node == UNBOUND;
    }
  }

  // ---- disciplined runs ----

  /** Only cached, unbound sandboxes are assumed; an assumed one is confirmed,
      forgotten or deleted before it is updated; a node is added before anything is bound to it. */
  ghost predicate Disciplined(s: State, op: Op) {
    match op
    case Assume(sb, _) => Succeeds(s, op) ==> OnNode(s, sb.Key(), UNBOUND)
    case Update(sb) => sb.Key() !in s.assumed
    case AddNode(n) => n != UNBOUND && forall k | k in s.sandboxes :: s.sandboxes[k].node != n
    case _ => true
  }

  ghost predicate DisciplinedRun(h: seq<Op>) {
    h == [] || (DisciplinedRun(h[..|h| - 1]) && Disciplined(Run(h[..|h| - 1]), h[|h| - 1]))
  }

  /** Every assumption concerns a cached sandbox whose state names the assumed node. */
  ghost predicate Tracked(s: State) {
    forall k | k in s.assumed :: OnNode(s, k, s.assumed[k].node)
  }

  /** Updates of sandboxes that stayed on node n, since n was last added. */
  function SameNodeUpdates(h: seq<Op>, n: string): nat {
    if h == [] then 0
    else
      var s, op := Run(h[..|h| - 1]), h[|h| - 1];
      if op == AddNode(n) then 0
      else SameNodeUpdates(h[..|h| - 1], n) + if StaysOn(s, op, n) then 1 else 0
  }

  predicate StaysOn(s: State, op: Op, n: string) {
    op.Update? && n != UNBOUND && op.sb.node == n && OnNode(s, op.sb.Key(), n)
  }

  /** How far a node's count is ahead of the number of sandboxes it holds. */
  function Ahead(s: State, n: string): int
    requires n in s.nodes
  {
    s.nodes[n].count - |s.nodes[n].boxes|
  }

  lemma TrackedStep(s: State, op: Op)
    requires Agree(s) && Tracked(s) && Disciplined(s, op)
    ensures Tracked(Step(s, op)) && Safe(s, op)
  {
    if op.Forget? && op.sb.Key() in s.assumed {
      assert OnNode(s, op.sb.Key(), s.assumed[op.sb.Key()].node);
    }
  }

  lemma AheadStep(s: State, op: Op, n: string)
    requires Agree(s) && Tracked(s) && Disciplined(s, op)
    requires n in Step(s, op).nodes
    ensures op == AddNode(n) ==> Ahead(Step(s, op), n) == 0
    ensures op != AddNode(n) ==> n in s.nodes && Ahead(Step(s, op), n) == Ahead(s, n) + if StaysOn(s, op, n) then 1 else 0
  {
    if Succeeds(s, op) && !op.AddNode? && !op.RemoveNode? {
      var k := op.sb.Key();
      assert n in s.nodes;
      assert k in s.nodes[n].boxes <==> OnNode(s, k, n);
      assert op.Forget? ==> OnNode(s, k, s.assumed[k].node);
      assert op.Assume? ==> OnNode(s, k, UNBOUND);
      AheadAt(s, op, k, n);
    }
  }

  /** What a step makes of one node. */
  lemma NodeAfter(s: State, op: Op, k: string, n: string)
    requires Succeeds(s, op) && !op.AddNode? && !op.RemoveNode? && k == op.sb.Key()
    requires n in s.nodes && n != UNBOUND
    ensures n in Step(s, op).nodes
    ensures var node := s.nodes[n];
            Step(s, op).nodes[n] ==
              match op
              case Add(sb) => if sb.node == n then node.Insert(k, sb) else node
              case Update(sb) =>
                if sb.node == n then node.Insert(k, sb)
                else if OnNode(s, k, n) then node.Delete(k) else node
              case Delete(_) => if OnNode(s, k, n) then node.Delete(k) else node
              case Assume(sb, on) => if on == n then node.Insert(k, sb) else node
              case Forget(_) => if s.assumed[k].node == n then node.Delete(k) else node
              case _ => node
  {
    hide Sandbox.Key;
  }

  lemma AheadAt(s: State, op: Op, k: string, n: string)
    requires Succeeds(s, op) && !op.AddNode? && !op.RemoveNode? && k == op.sb.Key()
    requires n in s.nodes && n != UNBOUND && (k in s.nodes[n].boxes <==> OnNode(s, k, n))
    requires op.Forget? ==> OnNode(s, k, s.assumed[k].node)
    requires op.Assume? ==> OnNode(s, k, UNBOUND)
    ensures n in Step(s, op).nodes
    ensures Ahead(Step(s, op), n) == Ahead(s, n) + if StaysOn(s, op, n) then 1 else 0
  {
    NodeAfter(s, op, k, n);
    hide Step, Sandbox.Key;
    BoxCounts(s.nodes[n], k, op.sb);
  }

  lemma BoxCounts(node: Node, k: string, sb: Sandbox)
    ensures |node.Insert(k, sb).boxes| == |node.boxes| + if k in node.boxes then 0 else 1
    ensures |node.Delete(k).boxes| == |node.boxes| - if k in node.boxes then 1 else 0
  {
    assert node.boxes[k := sb].Keys == node.boxes.Keys + {k};
    assert Without(node.boxes, k).Keys == node.boxes.Keys - {k};
  }

  /** Cache agreement: along a disciplined run every registered node holds exactly
      the sandboxes whose state names it, and its count is their number plus the
      number of updates that left a sandbox where it was. */
  lemma {:induction false} CacheAgreement(h: seq<Op>)
    requires DisciplinedRun(h)
    ensures Agree(Run(h)) && Tracked(Run(h))
    ensures forall n | n in Run(h).nodes :: Run(h).nodes[n].count == |Run(h).nodes[n].boxes| + SameNodeUpdates(h, n)
  {
    if h != [] {
      var before, op := h[..|h| - 1], h[|h| - 1];
      CacheAgreement(before);
      var s := Run(before);
      TrackedStep(s, op);
      SafeKeepsAgreement(s, op);
      forall n | n in Run(h).nodes
        ensures Ahead(Run(h), n) == SameNodeUpdates(h, n)
      {
        AheadStep(s, op, n);
      }
    }
  }

  /** The call gives the cache this key's sandbox object. */
  predicate Puts(s: State, op: Op, k: string) {
    (op.Add? || op.Update? || op.Assume?) && op.sb.Key() == k && Succeeds(s, op)
  }

  /** What a key was last successfully added, updated or assumed with. */
  function LastPut(h: seq<Op>, k: string): Option<Sandbox> {
    if h == [] then None
    else if Puts(Run(h[..|h| - 1]), h[|h| - 1], k) then Some(h[|h| - 1].sb)
    else LastPut(h[..|h| - 1], k)
  }

  lemma BoxAfter(s: State, op: Op, n: string, k: string)
    requires Agree(s) && Agree(Step(s, op)) && n in Step(s, op).nodes && k in Step(s, op).nodes[n].boxes
    ensures if Puts(s, op, k) then Step(s, op).nodes[n].boxes[k] == op.sb
            else n in s.nodes && k in s.nodes[n].boxes && Step(s, op).nodes[n].boxes[k] == s.nodes[n].boxes[k]
  {
    hide Sandbox.Key;
    assert OnNode(Step(s, op), k, n);
    if Succeeds(s, op) && !op.AddNode? && !op.RemoveNode? {
      NodeAfter(s, op, op.sb.Key(), n);
      assert op.sb.Key() in s.nodes[n].boxes <==> OnNode(s, op.sb.Key(), n);
    }
  }

  /** Along a disciplined run a node holds, for each sandbox on it, the object last given. */
  lemma {:induction false} NodeHoldsLatest(h: seq<Op>, n: string, k: string)
    requires DisciplinedRun(h) && n in Run(h).nodes && k in Run(h).nodes[n].boxes
    ensures LastPut(h, k) == Some(Run(h).nodes[n].boxes[k])
  {
    hide Agree, Tracked, Disciplined, Step, Puts;
    if h != [] {
      CacheAgreement(h[..|h| - 1]);
      CacheAgreement(h);
      BoxAfter(Run(h[..|h| - 1]), h[|h| - 1], n, k);
      if !Puts(Run(h[..|h| - 1]), h[|h| - 1], k) {
        NodeHoldsLatest(h[..|h| - 1], n, k);
      }
    }
  }

  // ---- the cache's objects ----

  class SandboxState {
    var sandbox: Sandbox
    var node: string
    var assumed: bool

    ghost function Model(): Entry
      reads this
    {
      Entry(sandbox, node, assumed)
    }

    constructor (sandbox: Sandbox, node: string, assumed: bool)
      ensures Model() == Entry(sandbox, node, assumed)
    {
      this.sandbox, this.node, this.assumed := sandbox, node, assumed;
    }

    method Set(sandbox: Sandbox, node: string, assumed: bool)
      modifies this
      ensures Model() == Entry(sandbox, node, assumed)
    {
      this.sandbox, this.node, this.assumed := sandbox, node, assumed;
    }
  }

  class NodeState {
    var boxes: map<string, Sandbox>
    var count: int

    ghost function Model(): Node
      reads this
    {
      Node(boxes, count)
    }

    constructor (boxes: map<string, Sandbox>, count: int)
      ensures Model() == Node(boxes, count)
    {
      this.boxes, this.count := boxes, count;
    }

    method Insert(key: string, sb: Sandbox)
      modifies this
      ensures Model() == old(Model()).Insert(key, sb)
    {
      boxes, count := boxes[key := sb], count + 1;
    }

    method Delete(key: string)
      modifies this
      ensures Model() == old(Model()).Delete(key)
    {
      boxes, count := Without(boxes, key), count - 1;
    }
  }

  class Cache {
    var sandboxes: map<string, SandboxState>
    var podStates: map<string, SandboxState>
    var nodes: map<string, NodeState>
    var assumed: map<string, Assumption>
    ghost var states: set<SandboxState>
    ghost var nodeStates: set<NodeState>

    /** The two sandbox indexes hold the same objects, and no object serves two keys. */
    ghost predicate Valid()
      reads `sandboxes, `podStates, `nodes, `states, `nodeStates
    {
      && podStates == sandboxes
      && (forall k | k in sandboxes :: sandboxes[k] in states)
      && (forall k, l | k in sandboxes && l in sandboxes && k != l :: sandboxes[k] != sandboxes[l])
      && (forall n | n in nodes :: nodes[n] in nodeStates)
      && (forall n, m | n in nodes && m in nodes && n != m :: nodes[n] != nodes[m])
    }

    ghost function Entries(): (es: map<string, Entry>)
      requires Valid()
      reads `sandboxes, `podStates, `nodes, `states, `nodeStates, states
      ensures es.Keys == sandboxes.Keys
      ensures forall k | k in sandboxes :: es[k] == sandboxes[k].Model()
    {
      map k | k in sandboxes :: sandboxes[k].Model()
    }

    ghost function NodeModels(): (ns: map<string, Node>)
      requires Valid()
      reads `sandboxes, `podStates, `nodes, `states, `nodeStates, nodeStates
      ensures ns.Keys == nodes.Keys
    {
      map n | n in nodes :: nodes[n].Model()
    }

    ghost function Model(): State
      requires Valid()
      reads this, states, nodeStates
    {
      State(Entries(), NodeModels(), assumed)
    }

    constructor ()
      ensures Valid() && Model() == Init && states == {} && nodeStates == {}
    {
      sandboxes, podStates, nodes, assumed := map[], map[], map[], map[];
      states, nodeStates := {}, {};
    }

    method InsertOn(n: string, key: string, sb: Sandbox)
      requires Valid()
      modifies nodeStates
      ensures Valid() && Entries() == old(Entries())
      ensures NodeModels() == Inserted(old(NodeModels()), n, key, sb)
    {
      if n in nodes {
        nodes[n].Insert(key, sb);
      }
    }

    method DeleteOn(n: string, key: string)
      requires Valid()
      modifies nodeStates
      ensures Valid() && Entries() == old(Entries())
      ensures NodeModels() == Deleted(old(NodeModels()), n, key)
    {
      if n in nodes {
        nodes[n].Delete(key);
      }
    }

    method SetState(key: string, sandbox: Sandbox, node: string, assumed: bool)
      requires Valid() && key in sandboxes
      modifies states
      ensures Valid() && NodeModels() == old(NodeModels())
      ensures Entries() == old(Entries())[key := Entry(sandbox, node, assumed)]
    {
      sandboxes[key].Set(sandbox, node, assumed);
    }

    method NewState(key: string, sandbox: Sandbox)
      requires Valid() && key !in sandboxes
      modifies this`sandboxes, this`podStates, this`states
      ensures Valid() && fresh(states - old(states)) && NodeModels() == old(NodeModels())
      ensures Entries() == old(Entries())[key := Entry(sandbox, sandbox.node, false)]
    {
      var state := new SandboxState(sandbox, sandbox.node, false);
      sandboxes := sandboxes[key := state];
      podStates := podStates[key := state];
      states := states + {state};
    }

    method DropState(key: string)
      requires Valid()
      modifies this`sandboxes, this`podStates
      ensures Valid() && NodeModels() == old(NodeModels())
      ensures Entries() == Without(old(Entries()), key)
    {
      sandboxes := Without(sandboxes, key);
      podStates := Without(podStates, key);
    }

    method AddSandbox(sb: Sandbox) returns (ok: bool)
      requires Valid()
      modifies this, nodeStates
      ensures Valid() && fresh(states - old(states)) && nodeStates == old(nodeStates)
      ensures ok == Succeeds(old(Model()), Add(sb)) && Model() == Step(old(Model()), Add(sb))
    {
      hide Entries, NodeModels, Sandbox.Key;
      var key := sb.Key();
      if key in sandboxes {
        return false;
      }
      NewState(key, sb);
      if sb.node != UNBOUND {
        InsertOn(sb.node, key, sb);
      }
      ok := true;
    }

    method UpdateSandbox(sb: Sandbox) returns (ok: bool)
      requires Valid()
      modifies states, nodeStates
      ensures Valid()
      ensures ok == Succeeds(old(Model()), Update(sb)) && Model() == Step(old(Model()), Update(sb))
    {
      hide Entries, NodeModels, Sandbox.Key;
      var key := sb.Key();
      if key !in sandboxes {
        return false;
      }
      var was := sandboxes[key].node;
      if was != UNBOUND && was != sb.node {
        DeleteOn(was, key);
      }
      SetState(key, sb, sb.node, false);
      if sb.node != UNBOUND {
        InsertOn(sb.node, key, sb);
      }
      ok := true;
    }

    method DeleteSandbox(sb: Sandbox) returns (ok: bool)
      requires Valid()
      modifies `sandboxes, `podStates, `assumed, nodeStates
      ensures Valid()
      ensures ok == Succeeds(old(Model()), Op.Delete(sb)) && Model() == Step(old(Model()), Op.Delete(sb))
    {
      hide Entries, NodeModels, Sandbox.Key, Without;
      var key := sb.Key();
      if key !in sandboxes {
        return false;
      }
      var was := sandboxes[key].node;
      assumed := Without(assumed, key);
      if was != UNBOUND {
        DeleteOn(was, key);
      }
      DropState(key);
      ok := true;
    }

    method AssumeSandbox(sb: Sandbox, n: string) returns (ok: bool)
      requires Valid()
      modifies this`assumed, states, nodeStates
      ensures Valid()
      ensures ok == Succeeds(old(Model()), Assume(sb, n)) && Model() == Step(old(Model()), Assume(sb, n))
    {
      hide Entries, NodeModels, Sandbox.Key;
      var key := sb.Key();
      if key in assumed {
        return false;
      }
      assumed := assumed[key := Assumption(sb, n)];
      if key in sandboxes {
        SetState(key, sandboxes[key].sandbox, n, true);
      }
      InsertOn(n, key, sb);
      ok := true;
    }

    method ConfirmAssumeSandbox(sb: Sandbox)
      requires Valid()
      modifies this`assumed, states
      ensures Valid() && Model() == Step(old(Model()), Confirm(sb))
    {
      hide Entries, NodeModels, Sandbox.Key;
      var key := sb.Key();
      assumed := Without(assumed, key);
      if key in sandboxes {
        SetState(key, sandboxes[key].sandbox, sandboxes[key].node, false);
      }
    }

    method ForgetSandbox(sb: Sandbox) returns (ok: bool)
      requires Valid()
      modifies this`assumed, states, nodeStates
      ensures Valid()
      ensures ok == Succeeds(old(Model()), Forget(sb)) && Model() == Step(old(Model()), Forget(sb))
    {
      hide Entries, NodeModels, Sandbox.Key;
      var key := sb.Key();
      if key !in assumed {
        return false;
      }
      var a := assumed[key];
      assumed := Without(assumed, key);
      DeleteOn(a.node, key);
      if key in sandboxes {
        SetState(key, sandboxes[key].sandbox, UNBOUND, false);
      }
      ok := true;
    }

    method PutNode(n: string)
      requires Valid()
      modifies `nodes, `nodeStates
      ensures Valid() && fresh(nodeStates - old(nodeStates)) && Entries() == old(Entries())
      ensures NodeModels() == old(NodeModels())[n := Node(map[], 0)]
    {
      var node := new NodeState(map[], 0);
      nodes := nodes[n := node];
      nodeStates := nodeStates + {node};
    }

    method RegisterNode(n: string)
      requires Valid()
      modifies `nodes, `nodeStates
      ensures Valid() && fresh(nodeStates - old(nodeStates))
      ensures Model() == Step(old(Model()), AddNode(n))
    {
      hide Entries, NodeModels;
      PutNode(n);
    }

    method DropNode(n: string)
      requires Valid()
      modifies `nodes
      ensures Valid() && Entries() == old(Entries())
      ensures NodeModels() == Without(old(NodeModels()), n)
    {
      nodes := Without(nodes, n);
    }

    method UnregisterNode(n: string)
      requires Valid()
      modifies `nodes
      ensures Valid()
      ensures Model() == Step(old(Model()), RemoveNode(n))
    {
      hide Entries, NodeModels;
      DropNode(n);
    }

    /** A deep copy: equal contents in objects of its own, so later calls on the cache leave it alone. */
    method Snapshot() returns (sandboxCopy: map<string, SandboxState>, nodeCopy: map<string, NodeState>)
      requires Valid()
      ensures sandboxCopy.Keys == sandboxes.Keys && nodeCopy.Keys == nodes.Keys
      ensures forall k | k in sandboxes :: fresh(sandboxCopy[k]) && sandboxCopy[k].Model() == sandboxes[k].Model()
      ensures forall n | n in nodes :: fresh(nodeCopy[n]) && nodeCopy[n].Model() == nodes[n].Model()
    {
      nodeCopy := CopyNodes();
      sandboxCopy := CopySandboxes();
    }

    method CopyNodes() returns (copies: map<string, NodeState>)
      requires Valid()
      ensures copies.Keys == nodes.Keys
      ensures forall n | n in nodes :: fresh(copies[n]) && copies[n].Model() == nodes[n].Model()
    {
      copies := map[];
      var todo := nodes.Keys;
      while todo != {}
        invariant todo <= nodes.Keys && copies.Keys == nodes.Keys - todo
        invariant forall n | n in copies :: fresh(copies[n]) && copies[n].Model() == nodes[n].Model()
        decreases |todo|
      {
        var n :| n in todo;
        var copy := new NodeState(nodes[n].boxes, nodes[n].count);
        copies, todo := copies[n := copy], todo - {n};
      }
    }

    method CopySandboxes() returns (copies: map<string, SandboxState>)
      requires Valid()
      ensures copies.Keys == sandboxes.Keys
      ensures forall k | k in sandboxes :: fresh(copies[k]) && copies[k].Model() == sandboxes[k].Model()
    {
      copies := map[];
      var todo := sandboxes.Keys;
      while todo != {}
        invariant todo <= sandboxes.Keys && copies.Keys == sandboxes.Keys - todo
        invariant forall k | k in copies :: fresh(copies[k]) && copies[k].Model() == sandboxes[k].Model()
        decreases |todo|
      {
        var k :| k in todo;
        var copy := new SandboxState(sandboxes[k].sandbox, sandboxes[k].node, sandboxes[k].assumed);
        copies, todo := copies[k := copy], todo - {k};
      }
    }
  }
}
