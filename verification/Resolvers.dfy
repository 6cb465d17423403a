/** The three functions that turn a caller's path into a file-system path below
    a workspace: the gateway's PathGuard, the workspace manager's ResolvePath,
    and the MCP file server's resolvePath. */
module Resolvers {
  import opened Wrappers
  import opened Paths

  /** A root as the resolvers hold it: absolute and cleaned. */
  predicate IsRoot(root: string) {
    IsAbs(root) && Clean(root) == root
  }

  /** filepath.Abs, with the working directory as a parameter. */
  function Abs(cwd: string, p: string): string {
    if IsAbs(p) then Clean(p) else Join(cwd, p)
  }

  datatype PathGuard = PathGuard(workspace: string) {

    function Candidate(userPath: string): string {
      if IsAbs(userPath) then Clean(userPath) else Clean(Join(workspace, userPath))
    }

    function Resolve(userPath: string): Option<string>
      requires IsRoot(workspace)
    {
      var candidate := Candidate(userPath);
      assert IsAbs(candidate) by { CandidateComps(workspace, userPath); }
      if HasPrefix(Rel(workspace, candidate), DOT_DOT) then None else Some(candidate)
    }
  }

  function NewPathGuard(cwd: string, workspace: string): (g: PathGuard)
    requires IsAbs(cwd)
    ensures IsRoot(g.workspace)
  {
    var abs := Abs(cwd, workspace);
    assert IsAbs(abs) by {
      CleanFaithful(workspace);
      JoinComps(cwd, workspace);
    }
    CleanFaithful(abs);
    PathGuard(Clean(abs))
  }

  /** The guard's workspace is the place the string names, from the working directory if it is relative. */
  lemma GuardedPlace(cwd: string, workspace: string)
    requires IsAbs(cwd)
    ensures Comps(NewPathGuard(cwd, workspace).workspace) ==
            Comps(if IsAbs(workspace) then workspace else cwd + [SEPARATOR] + workspace)
  {
    var abs := Abs(cwd, workspace);
    CleanFaithful(workspace);
    CleanFaithful(cwd + [SEPARATOR] + workspace);
    CleanFaithful(abs);
  }

  /** Workspace.ResolvePath with root as base, and the subdirectory resolvers
      with the subdirectory as base. On Unix the volume name is empty. */
  function ResolveBelow(base: string, p: string): Option<string>
    requires IsRoot(base)
  {
    if p == "" then Some(base)
    else
      var cleaned := Clean(p);
      var relative := if IsAbs(cleaned) then cleaned[1..] else cleaned;
      var joined := Join(base, relative);
      assert IsAbs(joined) by { JoinComps(base, relative); }
      if HasPrefix(Rel(base, joined), DOT_DOT) then None else Some(joined)
  }

  /** The MCP file server: membership is a test on the two strings. */
  function McpResolve(cwd: string, workspace: string, p: string): Option<string> {
    var q := if p == "" then DOT else p;
    var fullPath := if IsAbs(q) then Clean(q) else Join(workspace, q);
    var absPath := Abs(cwd, fullPath);
    if HasPrefix(absPath, Abs(cwd, workspace)) then Some(absPath) else None
  }

  /** The first component below the base, if there is one, does not start with two dots. */
  predicate VisibleBelow(base: seq<string>, target: seq<string>) {
    base <= target && (|base| < |target| ==> !HasPrefix(target[|base|], DOT_DOT))
  }

  lemma CandidateComps(root: string, p: string)
    requires IsRoot(root)
    ensures IsRoot(PathGuard(root).Candidate(p))
    ensures Comps(PathGuard(root).Candidate(p)) ==
            if IsAbs(p) then Comps(p) else Reduce(true, Comps(root), Split(p))
  {
    CleanFaithful(p);
    JoinComps(root, p);
  }

  /** Exact acceptance: inside the workspace by components, and not hidden behind a ".." prefix. */
  lemma ResolveAccepts(root: string, p: string)
    requires IsRoot(root)
    ensures PathGuard(root).Resolve(p).Some? <==>
            VisibleBelow(Comps(root), Comps(PathGuard(root).Candidate(p)))
  {
    CandidateComps(root, p);
    RelStartsDotDot(root, PathGuard(root).Candidate(p));
  }

  /** What is accepted is a clean path below the workspace, and resolving the answer again returns it. */
  lemma ResolveStable(root: string, p: string)
    requires IsRoot(root)
    ensures var r := PathGuard(root).Resolve(p);
            r.Some? ==>
              && IsRoot(r.value)
              && Comps(root) <= Comps(r.value)
              && PathGuard(root).Resolve(r.value) == r
  {
    CandidateComps(root, p);
    ResolveAccepts(root, p);
  }

  lemma UpAndDown(stack: seq<string>, c: string)
    requires Normal(true, stack) && stack != [] && Plain(c)
    ensures Reduce(true, stack, Split(DOT_DOT + [SEPARATOR] + c)) == stack[..|stack| - 1] + [c]
  {
    hide Reduce, Split;
    SplitAppend(DOT_DOT, c);
    SplitPlain(DOT_DOT);
    SplitPlain(c);
    ReduceOne(true, stack, DOT_DOT);
    ReduceSnoc(true, stack, [DOT_DOT], c);
    assert stack[|stack| - 1] != DOT_DOT;
  }

  /** Up one directory and down again: the guard and the workspace refuse it unless the way
      down leads back to the workspace itself. */
  lemma ParentRefused(root: string, c: string)
    requires IsRoot(root) && Comps(root) != [] && Plain(c)
    ensures var up, last := DOT_DOT + [SEPARATOR] + c, Comps(root)[|Comps(root)| - 1];
            && PathGuard(root).Resolve(up) == (if c == last then Some(root) else None)
            && ResolveBelow(root, up) == PathGuard(root).Resolve(up)
  {
    hide Reduce, Split, ResolveBelow, Rel, Comps, Join, Clean;
    var up, cs := DOT_DOT + [SEPARATOR] + c, Comps(root);
    CompsNormal(root);
    CandidateComps(root, up);
    UpAndDown(cs, c);
    ResolveAccepts(root, up);
    GuardAgreesWithWorkspace(root, up);
    LastReplaced(cs, c);
    if c == cs[|cs| - 1] {
      CleanUnique(PathGuard(root).Candidate(up), root);
    }
  }

  lemma LastReplaced(cs: seq<string>, c: string)
    requires cs != []
    ensures var t := cs[..|cs| - 1] + [c];
            && (c == cs[|cs| - 1] ==> t == cs)
            && (VisibleBelow(cs, t) <==> c == cs[|cs| - 1])
  {
    var t := cs[..|cs| - 1] + [c];
    assert t[|cs| - 1] == c;
  }

  lemma BelowComps(base: string, p: string)
    requires IsRoot(base)
    ensures var cs := Reduce(true, Comps(base), Comps(p));
            var r := ResolveBelow(base, p);
            && (r.Some? <==> VisibleBelow(Comps(base), cs))
            && (r.Some? ==> IsRoot(r.value) && Comps(r.value) == cs)
  {
    CompsNormal(base);
    if p == "" {
      assert Comps(p) == Reduce(false, [], [""][1..]);
    } else {
      CompsNormal(p);
      CleanFaithful(p);
      var cleaned := Clean(p);
      var relative := if IsAbs(cleaned) then cleaned[1..] else cleaned;
      JoinComps(base, relative);
      RelStartsDotDot(base, Join(base, relative));
      assert Reduce(true, Comps(base), Split(relative)) == Reduce(true, Comps(base), Comps(p)) by {
        SplitRelative(p, Comps(base));
      }
    }
  }

  lemma SplitRelative(p: string, stack: seq<string>)
    ensures var c := Clean(p);
            Reduce(true, stack, Split(if IsAbs(c) then c[1..] else c)) == Reduce(true, stack, Comps(p))
  {
    CleanFaithful(p);
    CompsNormal(p);
    var cs := Comps(p);
    if cs == [] {
      SplitPlain(DOT);
      assert Reduce(true, stack, [DOT]) == Reduce(true, stack, [DOT][1..]);
      assert Reduce(true, stack, [""]) == Reduce(true, stack, [""][1..]);
      assert Clean(p)[1..] == "";
    } else {
      assert forall c | c in cs :: SEPARATOR !in c;
      SplitGlue(cs);
      if IsAbs(p) {
        assert Clean(p)[1..] == Glue(cs);
      } else {
        assert Clean(p) == Glue(cs);
      }
    }
  }

  /** On relative input the gateway and the workspace manager are the same function. */
  lemma GuardAgreesWithWorkspace(root: string, p: string)
    requires IsRoot(root) && !IsAbs(p)
    ensures PathGuard(root).Resolve(p) == ResolveBelow(root, p)
  {
    ResolveAccepts(root, p);
    CandidateComps(root, p);
    BelowComps(root, p);
    Confluence(true, Comps(root), Split(p));
  }

  /** Absolute input is re-rooted: it is accepted unless its first component
      starts with two dots, and lands at the same components below the base. */
  lemma AbsoluteIsRerooted(base: string, p: string)
    requires IsRoot(base) && IsAbs(p)
    ensures var r := ResolveBelow(base, p);
            && (r.Some? <==> (Comps(p) == [] || !HasPrefix(Comps(p)[0], DOT_DOT)))
            && (r.Some? ==> Comps(r.value) == Comps(base) + Comps(p))
  {
    BelowComps(base, p);
    CompsNormal(base);
    CompsNormal(p);
    ReduceKeeps(true, Comps(base), Comps(p));
  }

  /** Component lists where one rendered path is a string prefix of the other:
      the same, except that the last name of the shorter may be cut short. */
  predicate StringBelow(base: seq<string>, target: seq<string>) {
    var n := |base|;
    n == 0 || (n <= |target| && base[..n - 1] == target[..n - 1] && HasPrefix(target[n - 1], base[n - 1]))
  }

  lemma CommonStart(p: string, x: string, y: string)
    ensures HasPrefix(p + y, p + x) <==> HasPrefix(y, x)
  {
    if HasPrefix(p + y, p + x) {
      assert y[..|x|] == (p + y)[..|p + x|][|p|..] == x;
    }
  }

  lemma BelowTail(a: seq<string>, b: seq<string>)
    requires |a| >= 2 && |b| >= 1 && a[0] == b[0]
    ensures StringBelow(a, b) <==> |b| >= 2 && StringBelow(a[1..], b[1..])
  {
    var n := |a|;
    if n <= |b| {
      assert a[1..][..n - 2] == a[..n - 1][1..] && b[1..][..n - 2] == b[..n - 1][1..];
      assert a[..n - 1] == [a[0]] + a[1..][..n - 2] && b[..n - 1] == [b[0]] + b[1..][..n - 2];
    }
  }

  lemma GluePrefixOne(a: string, b: seq<string>)
    requires |b| > 0 && SEPARATOR !in a
    ensures HasPrefix(Glue(b), a) <==> HasPrefix(b[0], a)
  {
    var gb := Glue(b);
    assert |b[0]| <= |gb| && gb[..|b[0]|] == b[0];
    if HasPrefix(gb, a) {
      assert |b[0]| < |gb| ==> gb[|b[0]|] == SEPARATOR;
      assert |a| <= |b[0]|;
      assert b[0][..|a|] == gb[..|a|] == a;
    }
    if HasPrefix(b[0], a) {
      assert gb[..|a|] == b[0][..|a|];
    }
  }

  lemma {:induction false} GluePrefix(a: seq<string>, b: seq<string>)
    requires |a| > 0 && |b| > 0
    requires forall c | c in a + b :: SEPARATOR !in c
    requires forall c | c in a + b :: c != ""
    ensures HasPrefix(Glue(b), Glue(a)) <==> StringBelow(a, b)
    decreases |a|
  {
    assert a[0] in a + b && b[0] in a + b;
    if |a| == 1 {
      GluePrefixOne(a[0], b);
      assert a[..0] == b[..0];
    } else if a[0] != b[0] {
      DifferentStart(a, b);
      assert |a| <= |b| ==> a[..|a| - 1][0] != b[..|a| - 1][0];
    } else if |b| == 1 {
      assert Glue(a) == a[0] + [SEPARATOR] + Glue(a[1..]);
    } else {
      assert forall c | c in a[1..] + b[1..] :: c in a + b;
      GluePrefix(a[1..], b[1..]);
      BelowTail(a, b);
      CommonStart(a[0] + [SEPARATOR], Glue(a[1..]), Glue(b[1..]));
    }
  }

  lemma DifferentStart(a: seq<string>, b: seq<string>)
    requires |a| >= 2 && |b| > 0 && a[0] != b[0]
    requires SEPARATOR !in a[0] && SEPARATOR !in b[0]
    ensures !HasPrefix(Glue(b), Glue(a))
  {
    var ga, gb := Glue(a), Glue(b);
    assert ga == a[0] + [SEPARATOR] + Glue(a[1..]);
    if HasPrefix(gb, ga) {
      SeparatorsAlign(a[0], b[0], ga, gb);
    }
  }

  /** A prefix that ends its first component pins the first component of the longer string. */
  lemma SeparatorsAlign(c: string, d: string, ga: string, gb: string)
    requires SEPARATOR !in c && SEPARATOR !in d
    requires c + [SEPARATOR] <= ga && d <= gb && (|d| == |gb| || gb[|d|] == SEPARATOR)
    requires ga <= gb
    ensures c == d
  {
    assert gb[|c|] == SEPARATOR;
    assert forall i | 0 <= i < |c| :: gb[i] == c[i] && gb[i] != SEPARATOR;
    assert forall i | 0 <= i < |d| :: gb[i] == d[i] && gb[i] != SEPARATOR;
    assert c == gb[..|c|] && d == gb[..|d|];
  }

  /** Exact acceptance of the MCP resolver, in components: its last workspace
      component only needs to be a prefix of the target's component. */
  lemma McpAccepts(cwd: string, root: string, p: string)
    requires IsRoot(root)
    ensures var candidate := PathGuard(root).Candidate(p);
            McpResolve(cwd, root, p) ==
              if StringBelow(Comps(root), Comps(candidate)) then Some(candidate) else None
  {
    var candidate := PathGuard(root).Candidate(p);
    CandidateComps(root, p);
    CandidateComps(root, DOT);
    var q := if p == "" then DOT else p;
    if p == "" {
      SplitPlain(DOT);
      assert Reduce(true, Comps(root), [DOT]) == Reduce(true, Comps(root), [DOT][1..]);
      assert Reduce(true, Comps(root), [""]) == Reduce(true, Comps(root), [""][1..]);
    }
    JoinComps(root, q);
    assert Abs(cwd, if IsAbs(q) then Clean(q) else Join(root, q)) == candidate by {
      CleanFaithful(p);
    }
    var a, b := Comps(root), Comps(candidate);
    CompsNormal(root);
    CompsNormal(candidate);
    assert forall c | c in a + b :: Plain(c);
    assert root == [SEPARATOR] + Glue(a) && candidate == [SEPARATOR] + Glue(b);
    assert HasPrefix(candidate, root) <==> HasPrefix(Glue(b), Glue(a)) by {
      assert candidate[1..] == Glue(b) && root[1..] == Glue(a);
      if HasPrefix(Glue(b), Glue(a)) { assert candidate[..|root|] == root; }
      if HasPrefix(candidate, root) { assert candidate[..|root|][1..] == Glue(b)[..|root| - 1]; }
    }
    if |a| > 0 && |b| > 0 {
      GluePrefix(a, b);
    } else if |a| > 0 {
      assert a[0] in a + b;
      assert |Glue(a)| > 0;
    }
  }

  /** Whatever the gateway accepts, the MCP server accepts with the same answer. */
  lemma GuardImpliesMcp(cwd: string, root: string, p: string)
    requires IsRoot(root)
    ensures PathGuard(root).Resolve(p).Some? ==> McpResolve(cwd, root, p) == PathGuard(root).Resolve(p)
  {
    ResolveAccepts(root, p);
    McpAccepts(cwd, root, p);
    BelowIsStringBelow(Comps(root), Comps(PathGuard(root).Candidate(p)));
  }

  lemma BelowIsStringBelow(base: seq<string>, target: seq<string>)
    ensures base <= target ==> StringBelow(base, target)
  {
    if base <= target && |base| > 0 {
      assert base == target[..|base|];
      assert base[..|base| - 1] == target[..|base| - 1];
      assert base[|base| - 1] == target[|base| - 1];
    }
  }

  /** The exact difference: the MCP server also answers for a sibling whose name
      extends the workspace's own name, and for a first name starting with two dots. */
  lemma McpDiffersExactly(cwd: string, root: string, p: string)
    requires IsRoot(root)
    ensures var b, t := Comps(root), Comps(PathGuard(root).Candidate(p));
            McpResolve(cwd, root, p) != PathGuard(root).Resolve(p) <==>
              || (b <= t && |b| < |t| && HasPrefix(t[|b|], DOT_DOT))
              || (StringBelow(b, t) && |b| > 0 && b[|b| - 1] != t[|b| - 1])
  {
    ResolveAccepts(root, p);
    McpAccepts(cwd, root, p);
    var b, t := Comps(root), Comps(PathGuard(root).Candidate(p));
    assert PathGuard(root).Resolve(p).Some? ==> PathGuard(root).Resolve(p).value == PathGuard(root).Candidate(p);
    StringNotVisible(b, t);
    hide *;
  }

  lemma StringNotVisible(b: seq<string>, t: seq<string>)
    ensures VisibleBelow(b, t) ==> StringBelow(b, t)
    ensures StringBelow(b, t) && !VisibleBelow(b, t) <==>
              || (b <= t && |b| < |t| && HasPrefix(t[|b|], DOT_DOT))
              || (StringBelow(b, t) && |b| > 0 && b[|b| - 1] != t[|b| - 1])
  {
    BelowIsStringBelow(b, t);
    if StringBelow(b, t) && |b| > 0 && b[|b| - 1] == t[|b| - 1] {
      assert b == b[..|b| - 1] + [b[|b| - 1]];
      assert t[..|b|] == t[..|b| - 1] + [t[|b| - 1]];
    }
  }

  /** A sibling directory whose name extends the workspace's name. */
  lemma SiblingExample()
    ensures IsRoot("/ws")
    ensures McpResolve("/", "/ws", "/ws2") == Some("/ws2")
    ensures PathGuard("/ws").Resolve("/ws2") == None
  {
    RenderComps(true, ["ws"]);
    RenderComps(true, ["ws2"]);
    assert "/ws" == Render(true, ["ws"]) && "/ws2" == Render(true, ["ws2"]);
    CandidateComps("/ws", "/ws2");
    McpAccepts("/", "/ws", "/ws2");
    ResolveAccepts("/ws", "/ws2");
    assert |"ws"| != |"ws2"|;
  }

  /** A file of the workspace whose name merely starts with two dots. */
  lemma DottedNameExample()
    ensures IsRoot("/ws")
    ensures McpResolve("/", "/ws", "..a").Some?
    ensures PathGuard("/ws").Resolve("..a") == None
  {
    RenderComps(true, ["ws"]);
    assert "/ws" == Render(true, ["ws"]);
    DottedNameComps("/ws");
    McpAccepts("/", "/ws", "..a");
    ResolveAccepts("/ws", "..a");
    assert HasPrefix("..a", DOT_DOT);
    BelowIsStringBelow(["ws"], ["ws"] + ["..a"]);
    hide *;
  }

  lemma DottedNameComps(root: string)
    requires IsRoot(root)
    ensures Comps(PathGuard(root).Candidate("..a")) == Comps(root) + ["..a"]
  {
    CandidateComps(root, "..a");
    SplitPlain("..a");
    assert |"..a"| != |DOT_DOT|;
    ReduceSnoc(true, Comps(root), [], "..a");
    assert [] + ["..a"] == ["..a"];
  }

  /** The two workspaces with these IDs resolve these inputs to one path. */
  predicate Meet(base: string, id1: string, id2: string, p1: string, p2: string)
    requires IsRoot(base)
  {
    JoinComps(base, id1);
    JoinComps(base, id2);
    var r := ResolveBelow(Join(base, id1), p1);
    r.Some? && r == ResolveBelow(Join(base, id2), p2)
  }

  /** Every clean path visibly below a base is what some input resolves to. */
  lemma ReachesVisible(base: string, target: string)
    requires IsRoot(base) && IsRoot(target) && VisibleBelow(Comps(base), Comps(target))
    ensures ResolveBelow(base, Render(true, Comps(target)[|Comps(base)|..])) == Some(target)
  {
    var b, t := Comps(base), Comps(target);
    var rest := t[|b|..];
    CompsNormal(target);
    RenderComps(true, rest);
    AbsoluteIsRerooted(base, Render(true, rest));
    BelowComps(base, Render(true, rest));
    assert b + rest == t;
    CleanUnique(ResolveBelow(base, Render(true, rest)).value, target);
  }

  /** For any IDs: two workspaces under one base can resolve to a common path exactly when
      one root is visibly below the other, or they are the same. */
  lemma WorkspacesMeetExactly(base: string, id1: string, id2: string)
    requires IsRoot(base)
    ensures var c1, c2 := Comps(Join(base, id1)), Comps(Join(base, id2));
            (exists p1, p2 :: Meet(base, id1, id2, p1, p2)) <==> VisibleBelow(c1, c2) || VisibleBelow(c2, c1)
  {
    JoinComps(base, id1);
    JoinComps(base, id2);
    var r1, r2 := Join(base, id1), Join(base, id2);
    var c1, c2 := Comps(r1), Comps(r2);
    if VisibleBelow(c1, c2) {
      ReachesVisible(r1, r2);
      assert Meet(base, id1, id2, Render(true, c2[|c1|..]), "");
    }
    if VisibleBelow(c2, c1) {
      ReachesVisible(r2, r1);
      assert Meet(base, id1, id2, "", Render(true, c1[|c2|..]));
    }
    if p1, p2 :| Meet(base, id1, id2, p1, p2) {
      BelowComps(r1, p1);
      BelowComps(r2, p2);
      VisibleBoth(c1, c2, Comps(ResolveBelow(r1, p1).value));
    }
  }

  lemma VisibleBoth(a: seq<string>, b: seq<string>, t: seq<string>)
    requires VisibleBelow(a, t) && VisibleBelow(b, t)
    ensures VisibleBelow(a, b) || VisibleBelow(b, a)
  {
    if |a| <= |b| {
      assert a == t[..|a|] == b[..|a|];
    } else {
      assert b == t[..|b|] == a[..|b|];
    }
  }

  /** In particular an ID of one workspace followed by a further component does meet it. */
  lemma NestedIdsMeet(base: string, id: string, more: string)
    requires IsRoot(base) && Plain(id) && Plain(more) && !HasPrefix(more, DOT_DOT)
    ensures exists p1, p2 :: Meet(base, id, id + [SEPARATOR] + more, p1, p2)
  {
    WorkspaceRoot(base, id);
    JoinComps(base, id + [SEPARATOR] + more);
    SplitAppend(id, more);
    SplitPlain(id);
    SplitPlain(more);
    ReduceAppend(true, Comps(base), [id], [more]);
    assert Reduce(true, Comps(base), [id]) == Reduce(true, Comps(base) + [id], [id][1..]);
    assert Reduce(true, Comps(base) + [id], [more]) == Reduce(true, Comps(base) + [id] + [more], [more][1..]);
    WorkspacesMeetExactly(base, id, id + [SEPARATOR] + more);
  }

  /** Workspaces with different IDs of one plain component never resolve to a common path. */
  lemma WorkspacesDisjoint(base: string, id1: string, id2: string, p1: string, p2: string)
    requires IsRoot(base) && Plain(id1) && Plain(id2) && id1 != id2
    ensures !Meet(base, id1, id2, p1, p2)
  {
    WorkspaceRoot(base, id1);
    WorkspaceRoot(base, id2);
    WorkspacesMeetExactly(base, id1, id2);
    var c1, c2 := Comps(Join(base, id1)), Comps(Join(base, id2));
    assert c1[|Comps(base)|] != c2[|Comps(base)|];
  }

  lemma WorkspaceRoot(base: string, id: string)
    requires IsRoot(base) && Plain(id)
    ensures IsRoot(Join(base, id)) && Comps(Join(base, id)) == Comps(base) + [id]
  {
    JoinComps(base, id);
    SplitPlain(id);
    assert Reduce(true, Comps(base), [id]) == Reduce(true, Comps(base) + [id], [id][1..]);
  }
}
