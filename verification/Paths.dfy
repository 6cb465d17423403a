/** Lexical Unix paths: splitting at separators, cleaning as a stack reduction
    over components, joining, and relative paths between absolute paths.
    These are the library operations every resolver of the system is built on. */
module Paths {

  const SEPARATOR: char := '/'
  const DOT: string := "."
  const DOT_DOT: string := ".."

  predicate IsAbs(p: string) {
    |p| > 0 && p[0] == SEPARATOR
  }

  predicate HasPrefix(s: string, prefix: string) {
    prefix <= s
  }

  /** Splits at every separator; an empty component stands on each side of a lone separator. */
  function Split(p: string): (cs: seq<string>)
    ensures |cs| > 0
    ensures forall c | c in cs :: SEPARATOR !in c
  {
    if p == "" then [""]
    else
      var rest := Split(p[1..]);
      if p[0] == SEPARATOR then [""] + rest else Lengthened(rest, p[0])
  }

  /** One more character in front of the first component. */
  function Lengthened(cs: seq<string>, ch: char): seq<string>
    requires |cs| > 0
  {
    [[ch] + cs[0]] + cs[1..]
  }

  /** Puts components back together with one separator between neighbours. */
  function Glue(cs: seq<string>): string {
    if |cs| == 0 then ""
    else if |cs| == 1 then cs[0]
    else cs[0] + [SEPARATOR] + Glue(cs[1..])
  }

  /** What one more component does to the components kept so far. */
  function Push(rooted: bool, stack: seq<string>, c: string): seq<string> {
    if c == "" || c == DOT then stack
    else if c != DOT_DOT then stack + [c]
    else if |stack| > 0 && stack[|stack| - 1] != DOT_DOT then stack[..|stack| - 1]
    else if rooted then stack
    else stack + [DOT_DOT]
  }

  function Reduce(rooted: bool, stack: seq<string>, cs: seq<string>): seq<string>
    decreases |cs|
  {
    if cs == [] then stack else Reduce(rooted, Push(rooted, stack, cs[0]), cs[1..])
  }

  /** The components a path denotes once "." and ".." are worked out. */
  function Comps(p: string): seq<string> {
    Reduce(IsAbs(p), [], Split(p))
  }

  function Render(rooted: bool, cs: seq<string>): string {
    if rooted then [SEPARATOR] + Glue(cs)
    else if cs == [] then DOT
    else Glue(cs)
  }

  function Clean(p: string): string {
    Render(IsAbs(p), Comps(p))
  }

  /** Leading empty elements are dropped, the rest is glued and cleaned. */
  function Join(a: string, b: string): string {
    if a != "" then Clean(a + [SEPARATOR] + b)
    else if b != "" then Clean(b)
    else ""
  }

  function CommonPrefix(a: seq<string>, b: seq<string>): (k: nat)
    ensures k <= |a| && k <= |b| && a[..k] == b[..k]
    ensures k < |a| && k < |b| ==> a[k] != b[k]
  {
    if |a| == 0 || |b| == 0 || a[0] != b[0] then 0
    else
      var k := CommonPrefix(a[1..], b[1..]);
      assert a[..k + 1] == [a[0]] + a[1..][..k] && b[..k + 1] == [b[0]] + b[1..][..k];
      k + 1
  }

  /** As many steps up. */
  function Ups(m: nat): seq<string> {
    seq(m, _ => DOT_DOT)
  }

  /** The relative path from one absolute path to another: up out of what the
      base has left, then down into what the target has left. */
  function Rel(base: string, target: string): string
    requires IsAbs(base) && IsAbs(target)
  {
    var b, t := Comps(base), Comps(target);
    if b == t then DOT
    else
      var k := CommonPrefix(b, t);
      Glue(Ups(|b| - k) + t[k..])
  }

  /** A component that names something: cleaning keeps only these, and "..". */
  predicate Plain(c: string) {
    c != "" && c != DOT && c != DOT_DOT && SEPARATOR !in c
  }

  /** Component lists cleaning can produce: plain names after a run of "..",
      and the run is empty when the path is absolute. */
  ghost predicate Normal(rooted: bool, cs: seq<string>) {
    && (forall i | 0 <= i < |cs| :: Plain(cs[i]) || (cs[i] == DOT_DOT && !rooted))
    && (forall i, j | 0 <= i < j < |cs| && cs[j] == DOT_DOT :: cs[i] == DOT_DOT)
  }

  lemma SplitStep(p: string)
    ensures Split("") == [""]
    ensures p != "" ==>
              Split(p) == if p[0] == SEPARATOR then [""] + Split(p[1..]) else Lengthened(Split(p[1..]), p[0])
  {
  }

  lemma LengthenedAppend(a: seq<string>, b: seq<string>, ch: char)
    requires |a| > 0
    ensures Lengthened(a + b, ch) == Lengthened(a, ch) + b
  {
  }

  lemma {:induction false} SplitAppend(a: string, b: string)
    ensures Split(a + [SEPARATOR] + b) == Split(a) + Split(b)
  {
    hide Split, Lengthened;
    var s := a + [SEPARATOR] + b;
    SplitStep(a);
    SplitStep(s);
    if a == "" {
      assert s[1..] == b;
    } else {
      assert s[1..] == a[1..] + [SEPARATOR] + b && s[0] == a[0];
      SplitAppend(a[1..], b);
      LengthenedAppend(Split(a[1..]), Split(b), a[0]);
      assert [""] + (Split(a[1..]) + Split(b)) == [""] + Split(a[1..]) + Split(b);
    }
  }

  lemma {:induction false} SplitPlain(c: string)
    requires SEPARATOR !in c
    ensures Split(c) == [c]
  {
    if c != "" {
      SplitPlain(c[1..]);
      assert [c[0]] + c[1..] == c;
    }
  }

  /** Gluing separator-free components and splitting again gives them back. */
  lemma {:induction false} SplitGlue(cs: seq<string>)
    requires |cs| > 0
    requires forall c | c in cs :: SEPARATOR !in c
    ensures Split(Glue(cs)) == cs
  {
    SplitPlain(cs[0]);
    if |cs| == 1 {
      assert cs == [cs[0]];
    } else {
      assert Glue(cs) == cs[0] + [SEPARATOR] + Glue(cs[1..]);
      assert cs == [cs[0]] + cs[1..];
      hide Split, Glue;
      SplitAppend(cs[0], Glue(cs[1..]));
      SplitGlue(cs[1..]);
    }
  }

  lemma {:induction false} ReduceAppend(rooted: bool, stack: seq<string>, a: seq<string>, b: seq<string>)
    ensures Reduce(rooted, stack, a + b) == Reduce(rooted, Reduce(rooted, stack, a), b)
    decreases |a|
  {
    if a == [] {
      assert a + b == b;
    } else {
      assert (a + b)[1..] == a[1..] + b;
      ReduceAppend(rooted, Push(rooted, stack, a[0]), a[1..], b);
    }
  }

  lemma {:induction false} ReduceSnoc(rooted: bool, stack: seq<string>, a: seq<string>, c: string)
    ensures Reduce(rooted, stack, a + [c]) == Push(rooted, Reduce(rooted, stack, a), c)
  {
    ReduceAppend(rooted, stack, a, [c]);
    assert Reduce(rooted, Reduce(rooted, stack, a), [c]) == Reduce(rooted, Push(rooted, Reduce(rooted, stack, a), c), [c][1..]);
  }

  lemma ReduceOne(rooted: bool, stack: seq<string>, c: string)
    ensures Reduce(rooted, stack, [c]) == Push(rooted, stack, c)
  {
    assert Reduce(rooted, stack, [c]) == Reduce(rooted, Push(rooted, stack, c), [c][1..]);
  }

  lemma {:induction false} ReduceNormal(rooted: bool, stack: seq<string>, cs: seq<string>)
    requires Normal(rooted, stack)
    requires forall c | c in cs :: SEPARATOR !in c
    ensures Normal(rooted, Reduce(rooted, stack, cs))
    decreases |cs|
  {
    if cs != [] {
      ReduceNormal(rooted, Push(rooted, stack, cs[0]), cs[1..]);
    }
  }

  /** Components that are already normal are kept as they are. */
  lemma {:induction false} ReduceKeeps(rooted: bool, stack: seq<string>, cs: seq<string>)
    requires Normal(rooted, stack + cs)
    ensures Reduce(rooted, stack, cs) == stack + cs
    decreases |cs|
  {
    if cs == [] {
      assert stack + cs == stack;
    } else {
      var n := |stack|;
      assert (stack + cs)[n] == cs[0];
      assert cs[0] == DOT_DOT ==> !rooted && (n == 0 || (stack + cs)[n - 1] == DOT_DOT);
      assert stack + cs == (stack + [cs[0]]) + cs[1..];
      ReduceKeeps(rooted, stack + [cs[0]], cs[1..]);
    }
  }

  lemma CompsNormal(p: string)
    ensures Normal(IsAbs(p), Comps(p))
  {
    ReduceNormal(IsAbs(p), [], Split(p));
  }

  /** Reducing a normal relative list after one more component, or before it. */
  lemma ConfluentPush(rooted: bool, stack: seq<string>, t: seq<string>, c: string)
    requires Normal(false, t) && SEPARATOR !in c
    ensures Reduce(rooted, stack, Push(false, t, c)) == Push(rooted, Reduce(rooted, stack, t), c)
  {
    hide Reduce;
    if c == DOT_DOT && |t| > 0 && t[|t| - 1] != DOT_DOT {
      assert t == t[..|t| - 1] + [t[|t| - 1]];
      ReduceSnoc(rooted, stack, t[..|t| - 1], t[|t| - 1]);
    } else {
      ReduceSnoc(rooted, stack, t, c);
    }
  }

  /** Confluence: reducing a relative list first and the result afterwards does
      the same to any stack as reducing the list directly. */
  lemma {:induction false} Confluence(rooted: bool, stack: seq<string>, cs: seq<string>)
    requires forall c | c in cs :: SEPARATOR !in c
    ensures Reduce(rooted, stack, Reduce(false, [], cs)) == Reduce(rooted, stack, cs)
    decreases |cs|
  {
    if cs != [] {
      var n := |cs| - 1;
      var init, c := cs[..n], cs[n];
      assert cs == init + [c];
      var t := Reduce(false, [], init);
      Confluence(rooted, stack, init);
      ReduceNormal(false, [], init);
      ReduceSnoc(false, [], init, c);
      ReduceSnoc(rooted, stack, init, c);
      ConfluentPush(rooted, stack, t, c);
    }
  }

  lemma GlueNotAbs(cs: seq<string>)
    requires |cs| > 0 && cs[0] != "" && SEPARATOR !in cs[0]
    ensures !IsAbs(Glue(cs))
  {
    assert Glue(cs)[0] == cs[0][0];
  }

  lemma RenderEmpty(rooted: bool)
    ensures IsAbs(Render(rooted, [])) == rooted
    ensures Comps(Render(rooted, [])) == []
  {
    SplitStep("");
    SplitAppend("", "");
    SplitPlain(DOT);
    assert Render(true, []) == "" + [SEPARATOR] + "";
    assert Reduce(false, [], [DOT]) == Reduce(false, [], [DOT][1..]);
    assert Reduce(true, [], ["", ""]) == Reduce(true, [], ["", ""][1..]) == Reduce(true, [], [""][1..]);
  }

  /** Writing a path from normal components and reading it again gives them back. */
  lemma RenderComps(rooted: bool, cs: seq<string>)
    requires Normal(rooted, cs)
    ensures IsAbs(Render(rooted, cs)) == rooted
    ensures Comps(Render(rooted, cs)) == cs
  {
    hide Split, Glue;
    if cs == [] {
      RenderEmpty(rooted);
    } else {
      assert forall c | c in cs :: SEPARATOR !in c;
      assert [] + cs == cs;
      SplitGlue(cs);
      ReduceKeeps(rooted, [], cs);
      if rooted {
        SplitStep("");
        SplitAppend("", Glue(cs));
        assert "" + [SEPARATOR] + Glue(cs) == [SEPARATOR] + Glue(cs);
        assert ([""] + cs)[1..] == cs && ([""] + cs)[0] == "";
      } else {
        GlueNotAbs(cs);
      }
    }
  }

  /** Cleaning changes neither rootedness nor the components denoted, and it is idempotent. */
  lemma CleanFaithful(p: string)
    ensures IsAbs(Clean(p)) == IsAbs(p)
    ensures Comps(Clean(p)) == Comps(p)
    ensures Clean(Clean(p)) == Clean(p)
  {
    CompsNormal(p);
    RenderComps(IsAbs(p), Comps(p));
  }

  /** Two clean paths are equal as strings exactly when they denote the same components. */
  lemma CleanUnique(p: string, q: string)
    requires Clean(p) == p && Clean(q) == q
    ensures p == q <==> IsAbs(p) == IsAbs(q) && Comps(p) == Comps(q)
  {
  }

  lemma JoinComps(a: string, b: string)
    requires IsAbs(a)
    ensures IsAbs(Join(a, b)) && Clean(Join(a, b)) == Join(a, b)
    ensures Comps(Join(a, b)) == Reduce(true, Comps(a), Split(b))
  {
    var s := a + [SEPARATOR] + b;
    CleanFaithful(s);
    SplitAppend(a, b);
    ReduceAppend(true, [], Split(a), Split(b));
  }

  /** Cleaning the second operand first makes no difference to a join below an absolute path. */
  lemma JoinClean(a: string, b: string)
    requires IsAbs(a) && !IsAbs(b)
    ensures Join(a, Clean(b)) == Join(a, b)
  {
    hide Split, Glue, Join;
    JoinComps(a, b);
    JoinComps(a, Clean(b));
    CompsNormal(b);
    var cs := Comps(b);
    Confluence(true, Comps(a), Split(b));
    if cs == [] {
      SplitPlain(DOT);
      assert Reduce(true, Comps(a), [DOT]) == Reduce(true, Comps(a), [DOT][1..]);
    } else {
      assert forall c | c in cs :: SEPARATOR !in c;
      SplitGlue(cs);
    }
    CleanUnique(Join(a, Clean(b)), Join(a, b));
  }

  lemma GlueStartsDotDot(cs: seq<string>)
    requires |cs| > 0 && SEPARATOR !in cs[0]
    ensures HasPrefix(Glue(cs), DOT_DOT) <==> HasPrefix(cs[0], DOT_DOT)
  {
    var g := Glue(cs);
    assert |cs[0]| <= |g| && g[..|cs[0]|] == cs[0];
    if |cs[0]| >= 2 {
      assert g[..2] == cs[0][..2];
    } else if |g| >= 2 {
      assert g[|cs[0]|] == SEPARATOR;
      assert g[..2][|cs[0]|] == SEPARATOR;
    }
  }

  /** A relative path starts with two dots exactly when the target is not below
      the base, or the first component below it itself starts with two dots. */
  lemma RelStartsDotDot(base: string, target: string)
    requires IsAbs(base) && IsAbs(target)
    ensures var b, t := Comps(base), Comps(target);
            HasPrefix(Rel(base, target), DOT_DOT) <==> !(b <= t) || (|b| < |t| && HasPrefix(t[|b|], DOT_DOT))
  {
    var b, t := Comps(base), Comps(target);
    CompsNormal(target);
    if b != t {
      var k := CommonPrefix(b, t);
      var cs := Ups(|b| - k) + t[k..];
      if k == |b| {
        assert b <= t && |b| < |t| && cs[0] == t[|b|];
        GlueStartsDotDot(cs);
      } else {
        assert !(b <= t);
        GlueStartsDotDot(cs);
      }
    }
  }

  // ---- cleaning as rewriting of strings ----

  /** A middle part whose components come to nothing can be left out. */
  lemma LeaveOut(a: string, x: string, b: string)
    requires var rooted := IsAbs(a + [SEPARATOR]);
             Reduce(rooted, Reduce(rooted, [], Split(a)), Split(x)) == Reduce(rooted, [], Split(a))
    ensures Clean(a + [SEPARATOR] + x + [SEPARATOR] + b) == Clean(a + [SEPARATOR] + b)
  {
    hide Split, Reduce, Push;
    var rooted := IsAbs(a + [SEPARATOR]);
    SplitAppend(a + [SEPARATOR] + x, b);
    SplitAppend(a, x);
    SplitAppend(a, b);
    ReduceAppend(rooted, [], Split(a) + Split(x), Split(b));
    ReduceAppend(rooted, [], Split(a), Split(x));
    ReduceAppend(rooted, [], Split(a), Split(b));
    assert IsAbs(a + [SEPARATOR] + x + [SEPARATOR] + b) == rooted == IsAbs(a + [SEPARATOR] + b);
  }

  lemma DownAndUp(rooted: bool, stack: seq<string>, c: string)
    requires Plain(c)
    ensures Split(c + [SEPARATOR] + DOT_DOT) == [c, DOT_DOT]
    ensures Reduce(rooted, stack, [c, DOT_DOT]) == stack
  {
    SplitAppend(c, DOT_DOT);
    SplitPlain(c);
    SplitPlain(DOT_DOT);
    assert [c] + [DOT_DOT] == [c, DOT_DOT] && [c, DOT_DOT][1..] == [DOT_DOT];
    assert Reduce(rooted, stack + [c], [DOT_DOT]) == Reduce(rooted, stack, [DOT_DOT][1..]);
  }

  /** Two dots take back the name before them. */
  lemma ClimbCancels(a: string, c: string, b: string)
    requires Plain(c)
    ensures Clean(a + [SEPARATOR] + c + [SEPARATOR] + DOT_DOT + [SEPARATOR] + b) == Clean(a + [SEPARATOR] + b)
  {
    var rooted := IsAbs(a + [SEPARATOR]);
    DownAndUp(rooted, Reduce(rooted, [], Split(a)), c);
    var x := c + [SEPARATOR] + DOT_DOT;
    assert a + [SEPARATOR] + c + [SEPARATOR] + DOT_DOT + [SEPARATOR] + b == a + [SEPARATOR] + x + [SEPARATOR] + b;
    LeaveOut(a, x, b);
  }

  /** Nothing is above the root. */
  lemma RootAbsorbs(b: string)
    ensures Clean([SEPARATOR] + DOT_DOT + [SEPARATOR] + b) == Clean([SEPARATOR] + b)
  {
    SplitStep("");
    SplitPlain(DOT_DOT);
    assert Reduce(true, [], [""]) == Reduce(true, [], [""][1..]);
    assert Reduce(true, [], [DOT_DOT]) == Reduce(true, [], [DOT_DOT][1..]);
    assert "" + [SEPARATOR] == [SEPARATOR];
    LeaveOut("", DOT_DOT, b);
  }

  /** A single dot, and a doubled or trailing separator, mean nothing. */
  lemma DotsAndSeparatorsDropped(a: string, b: string)
    ensures Clean(a + [SEPARATOR] + DOT + [SEPARATOR] + b) == Clean(a + [SEPARATOR] + b)
    ensures Clean(a + [SEPARATOR] + [SEPARATOR] + b) == Clean(a + [SEPARATOR] + b)
    ensures a != "" ==> Clean(a + [SEPARATOR]) == Clean(a)
  {
    var rooted := IsAbs(a + [SEPARATOR]);
    var stack := Reduce(rooted, [], Split(a));
    SplitStep("");
    SplitPlain(DOT);
    assert Reduce(rooted, stack, [DOT]) == Reduce(rooted, stack, [DOT][1..]);
    assert Reduce(rooted, stack, [""]) == Reduce(rooted, stack, [""][1..]);
    LeaveOut(a, DOT, b);
    LeaveOut(a, "", b);
    assert a + [SEPARATOR] + "" + [SEPARATOR] + b == a + [SEPARATOR] + [SEPARATOR] + b;
    if a != "" {
      SplitAppend(a, "");
      assert a + [SEPARATOR] + "" == a + [SEPARATOR];
      ReduceAppend(rooted, [], Split(a), [""]);
    }
  }

  /** An empty operand adds nothing on either side. */
  lemma JoinEmptyNeutral(b: string)
    ensures Join("", b) == Join(b, "")
    ensures b != "" ==> Join(b, "") == Clean(b)
  {
    DotsAndSeparatorsDropped(b, "");
    assert b + [SEPARATOR] + "" == b + [SEPARATOR];
  }

  /** The same at the start of a relative path. */
  lemma LeadingDropped(c: string, b: string)
    requires !IsAbs(b)
    ensures Clean(DOT + [SEPARATOR] + b) == Clean(b)
    ensures Plain(c) ==> Clean(c + [SEPARATOR] + DOT_DOT + [SEPARATOR] + b) == Clean(b)
  {
    SplitPlain(DOT);
    SplitAppend(DOT, b);
    assert Reduce(false, [], [DOT]) == Reduce(false, [], [DOT][1..]);
    ReduceAppend(false, [], [DOT], Split(b));
    if Plain(c) {
      DownAndUp(false, [], c);
      SplitAppend(c + [SEPARATOR] + DOT_DOT, b);
      ReduceAppend(false, [], [c, DOT_DOT], Split(b));
      assert !IsAbs(c + [SEPARATOR] + DOT_DOT + [SEPARATOR] + b);
    }
  }

  lemma {:induction false} ClimbUp(cs: seq<string>, m: nat)
    requires Normal(true, cs) && m <= |cs|
    ensures Reduce(true, cs, Ups(m)) == cs[..|cs| - m]
    decreases m
  {
    if m > 0 {
      assert Ups(m)[1..] == Ups(m - 1);
      ClimbUp(cs[..|cs| - 1], m - 1);
      assert cs[..|cs| - 1][..|cs| - m] == cs[..|cs| - m];
    }
  }

  lemma WayAcross(b: seq<string>, t: seq<string>, k: nat)
    requires Normal(true, b) && Normal(true, t) && k <= |b| && k <= |t| && b[..k] == t[..k]
    ensures Reduce(true, b, Ups(|b| - k) + t[k..]) == t
  {
    hide Reduce, Push, Ups, Normal;
    var up, rest := |b| - k, t[k..];
    assert t[..k] + rest == t;
    ReduceAppend(true, b, Ups(up), rest);
    ClimbUp(b, up);
    assert |b| - up == k;
    ReduceKeeps(true, t[..k], rest);
  }

  lemma RelLeads(base: string, target: string)
    requires IsAbs(base) && IsAbs(target)
    ensures Reduce(true, Comps(base), Split(Rel(base, target))) == Comps(target)
  {
    hide Split, Glue, Comps, Reduce, CommonPrefix, Ups;
    var b, t := Comps(base), Comps(target);
    CompsNormal(base);
    CompsNormal(target);
    if b == t {
      SplitPlain(DOT);
      ReduceOne(true, b, DOT);
    } else {
      var k := CommonPrefix(b, t);
      WayComponents(b, t, k);
      SplitGlue(Ups(|b| - k) + t[k..]);
      WayAcross(b, t, k);
    }
  }

  lemma WayComponents(b: seq<string>, t: seq<string>, k: nat)
    requires Normal(true, t) && k <= |b| && k <= |t| && b[..k] == t[..k] && b != t
    ensures Ups(|b| - k) + t[k..] != []
    ensures forall c | c in Ups(|b| - k) + t[k..] :: SEPARATOR !in c
  {
  }

  /** The relative path leads from the base to the target: joining undoes Rel. */
  lemma JoinUndoesRel(base: string, target: string)
    requires IsAbs(base) && IsAbs(target)
    ensures Join(base, Rel(base, target)) == Clean(target)
  {
    hide Split, Comps, Join, Rel, Reduce;
    JoinComps(base, Rel(base, target));
    RelLeads(base, target);
    CleanFaithful(target);
    CleanUnique(Join(base, Rel(base, target)), Clean(target));
  }
}
