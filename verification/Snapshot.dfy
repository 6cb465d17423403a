/** The filesystem snapshot backend over a disk of names, inodes and bytes.
    Create copies a tree into fresh inodes; Restore hard-links files back where
    the target has none and otherwise truncates and overwrites in place. */
module Snapshot {
  import opened Wrappers

  type Inode = nat

  /** A file below one of the roots: a source tree, a snapshot's data tree, a restore target. */
  datatype Name = Name(root: string, rel: string)

  datatype Disk = Disk(names: map<Name, Inode>, heap: map<Inode, Bytes>, next: Inode) {
    ghost predicate Valid() {
      && (forall n | n in names :: names[n] in heap)
      && (forall i | i in heap :: i < next)
    }

    function At(n: Name): Bytes
      requires n in names && names[n] in heap
    {
      heap[names[n]]
    }

    /** Opening for writing creates the file or truncates the inode it already names,
        and only then are the source's bytes read. */
    function CopyFile(src: Name, dst: Name): Disk
      requires Valid() && src in names
    {
      if dst in names then
        var truncated := heap[names[dst] := []];
        Disk(names, truncated[names[dst] := truncated[names[src]]], next)
      else
        Disk(names[dst := next], heap[next := At(src)], next + 1)
    }

    function Link(src: Name, dst: Name): Disk
      requires src in names
    {
      Disk(names[dst := names[src]], heap, next)
    }
  }

  predicate Distinct(order: seq<string>) {
    forall i, j | 0 <= i < j < |order| :: order[i] != order[j]
  }

  /** A directory walk visits every file below the root once, in some order. */
  ghost predicate Walk(d: Disk, root: string, order: seq<string>) {
    && (forall r :: r in order <==> Name(root, r) in d.names)
    && Distinct(order)
  }

  /** What the environment decides: where a hard link is possible, and where opening a file fails. */
  datatype Env = Env(linkable: set<string>, unopenable: set<string>)

  datatype Outcome = Outcome(disk: Disk, ok: bool)

  function RestoreStep(d: Disk, snap: string, target: string, rel: string, env: Env): Outcome
    requires d.Valid() && Name(snap, rel) in d.names
  {
    var src, dst := Name(snap, rel), Name(target, rel);
    if rel in env.linkable && dst !in d.names then Outcome(d.Link(src, dst), true)
    else if rel in env.unopenable then Outcome(d, false)
    else Outcome(d.CopyFile(src, dst), true)
  }

  function CreateStep(d: Disk, source: string, snap: string, rel: string, env: Env): Outcome
    requires d.Valid() && Name(source, rel) in d.names
  {
    if rel in env.unopenable then Outcome(d, false)
    else Outcome(d.CopyFile(Name(source, rel), Name(snap, rel)), true)
  }

  /** The walk stops at the first error, leaving what was done so far. */
  function Restored(d: Disk, snap: string, target: string, order: seq<string>, env: Env): (o: Outcome)
    requires d.Valid() && forall r | r in order :: Name(snap, r) in d.names
    ensures o.disk.Valid() && d.names.Keys <= o.disk.names.Keys
  {
    if order == [] then Outcome(d, true)
    else
      var before := Restored(d, snap, target, order[..|order| - 1], env);
      if !before.ok then before
      else RestoreStep(before.disk, snap, target, order[|order| - 1], env)
  }

  function Created(d: Disk, source: string, snap: string, order: seq<string>, env: Env): (o: Outcome)
    requires d.Valid() && forall r | r in order :: Name(source, r) in d.names
    ensures o.disk.Valid() && d.names.Keys <= o.disk.names.Keys
  {
    if order == [] then Outcome(d, true)
    else
      var before := Created(d, source, snap, order[..|order| - 1], env);
      if !before.ok then before
      else CreateStep(before.disk, source, snap, order[|order| - 1], env)
  }

  function TotalSize(d: Disk, root: string, order: seq<string>): nat
    requires d.Valid() && forall r | r in order :: Name(root, r) in d.names
  {
    if order == [] then 0
    else TotalSize(d, root, order[..|order| - 1]) + |d.At(Name(root, order[|order| - 1]))|
  }

  /** The bytes a name should hold after restoring snap over target. */
  function Expected(d: Disk, snap: string, target: string, n: Name): Bytes
    requires d.Valid() && (n in d.names || (n.root == target && Name(snap, n.rel) in d.names))
  {
    if n.root == target && Name(snap, n.rel) in d.names then d.At(Name(snap, n.rel)) else d.At(n)
  }

  /** An exact overlay: the snapshot's files appear in the target with the snapshot's
      bytes, and every other name on the disk, the snapshot's included, keeps its bytes. */
  ghost predicate Overlay(d: Disk, d': Disk, snap: string, target: string)
    requires d.Valid() && d'.Valid()
  {
    && (forall n :: n in d'.names <==> n in d.names || (n.root == target && Name(snap, n.rel) in d.names))
    && (forall n | n in d'.names :: d'.At(n) == Expected(d, snap, target, n))
  }

  /** Create gives each snapshot file an inode of its own. */
  ghost predicate OwnInodes(d: Disk, root: string) {
    forall r, s | Name(root, r) in d.names && Name(root, s) in d.names && r != s ::
      d.names[Name(root, r)] != d.names[Name(root, s)]
  }

  predicate Overwrites(d: Disk, target: string, rel: string, i: Inode) {
    Name(target, rel) in d.names && d.names[Name(target, rel)] == i
  }

  /** The file whose copy is the last one in the walk to overwrite inode i. */
  function LastWriter(d: Disk, target: string, order: seq<string>, i: Inode): (w: Option<string>)
    ensures w.Some? ==> w.value in order && Overwrites(d, target, w.value, i)
    ensures w.None? ==> forall r | r in order :: !Overwrites(d, target, r, i)
  {
    if order == [] then None
    else if Overwrites(d, target, order[|order| - 1], i) then Some(order[|order| - 1])
    else
      assert forall r | r in order :: r == order[|order| - 1] || r in order[..|order| - 1];
      LastWriter(d, target, order[..|order| - 1], i)
  }

  /** All names of an inode that the walk overwrites expect the bytes it is overwritten with. */
  ghost predicate Agreeing(d: Disk, snap: string, target: string, order: seq<string>)
    requires d.Valid() && forall r | r in order :: Name(snap, r) in d.names
  {
    forall r, n | r in order && n in d.names && Overwrites(d, target, r, d.names[n]) ::
      Expected(d, snap, target, n) == d.At(Name(snap, r))
  }

  /** Checkable before the call: all names of an inode that will be overwritten
      expect the bytes written, and where the last writer has source and
      destination on one inode those bytes are empty. */
  ghost predicate Compatible(d: Disk, snap: string, target: string, order: seq<string>)
    requires d.Valid() && forall r | r in order :: Name(snap, r) in d.names
  {
    && Agreeing(d, snap, target, order)
    && (forall r | r in order && LastWriter(d, target, order, d.names[Name(snap, r)]) == Some(r) ::
          d.At(Name(snap, r)) == [])
  }

  /** What one completed step of a walk does to the disk. */
  ghost predicate StepEffect(s: Disk, s': Disk, src: Name, dst: Name)
    requires s.Valid() && src in s.names
  {
    && s'.Valid() && s.next <= s'.next
    && (forall n :: n in s'.names <==> n in s.names || n == dst)
    && (forall n | n in s.names :: s'.names[n] == s.names[n])
    && (forall i | i in s.heap && !(dst in s.names && s.names[dst] == i) :: i in s'.heap && s'.heap[i] == s.heap[i])
    && (dst in s.names ==> s'.At(dst) == if s.names[dst] == s.names[src] then [] else s.At(src))
    && (dst !in s.names ==> s'.names[dst] == s.names[src] || (s.next <= s'.names[dst] && s'.At(dst) == s.At(src)))
  }

  /** The names after a completed walk, with no assumption on aliasing. */
  ghost predicate NamesFrame(d: Disk, s: Disk, snap: string, target: string, order: seq<string>)
    requires d.Valid() && s.Valid() && forall r | r in order :: Name(snap, r) in d.names
  {
    && d.next <= s.next
    && (forall n :: n in s.names <==> n in d.names || (n.root == target && n.rel in order))
    && (forall n | n in d.names :: s.names[n] == d.names[n])
    && (forall n | n in s.names && n !in d.names :: s.names[n] == d.names[Name(snap, n.rel)] || d.next <= s.names[n])
  }

  /** The bytes after a completed walk: an inode nothing overwrites is as it was,
      and one whose last writer copies it onto itself is empty. */
  ghost predicate HeapFrame(d: Disk, s: Disk, snap: string, target: string, order: seq<string>)
    requires d.Valid() && s.Valid() && forall r | r in order :: Name(snap, r) in d.names
  {
    forall i | i in d.heap ::
      && i in s.heap
      && var w := LastWriter(d, target, order, i);
         && (w.None? ==> s.heap[i] == d.heap[i])
         && (w.Some? && d.names[Name(snap, w.value)] == i ==> s.heap[i] == [])
  }

  /** If the names agree, every other overwritten inode and every new one has the snapshot's bytes. */
  ghost predicate Contents(d: Disk, s: Disk, snap: string, target: string, order: seq<string>)
    requires d.Valid() && s.Valid() && forall r | r in order :: Name(snap, r) in d.names
  {
    && (forall i | i in d.heap ::
          && i in s.heap
          && var w := LastWriter(d, target, order, i);
             w.Some? && d.names[Name(snap, w.value)] != i ==> s.heap[i] == d.At(Name(snap, w.value)))
    && (forall n | n in s.names && d.next <= s.names[n] :: Name(snap, n.rel) in d.names && s.At(n) == d.At(Name(snap, n.rel)))
  }

  /** The walk so far visited init, the next file is rel, and s' follows s. */
  ghost predicate NextStep(d: Disk, s: Disk, s': Disk, snap: string, target: string, init: seq<string>, rel: string) {
    && d.Valid() && s.Valid() && s'.Valid() && snap != target && rel !in init
    && Name(snap, rel) in d.names
    && (forall r | r in init :: Name(snap, r) in d.names)
    && NamesFrame(d, s, snap, target, init)
    && StepEffect(s, s', Name(snap, rel), Name(target, rel))
  }

  lemma NamesFrameStep(d: Disk, s: Disk, s': Disk, snap: string, target: string, init: seq<string>, rel: string)
    requires NextStep(d, s, s', snap, target, init, rel)
    ensures NamesFrame(d, s', snap, target, init + [rel])
  {
  }

  lemma LastWriterSnoc(d: Disk, target: string, init: seq<string>, rel: string)
    ensures forall i: Inode :: LastWriter(d, target, init + [rel], i) ==
              if Overwrites(d, target, rel, i) then Some(rel) else LastWriter(d, target, init, i)
  {
    assert (init + [rel])[..|init|] == init;
  }

  lemma HeapFrameStep(d: Disk, s: Disk, s': Disk, snap: string, target: string, init: seq<string>, rel: string)
    requires NextStep(d, s, s', snap, target, init, rel)
    requires HeapFrame(d, s, snap, target, init)
    ensures HeapFrame(d, s', snap, target, init + [rel])
  {
    LastWriterSnoc(d, target, init, rel);
    var dst := Name(target, rel);
    assert dst in s.names <==> dst in d.names;
  }

  lemma ContentsStep(d: Disk, s: Disk, s': Disk, snap: string, target: string, init: seq<string>, rel: string)
    requires NextStep(d, s, s', snap, target, init, rel)
    requires s.At(Name(snap, rel)) == d.At(Name(snap, rel))
    requires Contents(d, s, snap, target, init)
    ensures Contents(d, s', snap, target, init + [rel])
  {
    LastWriterSnoc(d, target, init, rel);
    var dst := Name(target, rel);
    assert dst in s.names <==> dst in d.names;
    forall i | i in d.heap
      ensures i in s'.heap
      ensures var w := LastWriter(d, target, init + [rel], i);
              w.Some? && d.names[Name(snap, w.value)] != i ==> s'.heap[i] == d.At(Name(snap, w.value))
    {
      assert i in s.heap;
    }
    forall n | n in s'.names && d.next <= s'.names[n]
      ensures Name(snap, n.rel) in d.names && s'.At(n) == d.At(Name(snap, n.rel))
    {
      if n != dst {
        assert s'.heap[s.names[n]] == s.heap[s.names[n]];
      }
    }
  }

  /** When a file is about to be copied, its snapshot inode still holds the original bytes. */
  lemma SourceIntact(d: Disk, s: Disk, snap: string, target: string, done: seq<string>, rel: string)
    requires d.Valid() && s.Valid() && snap != target && OwnInodes(d, snap)
    requires forall r | r in done :: Name(snap, r) in d.names
    requires rel !in done && Name(snap, rel) in d.names
    requires HeapFrame(d, s, snap, target, done) && Contents(d, s, snap, target, done)
    requires Agreeing(d, snap, target, done)
    ensures var j := d.names[Name(snap, rel)]; j in s.heap && s.heap[j] == d.heap[j]
  {
    var w := LastWriter(d, target, done, d.names[Name(snap, rel)]);
    if w.Some? {
      assert Expected(d, snap, target, Name(snap, rel)) == d.At(Name(snap, w.value));
    }
  }

  lemma StepHasEffect(s: Disk, snap: string, target: string, rel: string, env: Env)
    requires s.Valid() && snap != target && Name(snap, rel) in s.names
    requires RestoreStep(s, snap, target, rel, env).ok
    ensures StepEffect(s, RestoreStep(s, snap, target, rel, env).disk, Name(snap, rel), Name(target, rel))
  {
  }

  /** The last step of a walk that completed. */
  lemma LastStep(d: Disk, snap: string, target: string, init: seq<string>, rel: string, env: Env)
    requires d.Valid() && snap != target
    requires Name(snap, rel) in d.names && forall r | r in init :: Name(snap, r) in d.names
    requires Restored(d, snap, target, init + [rel], env).ok
    ensures Restored(d, snap, target, init, env).ok
    ensures StepEffect(Restored(d, snap, target, init, env).disk, Restored(d, snap, target, init + [rel], env).disk,
                       Name(snap, rel), Name(target, rel))
  {
    assert (init + [rel])[..|init|] == init;
    StepHasEffect(Restored(d, snap, target, init, env).disk, snap, target, rel, env);
  }

  lemma DistinctSnoc(order: seq<string>)
    requires Distinct(order) && order != []
    ensures var m := |order| - 1;
            order == order[..m] + [order[m]] && Distinct(order[..m]) && order[m] !in order[..m]
  {
  }

  lemma {:induction false} RestoreFrame(d: Disk, snap: string, target: string, order: seq<string>, env: Env)
    requires d.Valid() && snap != target && Distinct(order)
    requires forall r | r in order :: Name(snap, r) in d.names
    requires Restored(d, snap, target, order, env).ok
    ensures NamesFrame(d, Restored(d, snap, target, order, env).disk, snap, target, order)
    ensures HeapFrame(d, Restored(d, snap, target, order, env).disk, snap, target, order)
    decreases |order|
  {
    if order != [] {
      DistinctSnoc(order);
      var init, rel := order[..|order| - 1], order[|order| - 1];
      LastStep(d, snap, target, init, rel, env);
      RestoreFrame(d, snap, target, init, env);
      FrameStep(d, Restored(d, snap, target, init, env).disk, Restored(d, snap, target, order, env).disk, snap, target, init, rel);
    }
  }

  lemma FrameStep(d: Disk, s: Disk, s': Disk, snap: string, target: string, init: seq<string>, rel: string)
    requires NextStep(d, s, s', snap, target, init, rel)
    requires HeapFrame(d, s, snap, target, init)
    ensures NamesFrame(d, s', snap, target, init + [rel])
    ensures HeapFrame(d, s', snap, target, init + [rel])
  {
    NamesFrameStep(d, s, s', snap, target, init, rel);
    HeapFrameStep(d, s, s', snap, target, init, rel);
  }

  lemma {:induction false} RestoreContents(d: Disk, snap: string, target: string, order: seq<string>, env: Env)
    requires d.Valid() && snap != target && OwnInodes(d, snap) && Distinct(order)
    requires forall r | r in order :: Name(snap, r) in d.names
    requires Agreeing(d, snap, target, order)
    requires Restored(d, snap, target, order, env).ok
    ensures Contents(d, Restored(d, snap, target, order, env).disk, snap, target, order)
    decreases |order|
  {
    if order != [] {
      DistinctSnoc(order);
      var init, rel := order[..|order| - 1], order[|order| - 1];
      LastStep(d, snap, target, init, rel, env);
      RestoreFrame(d, snap, target, init, env);
      RestoreContents(d, snap, target, init, env);
      var s := Restored(d, snap, target, init, env).disk;
      SourceIntact(d, s, snap, target, init, rel);
      ContentsStep(d, s, Restored(d, snap, target, order, env).disk, snap, target, init, rel);
    }
  }

  /** Restore is an exact overlay exactly when the names it overwrites are compatible,
      whichever files are linked and whichever are copied. */
  lemma RestoreExact(d: Disk, snap: string, target: string, order: seq<string>, env: Env)
    requires d.Valid() && snap != target && OwnInodes(d, snap) && Walk(d, snap, order)
    requires Restored(d, snap, target, order, env).ok
    ensures Overlay(d, Restored(d, snap, target, order, env).disk, snap, target) <==> Compatible(d, snap, target, order)
  {
    RestoreFrame(d, snap, target, order, env);
    var s := Restored(d, snap, target, order, env).disk;
    if Compatible(d, snap, target, order) {
      RestoreContents(d, snap, target, order, env);
      CompatibleGivesOverlay(d, s, snap, target, order);
    }
    if Overlay(d, s, snap, target) {
      OverlayNeedsCompatible(d, s, snap, target, order);
    }
  }

  lemma CompatibleGivesOverlay(d: Disk, s: Disk, snap: string, target: string, order: seq<string>)
    requires d.Valid() && s.Valid() && snap != target && Walk(d, snap, order) && Compatible(d, snap, target, order)
    requires NamesFrame(d, s, snap, target, order) && HeapFrame(d, s, snap, target, order)
    requires Contents(d, s, snap, target, order)
    ensures Overlay(d, s, snap, target)
  {
    forall n | n in s.names
      ensures s.At(n) == Expected(d, snap, target, n)
    {
      RestoredBytes(d, s, snap, target, order, n);
    }
  }

  lemma RestoredBytes(d: Disk, s: Disk, snap: string, target: string, order: seq<string>, n: Name)
    requires d.Valid() && s.Valid() && snap != target && Walk(d, snap, order) && Compatible(d, snap, target, order)
    requires NamesFrame(d, s, snap, target, order) && HeapFrame(d, s, snap, target, order)
    requires Contents(d, s, snap, target, order)
    requires n in s.names
    ensures s.At(n) == Expected(d, snap, target, n)
  {
    var i := s.names[n];
    if i < d.next {
      var origin := if n in d.names then n else Name(snap, n.rel);
      assert d.names[origin] == i;
      var w := LastWriter(d, target, order, i);
      if w.Some? {
        assert Expected(d, snap, target, origin) == d.At(Name(snap, w.value));
      } else {
        assert n.root == target && Name(snap, n.rel) in d.names ==> !Overwrites(d, target, n.rel, i);
      }
    }
  }

  lemma OverlayNeedsCompatible(d: Disk, s: Disk, snap: string, target: string, order: seq<string>)
    requires d.Valid() && s.Valid() && Walk(d, snap, order)
    requires NamesFrame(d, s, snap, target, order) && HeapFrame(d, s, snap, target, order)
    requires Overlay(d, s, snap, target)
    ensures Compatible(d, snap, target, order)
  {
    forall r, n | r in order && n in d.names && Overwrites(d, target, r, d.names[n])
      ensures Expected(d, snap, target, n) == d.At(Name(snap, r))
    {
      assert s.At(Name(target, r)) == Expected(d, snap, target, Name(target, r));
      assert s.At(n) == Expected(d, snap, target, n);
    }
    forall r | r in order && LastWriter(d, target, order, d.names[Name(snap, r)]) == Some(r)
      ensures d.At(Name(snap, r)) == []
    {
      assert s.At(Name(target, r)) == Expected(d, snap, target, Name(target, r));
    }
  }

  /** No name outside the target's own file shares the inode of a file to be overwritten. */
  ghost predicate Unshared(d: Disk, snap: string, target: string) {
    forall r, n | Name(target, r) in d.names && Name(snap, r) in d.names && n in d.names && n != Name(target, r) ::
      d.names[n] != d.names[Name(target, r)]
  }

  /** Whether Restore can put this file in place: it can be opened, or need not be because it is linked. */
  predicate Restorable(d: Disk, target: string, rel: string, env: Env) {
    rel !in env.unopenable || (rel in env.linkable && Name(target, rel) !in d.names)
  }

  /** A restore completes exactly when every file can be put in place. */
  lemma {:induction false} RestoreCompletes(d: Disk, snap: string, target: string, order: seq<string>, env: Env)
    requires d.Valid() && snap != target && Distinct(order)
    requires forall r | r in order :: Name(snap, r) in d.names
    ensures Restored(d, snap, target, order, env).ok <==> forall r | r in order :: Restorable(d, target, r, env)
    decreases |order|
  {
    if order != [] {
      DistinctSnoc(order);
      var init, rel := order[..|order| - 1], order[|order| - 1];
      RestoreCompletes(d, snap, target, init, env);
      assert forall r :: r in order <==> r in init || r == rel;
      if Restored(d, snap, target, init, env).ok {
        RestoreFrame(d, snap, target, init, env);
        assert Name(target, rel) in Restored(d, snap, target, init, env).disk.names <==> Name(target, rel) in d.names;
      }
    }
  }

  /** Otherwise it has done, and only done, what precedes the first file that cannot be put in place. */
  lemma RestoreStopsAt(d: Disk, snap: string, target: string, order: seq<string>, env: Env, k: nat)
    requires d.Valid() && snap != target && Distinct(order) && k < |order|
    requires forall r | r in order :: Name(snap, r) in d.names
    requires !Restorable(d, target, order[k], env) && forall r | r in order[..k] :: Restorable(d, target, r, env)
    ensures Restored(d, snap, target, order[..k], env).ok
    ensures Restored(d, snap, target, order, env) == Outcome(Restored(d, snap, target, order[..k], env).disk, false)
  {
    var init := order[..k];
    RestoreCompletes(d, snap, target, init, env);
    RestoreCompletes(d, snap, target, order[..k + 1], env);
    assert order[..k + 1][..k] == init && order[..k + 1][k] == order[k];
    assert order[k] in order[..k + 1];
    RestoreFailed(d, snap, target, order, env, k);
  }

  /** In particular restoring over files no other name shares is an exact overlay. */
  lemma RestoreOverUnshared(d: Disk, snap: string, target: string, order: seq<string>, env: Env)
    requires d.Valid() && snap != target && OwnInodes(d, snap) && Walk(d, snap, order)
    requires Unshared(d, snap, target)
    requires Restored(d, snap, target, order, env).ok
    ensures Overlay(d, Restored(d, snap, target, order, env).disk, snap, target)
  {
    forall r, n | r in order && n in d.names && Overwrites(d, target, r, d.names[n])
      ensures n == Name(target, r)
    {
    }
    RestoreExact(d, snap, target, order, env);
  }

  /** Into an empty target with links available everywhere, every file is linked. */
  lemma {:induction false} RestoreLinksAll(d: Disk, snap: string, target: string, order: seq<string>, env: Env)
    requires d.Valid() && snap != target
    requires forall r | r in order :: Name(snap, r) in d.names && Name(target, r) !in d.names && r in env.linkable
    requires Distinct(order)
    ensures var o := Restored(d, snap, target, order, env);
            && o.ok && o.disk.heap == d.heap && o.disk.next == d.next
            && (forall n :: n in o.disk.names <==> n in d.names || (n.root == target && n.rel in order))
            && (forall n | n in d.names :: o.disk.names[n] == d.names[n])
            && (forall r | r in order :: o.disk.names[Name(target, r)] == d.names[Name(snap, r)])
  {
    if order != [] {
      var m := |order| - 1;
      assert order == order[..m] + [order[m]];
      RestoreLinksAll(d, snap, target, order[..m], env);
      assert order[m] !in order[..m];
    }
  }

  /** Restoring the same snapshot a second time onto the files linked the first
      time is an overlay exactly when every file of the snapshot is empty: source
      and destination are one inode, and truncating the one empties the other. */
  lemma RestoreTwice(d: Disk, snap: string, target: string, order: seq<string>, env: Env)
    requires d.Valid() && snap != target && OwnInodes(d, snap) && Walk(d, snap, order)
    requires forall r | r in order :: Name(target, r) !in d.names && r in env.linkable && r !in env.unopenable
    ensures var once := Restored(d, snap, target, order, env).disk;
            && (forall r | r in order :: Name(snap, r) in once.names)
            && var twice := Restored(once, snap, target, order, env);
               && twice.ok
               && (Overlay(once, twice.disk, snap, target) <==> forall r | r in order :: d.At(Name(snap, r)) == [])
  {
    RestoreLinksAll(d, snap, target, order, env);
    var once := Restored(d, snap, target, order, env).disk;
    NeverFails(once, snap, target, order, env);
    RestoreExact(once, snap, target, order, env);
    SelfWriters(d, once, snap, target, order);
    if forall r | r in order :: d.At(Name(snap, r)) == [] {
      EmptyIsCompatible(d, once, snap, target, order);
    }
  }

  /** On the linked disk every file is the only one to overwrite its inode, which is its own source. */
  lemma SelfWriters(d: Disk, once: Disk, snap: string, target: string, order: seq<string>)
    requires d.Valid() && once.Valid() && OwnInodes(d, snap) && Walk(d, snap, order)
    requires once.heap == d.heap
    requires forall r | r in order ::
               && Name(snap, r) in once.names && Name(target, r) in once.names
               && once.names[Name(target, r)] == once.names[Name(snap, r)] == d.names[Name(snap, r)]
    ensures forall r | r in order ::
              && once.At(Name(snap, r)) == d.At(Name(snap, r))
              && LastWriter(once, target, order, once.names[Name(snap, r)]) == Some(r)
  {
    forall r | r in order
      ensures LastWriter(once, target, order, once.names[Name(snap, r)]) == Some(r)
    {
      var w := LastWriter(once, target, order, once.names[Name(snap, r)]);
      assert Overwrites(once, target, r, once.names[Name(snap, r)]);
    }
  }

  lemma EmptyIsCompatible(d: Disk, once: Disk, snap: string, target: string, order: seq<string>)
    requires d.Valid() && once.Valid() && Walk(d, snap, order) && Walk(once, snap, order)
    requires once.heap == d.heap
    requires forall r | r in order ::
               && Name(target, r) in once.names
               && once.names[Name(target, r)] == once.names[Name(snap, r)] == d.names[Name(snap, r)]
               && d.At(Name(snap, r)) == []
    ensures Compatible(once, snap, target, order)
  {
    forall r, n | r in order && n in once.names && Overwrites(once, target, r, once.names[n])
      ensures Expected(once, snap, target, n) == once.At(Name(snap, r))
    {
      assert once.At(n) == once.At(Name(target, r)) == [];
    }
  }

  lemma {:induction false} NeverFails(d: Disk, snap: string, target: string, order: seq<string>, env: Env)
    requires d.Valid() && forall r | r in order :: Name(snap, r) in d.names
    requires forall r | r in order :: r !in env.unopenable
    ensures Restored(d, snap, target, order, env).ok
  {
    if order != [] {
      NeverFails(d, snap, target, order[..|order| - 1], env);
    }
  }

  /** The files of done have been copied out of source into new inodes below snap,
      and nothing else has changed. */
  ghost predicate Copied(d: Disk, s: Disk, source: string, snap: string, done: seq<string>)
    requires d.Valid() && s.Valid() && forall r | r in done :: Name(source, r) in d.names
  {
    && d.next <= s.next
    && (forall n :: n in s.names <==> n in d.names || (n.root == snap && n.rel in done))
    && (forall n | n in d.names :: s.names[n] == d.names[n] && s.At(n) == d.At(n))
    && (forall r | r in done :: d.next <= s.names[Name(snap, r)] && s.At(Name(snap, r)) == d.At(Name(source, r)))
  }

  /** No other name shares an inode with a file below the root. */
  ghost predicate Exclusive(d: Disk, root: string) {
    forall n, m | n in d.names && m in d.names && n.root == root && m != n :: d.names[n] != d.names[m]
  }

  lemma CopiedStep(d: Disk, s: Disk, source: string, snap: string, init: seq<string>, rel: string)
    requires d.Valid() && s.Valid() && source != snap && rel !in init
    requires Name(source, rel) in d.names && forall r | r in init :: Name(source, r) in d.names
    requires forall r :: Name(snap, r) !in d.names
    requires Copied(d, s, source, snap, init)
    ensures Name(source, rel) in s.names
    ensures Copied(d, s.CopyFile(Name(source, rel), Name(snap, rel)), source, snap, init + [rel])
  {
    var src, dst := Name(source, rel), Name(snap, rel);
    assert dst !in s.names;
    var s' := s.CopyFile(src, dst);
    assert forall n | n in s.names :: s'.names[n] == s.names[n] && s'.heap[s.names[n]] == s.heap[s.names[n]];
    assert s'.At(dst) == s.At(src);
  }

  lemma ExclusiveStep(s: Disk, snap: string, src: Name, dst: Name)
    requires s.Valid() && src in s.names && dst !in s.names
    requires Exclusive(s, snap)
    ensures Exclusive(s.CopyFile(src, dst), snap)
  {
    assert forall n | n in s.names :: s.names[n] < s.next;
  }

  /** Create into a fresh directory: the same relative paths and bytes, each file on
      an inode nothing else names, and no other name of the disk touched. */
  lemma {:induction false} CreateCopies(d: Disk, source: string, snap: string, order: seq<string>, env: Env)
    requires d.Valid() && source != snap && Distinct(order)
    requires forall r | r in order :: Name(source, r) in d.names
    requires forall r :: Name(snap, r) !in d.names
    requires Created(d, source, snap, order, env).ok
    ensures Copied(d, Created(d, source, snap, order, env).disk, source, snap, order)
    ensures Exclusive(Created(d, source, snap, order, env).disk, snap)
    decreases |order|
  {
    if order != [] {
      DistinctSnoc(order);
      var init, rel := order[..|order| - 1], order[|order| - 1];
      CreateCopies(d, source, snap, init, env);
      var s := Created(d, source, snap, init, env).disk;
      CopiedStep(d, s, source, snap, init, rel);
      ExclusiveStep(s, snap, Name(source, rel), Name(snap, rel));
    }
  }

  /** A create completes exactly when every file of the source can be opened. */
  lemma {:induction false} CreateCompletes(d: Disk, source: string, snap: string, order: seq<string>, env: Env)
    requires d.Valid() && forall r | r in order :: Name(source, r) in d.names
    ensures Created(d, source, snap, order, env).ok <==> forall r | r in order :: r !in env.unopenable
    decreases |order|
  {
    if order != [] {
      var init, rel := order[..|order| - 1], order[|order| - 1];
      CreateCompletes(d, source, snap, init, env);
      assert order == init + [rel];
    }
  }

  /** Otherwise it has copied, and only copied, what precedes the first file that cannot be opened. */
  lemma CreateStopsAt(d: Disk, source: string, snap: string, order: seq<string>, env: Env, k: nat)
    requires d.Valid() && k < |order| && forall r | r in order :: Name(source, r) in d.names
    requires order[k] in env.unopenable && forall r | r in order[..k] :: r !in env.unopenable
    ensures Created(d, source, snap, order[..k], env).ok
    ensures Created(d, source, snap, order, env) == Outcome(Created(d, source, snap, order[..k], env).disk, false)
  {
    CreateCompletes(d, source, snap, order[..k], env);
    CreateCompletes(d, source, snap, order[..k + 1], env);
    assert order[..k + 1][..k] == order[..k] && order[..k + 1][k] == order[k];
    assert order[k] in order[..k + 1];
    CreateFailed(d, source, snap, order, env, k);
  }

  /** The bytes of all files, one after the other. */
  function AllBytes(d: Disk, root: string, order: seq<string>): Bytes
    requires d.Valid() && forall r | r in order :: Name(root, r) in d.names
  {
    if order == [] then [] else AllBytes(d, root, order[..|order| - 1]) + d.At(Name(root, order[|order| - 1]))
  }

  /** The size reported is the number of bytes the new snapshot holds. */
  lemma {:induction false} SizeIsSnapshotBytes(d: Disk, source: string, snap: string, order: seq<string>, env: Env)
    requires d.Valid() && source != snap && Distinct(order)
    requires forall r | r in order :: Name(source, r) in d.names
    requires forall r :: Name(snap, r) !in d.names
    requires Created(d, source, snap, order, env).ok
    ensures var s := Created(d, source, snap, order, env).disk;
            && (forall r | r in order :: Name(snap, r) in s.names)
            && TotalSize(d, source, order) == |AllBytes(s, snap, order)|
            && AllBytes(s, snap, order) == AllBytes(d, source, order)
  {
    CreateCopies(d, source, snap, order, env);
    var s := Created(d, source, snap, order, env).disk;
    SameBytes(d, s, source, snap, order);
  }

  lemma {:induction false} SameBytes(d: Disk, s: Disk, source: string, snap: string, order: seq<string>)
    requires d.Valid() && s.Valid()
    requires forall r | r in order :: Name(source, r) in d.names && Name(snap, r) in s.names && s.At(Name(snap, r)) == d.At(Name(source, r))
    ensures AllBytes(s, snap, order) == AllBytes(d, source, order)
    ensures |AllBytes(d, source, order)| == TotalSize(d, source, order)
    decreases |order|
  {
    if order != [] {
      SameBytes(d, s, source, snap, order[..|order| - 1]);
    }
  }

  /** Restoring a fresh snapshot into an empty target reproduces the source tree. */
  lemma RestoreAfterCreate(d: Disk, source: string, snap: string, target: string, order: seq<string>, order': seq<string>, env: Env, env': Env)
    requires d.Valid() && source != snap && target != snap && target != source
    requires Walk(d, source, order)
    requires forall r :: Name(snap, r) !in d.names && Name(target, r) !in d.names
    requires Created(d, source, snap, order, env).ok
    requires Walk(Created(d, source, snap, order, env).disk, snap, order')
    requires Restored(Created(d, source, snap, order, env).disk, snap, target, order', env').ok
    ensures var s := Restored(Created(d, source, snap, order, env).disk, snap, target, order', env').disk;
            forall r :: && (Name(target, r) in s.names <==> Name(source, r) in d.names)
                        && (Name(source, r) in d.names ==> s.At(Name(target, r)) == d.At(Name(source, r)))
  {
    CreateCopies(d, source, snap, order, env);
    var c := Created(d, source, snap, order, env).disk;
    RestoreOverUnshared(c, snap, target, order', env');
    var s := Restored(c, snap, target, order', env').disk;
    forall r | Name(source, r) in d.names
      ensures Name(target, r) in s.names && s.At(Name(target, r)) == d.At(Name(source, r))
    {
      assert r in order && Name(snap, r) in c.names;
      assert s.At(Name(target, r)) == Expected(c, snap, target, Name(target, r));
    }
  }

  /** What else may happen to files: in-place writes, new files, removal, renaming, hard links. */
  datatype Edit =
    | Write(name: Name, bytes: Bytes)
    | Remove(name: Name)
    | Rename(name: Name, to: Name)
    | HardLink(name: Name, to: Name)

  predicate Outside(e: Edit, root: string) {
    e.name.root != root && (e.Rename? || e.HardLink? ==> e.to.root != root)
  }

  function Apply(d: Disk, e: Edit): (d': Disk)
    requires d.Valid()
    ensures d'.Valid()
  {
    match e
    case Write(n, b) =>
      if n in d.names then d.(heap := d.heap[d.names[n] := b])
      else Disk(d.names[n := d.next], d.heap[d.next := b], d.next + 1)
    case Remove(n) => d.(names := d.names - {n})
    case Rename(n, to) => if n in d.names && to != n then d.(names := (d.names - {n})[to := d.names[n]]) else d
    case HardLink(n, to) => if n in d.names && to !in d.names then d.Link(n, to) else d
  }

  function ApplyAll(d: Disk, es: seq<Edit>): (d': Disk)
    requires d.Valid()
    ensures d'.Valid()
    decreases |es|
  {
    if es == [] then d else ApplyAll(Apply(d, es[0]), es[1..])
  }

  /** No name outside the root reaches an inode of the root. */
  ghost predicate Isolated(d: Disk, root: string) {
    forall n, m | n in d.names && m in d.names && n.root == root && m.root != root :: d.names[n] != d.names[m]
  }

  /** Edits outside an isolated root leave its files, inodes and bytes as they were. */
  lemma {:induction false} EditsOutside(d: Disk, root: string, es: seq<Edit>)
    requires d.Valid() && Isolated(d, root)
    requires forall e | e in es :: Outside(e, root)
    ensures var d' := ApplyAll(d, es);
            && Isolated(d', root)
            && (forall n: Name | n.root == root :: n in d'.names <==> n in d.names)
            && (forall n: Name | n.root == root && n in d.names :: d'.names[n] == d.names[n] && d'.At(n) == d.At(n))
    decreases |es|
  {
    if es != [] {
      var d1 := Apply(d, es[0]);
      assert Outside(es[0], root);
      assert forall n | n in d.names :: d.names[n] < d.next;
      EditsOutside(d1, root, es[1..]);
    }
  }

  /** A snapshot is independent of the live tree: nothing done to names outside it
      after Create changes a byte of it. */
  lemma SnapshotIndependent(d: Disk, source: string, snap: string, order: seq<string>, env: Env, es: seq<Edit>)
    requires d.Valid() && source != snap && Walk(d, source, order)
    requires forall r :: Name(snap, r) !in d.names
    requires Created(d, source, snap, order, env).ok
    requires forall e | e in es :: Outside(e, snap)
    ensures var later := ApplyAll(Created(d, source, snap, order, env).disk, es);
            && (forall r :: Name(snap, r) in later.names <==> Name(source, r) in d.names)
            && (forall r | Name(source, r) in d.names :: later.At(Name(snap, r)) == d.At(Name(source, r)))
  {
    CreateCopies(d, source, snap, order, env);
    var s := Created(d, source, snap, order, env).disk;
    EditsOutside(s, snap, es);
    forall r | Name(source, r) in d.names
      ensures ApplyAll(s, es).At(Name(snap, r)) == d.At(Name(source, r))
    {
      assert r in order;
      assert Name(snap, r) in s.names;
    }
  }

  /** After a restore target's rel and snap's file are one inode: either they were before,
      or rel was not there and could be linked to that very file. */
  predicate Linked(d: Disk, snap: string, target: string, env: Env, rel: string, file: string)
    requires Name(snap, rel) in d.names && Name(snap, file) in d.names
  {
    if Name(target, rel) in d.names then d.names[Name(target, rel)] == d.names[Name(snap, file)]
    else rel in env.linkable && d.names[Name(snap, rel)] == d.names[Name(snap, file)]
  }

  /** That independence ends where Restore made or found a link: into any target, a write through a
      restored file changes a file of the snapshot exactly when the two are linked and the bytes differ. */
  lemma WriteAfterRestore(d: Disk, snap: string, target: string, order: seq<string>, env: Env, rel: string, file: string, bytes: Bytes)
    requires d.Valid() && snap != target && Walk(d, snap, order) && rel in order && file in order
    requires Restored(d, snap, target, order, env).ok
    ensures var s := Restored(d, snap, target, order, env).disk;
            var w := Apply(s, Write(Name(target, rel), bytes));
            && Name(snap, file) in s.names && Name(snap, file) in w.names
            && (w.At(Name(snap, file)) == s.At(Name(snap, file)) <==>
                !Linked(d, snap, target, env, rel, file) || bytes == s.At(Name(snap, file)))
  {
    RestoreFrame(d, snap, target, order, env);
    RestoredInode(d, snap, target, order, env, rel);
  }

  /** In particular, after a restore into an empty target a write through a linked file changes
      the bytes the snapshot was made with, unless it writes the same. */
  lemma WriteThroughLink(d: Disk, snap: string, target: string, order: seq<string>, env: Env, rel: string, bytes: Bytes)
    requires d.Valid() && snap != target && OwnInodes(d, snap) && Walk(d, snap, order) && rel in order
    requires forall r :: Name(target, r) !in d.names
    requires Restored(d, snap, target, order, env).ok
    ensures var w := Apply(Restored(d, snap, target, order, env).disk, Write(Name(target, rel), bytes));
            && Name(snap, rel) in w.names
            && (w.At(Name(snap, rel)) == d.At(Name(snap, rel)) <==> rel !in env.linkable || bytes == d.At(Name(snap, rel)))
  {
    RestoreOverUnshared(d, snap, target, order, env);
    WriteAfterRestore(d, snap, target, order, env, rel, rel, bytes);
    assert Restored(d, snap, target, order, env).disk.At(Name(snap, rel)) == Expected(d, snap, target, Name(snap, rel));
  }

  /** The inode a restored file ends up on: its old one, its source's, or a new one. */
  lemma {:induction false} RestoredInode(d: Disk, snap: string, target: string, order: seq<string>, env: Env, rel: string)
    requires d.Valid() && snap != target && Distinct(order)
    requires forall r | r in order :: Name(snap, r) in d.names
    requires Restored(d, snap, target, order, env).ok && rel in order
    ensures var s := Restored(d, snap, target, order, env).disk;
            && Name(target, rel) in s.names
            && (Name(target, rel) in d.names ==> s.names[Name(target, rel)] == d.names[Name(target, rel)])
            && (Name(target, rel) !in d.names && rel in env.linkable ==> s.names[Name(target, rel)] == d.names[Name(snap, rel)])
            && (Name(target, rel) !in d.names && rel !in env.linkable ==> s.names[Name(target, rel)] >= d.next)
    decreases |order|
  {
    DistinctSnoc(order);
    var init, last := order[..|order| - 1], order[|order| - 1];
    LastStep(d, snap, target, init, last, env);
    RestoreFrame(d, snap, target, init, env);
    if rel != last {
      RestoredInode(d, snap, target, init, env, rel);
    } else {
      StepInode(Restored(d, snap, target, init, env).disk, snap, target, rel, env);
    }
  }

  lemma StepInode(s: Disk, snap: string, target: string, rel: string, env: Env)
    requires s.Valid() && Name(snap, rel) in s.names
    requires RestoreStep(s, snap, target, rel, env).ok
    ensures var s' := RestoreStep(s, snap, target, rel, env).disk;
            && Name(target, rel) in s'.names
            && s'.names[Name(target, rel)] ==
                 if Name(target, rel) in s.names then s.names[Name(target, rel)]
                 else if rel in env.linkable then s.names[Name(snap, rel)]
                 else s.next
  {
  }

  /** The backend itself, updating the disk file by file. */
  class FileSystem {
    var names: map<Name, Inode>
    var heap: map<Inode, Bytes>
    var next: Inode

    ghost function Model(): Disk
      reads this
    {
      Disk(names, heap, next)
    }

    method CopyFile(src: Name, dst: Name)
      requires Model().Valid() && src in names
      modifies this
      ensures Model() == old(Model()).CopyFile(src, dst)
    {
      if dst in names {
        heap := heap[names[dst] := []];
        heap := heap[names[dst] := heap[names[src]]];
      } else {
        names, heap, next := names[dst := next], heap[next := heap[names[src]]], next + 1;
      }
    }

    method Create(source: string, snap: string, order: seq<string>, env: Env) returns (ok: bool, size: nat)
      requires Model().Valid() && source != snap && Walk(Model(), source, order)
      requires forall r :: Name(snap, r) !in names
      modifies this
      ensures Outcome(Model(), ok) == Created(old(Model()), source, snap, order, env)
      ensures ok ==> size == TotalSize(old(Model()), source, order)
    {
      size, ok := 0, true;
      ghost var d := Model();
      for k := 0 to |order|
        invariant Model().Valid()
        invariant ok && Outcome(Model(), true) == Created(d, source, snap, order[..k], env)
        invariant size == TotalSize(d, source, order[..k])
      {
        var rel := order[k];
        CreateNext(d, source, snap, order, env, k);
        if rel in env.unopenable {
          CreateFailed(d, source, snap, order, env, k);
          return false, size;
        }
        size := size + |heap[names[Name(source, rel)]]|;
        CopyFile(Name(source, rel), Name(snap, rel));
      }
      assert order[..|order|] == order;
    }

    method Restore(snap: string, target: string, order: seq<string>, env: Env) returns (ok: bool)
      requires Model().Valid() && snap != target && Walk(Model(), snap, order)
      modifies this
      ensures Outcome(Model(), ok) == Restored(old(Model()), snap, target, order, env)
    {
      ghost var d := Model();
      for k := 0 to |order|
        invariant Model().Valid()
        invariant Outcome(Model(), true) == Restored(d, snap, target, order[..k], env)
        invariant d.names.Keys <= names.Keys
      {
        var rel := order[k];
        var src, dst := Name(snap, rel), Name(target, rel);
        assert order[..k + 1][..k] == order[..k] && order[..k + 1][k] == rel;
        if rel in env.linkable && dst !in names {
          names := names[dst := names[src]];
        } else {
          if rel in env.unopenable {
            RestoreFailed(d, snap, target, order, env, k);
            return false;
          }
          CopyFile(src, dst);
        }
      }
      assert order[..|order|] == order;
      ok := true;
    }
  }

  lemma {:induction false} RestoreFailed(d: Disk, snap: string, target: string, order: seq<string>, env: Env, k: nat)
    requires d.Valid() && (forall r | r in order :: Name(snap, r) in d.names) && k < |order|
    requires !Restored(d, snap, target, order[..k + 1], env).ok
    ensures Restored(d, snap, target, order, env) == Restored(d, snap, target, order[..k + 1], env)
    decreases |order|
  {
    if k + 1 == |order| {
      assert order[..k + 1] == order;
    } else {
      assert order[..|order| - 1][..k + 1] == order[..k + 1];
      RestoreFailed(d, snap, target, order[..|order| - 1], env, k);
    }
  }

  lemma CreateNext(d: Disk, source: string, snap: string, order: seq<string>, env: Env, k: nat)
    requires d.Valid() && source != snap && Distinct(order) && k < |order|
    requires forall r | r in order :: Name(source, r) in d.names
    requires forall r :: Name(snap, r) !in d.names
    requires Created(d, source, snap, order[..k], env).ok
    ensures var s := Created(d, source, snap, order[..k], env).disk;
            && Name(source, order[k]) in s.names
            && s.At(Name(source, order[k])) == d.At(Name(source, order[k]))
            && Created(d, source, snap, order[..k + 1], env) == CreateStep(s, source, snap, order[k], env)
    ensures TotalSize(d, source, order[..k + 1]) == TotalSize(d, source, order[..k]) + |d.At(Name(source, order[k]))|
  {
    assert order[..k + 1][..k] == order[..k] && order[..k + 1][k] == order[k];
    CreateCopies(d, source, snap, order[..k], env);
  }

  lemma {:induction false} CreateFailed(d: Disk, source: string, snap: string, order: seq<string>, env: Env, k: nat)
    requires d.Valid() && (forall r | r in order :: Name(source, r) in d.names) && k < |order|
    requires !Created(d, source, snap, order[..k + 1], env).ok
    ensures Created(d, source, snap, order, env) == Created(d, source, snap, order[..k + 1], env)
    decreases |order|
  {
    if k + 1 == |order| {
      assert order[..k + 1] == order;
    } else {
      assert order[..|order| - 1][..k + 1] == order[..k + 1];
      CreateFailed(d, source, snap, order[..|order| - 1], env, k);
    }
  }
}
