/** Permanent deletion: a stack walk that plans a post-order, then one non-recursive
    remove per planned item. */
module DeleteOperation {
  import opened FileTree
  import opened StackWalk

  datatype PlanError = NotFound(path: Path) | ReadOnly(path: Path)
  datatype PlanResult = Planned(items: seq<Path>) | Rejected(error: PlanError)

  /** A stack entry: a path and whether its children have already been pushed. */
  datatype Frame = Frame(path: Path, visited: bool)

  function ChildFrame(p: Path): Name -> Frame {
    n => Frame(p + [n], false)
  }

  /** Every stacked path is an entry at or below `root`; only directories are revisited. */
  ghost predicate Framed(fs: Fs, root: Path, stack: seq<Frame>) {
    forall i :: 0 <= i < |stack| ==>
      stack[i].path in fs && root <= stack[i].path && (stack[i].visited ==> fs[stack[i].path].Directory?)
  }

  /** What remains to be planned once the entries of `stack` are popped. */
  ghost function Pending(fs: Fs, listing: Listing, root: Path, stack: seq<Frame>): seq<Path>
    requires Lists(fs, listing) && Framed(fs, root, stack)
  {
    if stack == [] then []
    else
      var top := stack[|stack| - 1];
      (if top.visited then [top.path] else Walk(fs, listing, true, top.path))
        + Pending(fs, listing, root, stack[..|stack| - 1])
  }

  /** The loop variant: an unexpanded tree is popped twice per entry at most. */
  ghost function Weight(fs: Fs, listing: Listing, root: Path, stack: seq<Frame>): nat
    requires Lists(fs, listing) && Framed(fs, root, stack)
  {
    if stack == [] then 0
    else
      var top := stack[|stack| - 1];
      (if top.visited then 1 else 2 * |Walk(fs, listing, true, top.path)|)
        + Weight(fs, listing, root, stack[..|stack| - 1])
  }

  lemma {:induction false} PendingPushed(fs: Fs, listing: Listing, root: Path, stack: seq<Frame>, p: Path, names: seq<Name>)
    requires Lists(fs, listing) && Framed(fs, root, stack) && p in fs && root <= p
    requires forall n :: n in names ==> p + [n] in fs
    ensures var pushed := PushAll(stack, names, ChildFrame(p));
            && Framed(fs, root, pushed)
            && Pending(fs, listing, root, pushed) == WalkChildren(fs, listing, true, p, names) + Pending(fs, listing, root, stack)
  {
    var make := ChildFrame(p);
    if names != [] {
      PendingPushed(fs, listing, root, stack, p, names[1..]);
      var rest := PushAll(stack, names[1..], make);
      var pushed := PushAll(stack, names, make);
      assert pushed[..|pushed| - 1] == rest;
    }
  }

  lemma {:induction false} WeightPushed(fs: Fs, listing: Listing, root: Path, stack: seq<Frame>, p: Path, names: seq<Name>)
    requires Lists(fs, listing) && Framed(fs, root, stack) && p in fs && root <= p
    requires forall n :: n in names ==> p + [n] in fs
    ensures var pushed := PushAll(stack, names, ChildFrame(p));
            && Framed(fs, root, pushed)
            && Weight(fs, listing, root, pushed) == 2 * |WalkChildren(fs, listing, true, p, names)| + Weight(fs, listing, root, stack)
  {
    var make := ChildFrame(p);
    if names != [] {
      WeightPushed(fs, listing, root, stack, p, names[1..]);
      var rest := PushAll(stack, names[1..], make);
      var pushed := PushAll(stack, names, make);
      assert pushed[..|pushed| - 1] == rest;
    }
  }

  /** Expanding a directory makes the stack lighter. */
  lemma {:induction false} ExpandLightens(fs: Fs, listing: Listing, root: Path, before: seq<Frame>, after: seq<Frame>, p: Path)
    requires Lists(fs, listing) && Framed(fs, root, before) && before != []
    requires before[|before| - 1] == Frame(p, false) && fs[p].Directory?
    requires after == before[..|before| - 1] + [Frame(p, true)]
    ensures var pushed := PushAll(after, VisitOrder(listing(p)), ChildFrame(p));
            Framed(fs, root, pushed) && Weight(fs, listing, root, pushed) < Weight(fs, listing, root, before)
  {
    assert after[..|after| - 1] == before[..|before| - 1];
    WeightPushed(fs, listing, root, after, p, VisitOrder(listing(p)));
  }

  /** Popping an unexpanded directory and pushing its children leaves the plan as it was. */
  lemma {:induction false} Expand(fs: Fs, listing: Listing, root: Path, before: seq<Frame>, after: seq<Frame>, p: Path)
    requires Lists(fs, listing) && Framed(fs, root, before) && before != []
    requires before[|before| - 1] == Frame(p, false) && fs[p].Directory?
    requires after == before[..|before| - 1] + [Frame(p, true)]
    ensures var pushed := PushAll(after, VisitOrder(listing(p)), ChildFrame(p));
            && Framed(fs, root, pushed)
            && Pending(fs, listing, root, pushed) == Pending(fs, listing, root, before)
  {
    var rest, names := before[..|before| - 1], VisitOrder(listing(p));
    assert after[..|after| - 1] == rest;
    PendingPushed(fs, listing, root, after, p, names);
    Associate(WalkChildren(fs, listing, true, p, names), [p], Pending(fs, listing, root, rest));
  }

  ghost function Forest(fs: Fs, listing: Listing, sources: seq<Path>): seq<Path>
    requires Lists(fs, listing) && forall s :: s in sources ==> s in fs
  {
    if sources == [] then []
    else Forest(fs, listing, sources[..|sources| - 1]) + Walk(fs, listing, true, sources[|sources| - 1])
  }

  /** Some entry to be deleted is protected. */
  ghost predicate HasReadOnly(fs: Fs, readOnly: set<Path>, sources: seq<Path>) {
    exists s, p :: s in sources && p in Tree(fs, s) && p in readOnly
  }

  /** `provider.remove` without recursion: links and files always, directories when empty. */
  predicate Removable(fs: Fs, p: Path) {
    p in fs && (fs[p].Directory? ==> !exists q :: q in fs && p < q)
  }

  class DeleteExecutor {
    const overrideReadOnly: bool
    var deleted: nat

    constructor (overrideReadOnly: bool)
      ensures this.overrideReadOnly == overrideReadOnly && deleted == 0
    {
      this.overrideReadOnly := overrideReadOnly;
      deleted := 0;
    }

    /** Plans every source in turn. Nothing is removed here, so a rejected plan leaves the
        file system as it was. */
    method Plan(fs: Fs, listing: Listing, readOnly: set<Path>, sources: seq<Path>) returns (r: PlanResult)
      requires WellFormed(fs) && Lists(fs, listing)
      ensures r.Planned? <==> (forall s :: s in sources ==> s in fs)
                              && (overrideReadOnly || !HasReadOnly(fs, readOnly, sources))
      ensures r.Planned? ==> r.items == Forest(fs, listing, sources)
      ensures r.Rejected? && r.error.ReadOnly? ==> !overrideReadOnly && r.error.path in readOnly
      ensures r.Rejected? && r.error.NotFound? ==> r.error.path in sources && r.error.path !in fs
    {
      var items: seq<Path> := [];
      for k := 0 to |sources|
        invariant forall s :: s in sources[..k] ==> s in fs
        invariant items == Forest(fs, listing, sources[..k])
        invariant overrideReadOnly || forall p :: p in items ==> p !in readOnly
      {
        var source := sources[k];
        if source !in fs {
          return Rejected(NotFound(source));
        }
        assert sources[..k + 1] == sources[..k] + [source];
        var rejected;
        rejected, items := PlanOne(fs, listing, readOnly, source, items);
        if rejected.Some? {
          assert sources[k] in sources;
          return Rejected(ReadOnly(rejected.path));
        }
      }
      assert sources[..|sources|] == sources;
      ForestCovers(fs, listing, sources);
      return Planned(items);
    }

    method PlanOne(fs: Fs, listing: Listing, readOnly: set<Path>, source: Path, planned: seq<Path>)
        returns (rejected: MaybePath, items: seq<Path>)
      requires WellFormed(fs) && Lists(fs, listing) && source in fs
      requires overrideReadOnly || forall p :: p in planned ==> p !in readOnly
      ensures rejected.Some? ==> !overrideReadOnly && rejected.path in readOnly && rejected.path in Tree(fs, source)
      ensures rejected.None? ==> items == planned + Walk(fs, listing, true, source)
                                 && (overrideReadOnly || forall p :: p in items ==> p !in readOnly)
    {
      items := planned;
      ghost var root := source;
      var stack := [Frame(source, false)];
      assert stack[..0] == [];
      while stack != []
        invariant Framed(fs, root, stack)
        invariant items + Pending(fs, listing, root, stack) == planned + Walk(fs, listing, true, source)
        invariant overrideReadOnly || forall p :: p in items ==> p !in readOnly
        decreases Weight(fs, listing, root, stack)
      {
        var top := stack[|stack| - 1];
        if top.path in readOnly && !overrideReadOnly {
          return Some(top.path), items;
        }
        ghost var before := stack;
        stack := stack[..|stack| - 1];
        if fs[top.path].Directory? && !top.visited {
          stack := stack + [Frame(top.path, true)];
          Expand(fs, listing, root, before, stack, top.path);
          ExpandLightens(fs, listing, root, before, stack, top.path);
          stack := PushChildren(stack, listing(top.path), ChildFrame(top.path));
        } else {
          Associate(items, [top.path], Pending(fs, listing, root, stack));
          items := items + [top.path];
        }
      }
      rejected := None;
    }

    /** Removes one planned item. `fault` is a failure of the provider itself. */
    method Execute(fs: Fs, item: Path, fault: bool) returns (after: Fs, warning: bool)
      modifies this
      ensures after == RemoveStep(fs, item, fault)
      ensures warning <==> fault || !Removable(fs, item)
      ensures deleted == old(deleted) + (if warning then 0 else 1)
    {
      if fault || !Removable(fs, item) {
        return fs, true;
      }
      deleted := deleted + 1;
      return fs - {item}, false;
    }

    /** A whole deletion: the scheduler executes the items in plan order and goes on after
        a warning. */
    method Run(fs: Fs, listing: Listing, readOnly: set<Path>, sources: seq<Path>, faults: nat -> bool)
        returns (planned: bool, after: Fs, warnings: nat)
      requires WellFormed(fs) && Lists(fs, listing)
      modifies this
      ensures planned <==> (forall s :: s in sources ==> s in fs)
                           && (overrideReadOnly || !HasReadOnly(fs, readOnly, sources))
      ensures !planned ==> after == fs && deleted == old(deleted)
      ensures planned ==> var items := Forest(fs, listing, sources);
                          after == RemoveRun(fs, items, faults, |items|)
                          && deleted + warnings == old(deleted) + |items|
    {
      after, warnings := fs, 0;
      var plan := Plan(fs, listing, readOnly, sources);
      planned := plan.Planned?;
      if planned {
        for n := 0 to |plan.items|
          invariant after == RemoveRun(fs, plan.items, faults, n)
          invariant deleted + warnings == old(deleted) + n
        {
          var warning;
          after, warning := Execute(after, plan.items[n], faults(n));
          if warning {
            warnings := warnings + 1;
          }
        }
      }
    }
  }

  datatype MaybePath = None | Some(path: Path)

  function RemoveStep(fs: Fs, item: Path, fault: bool): Fs {
    if fault || !Removable(fs, item) then fs else fs - {item}
  }

  /** The state after the first `n` items, `faults(i)` telling whether item `i` hits a
      provider failure. The scheduler goes on after each warning. */
  function RemoveRun(fs: Fs, items: seq<Path>, faults: nat -> bool, n: nat): Fs
    requires n <= |items|
  {
    if n == 0 then fs else RemoveStep(RemoveRun(fs, items, faults, n - 1), items[n - 1], faults(n - 1))
  }

  lemma {:induction false} ForestCovers(fs: Fs, listing: Listing, sources: seq<Path>)
    requires WellFormed(fs) && Lists(fs, listing) && forall s :: s in sources ==> s in fs
    ensures forall q :: q in Forest(fs, listing, sources) <==> exists s :: s in sources && q in Tree(fs, s)
    ensures ChildrenFirst(fs, Forest(fs, listing, sources))
  {
    if sources != [] {
      var init, last := sources[..|sources| - 1], sources[|sources| - 1];
      assert sources == init + [last];
      ForestCovers(fs, listing, init);
      WalkCoversTree(fs, listing, true, last);
      PostOrderPutsChildrenFirst(fs, listing, last);
      ChildrenFirstConcat(fs, Forest(fs, listing, init), Walk(fs, listing, true, last));
    }
  }

  /** No source lies at or below another. */
  ghost predicate Disjoint(sources: seq<Path>) {
    forall i, j :: 0 <= i < |sources| && 0 <= j < |sources| && i != j ==> !(sources[i] <= sources[j])
  }

  /** Each entry is planned once exactly when no source lies at or below another. */
  lemma {:induction false} PlannedOnceIffDisjoint(fs: Fs, listing: Listing, sources: seq<Path>)
    requires WellFormed(fs) && Lists(fs, listing) && forall s :: s in sources ==> s in fs
    ensures NoDuplicates(Forest(fs, listing, sources)) <==> Disjoint(sources)
  {
    if sources != [] {
      var init, last := sources[..|sources| - 1], sources[|sources| - 1];
      PlannedOnceIffDisjoint(fs, listing, init);
      ForestCovers(fs, listing, init);
      WalkCoversTree(fs, listing, true, last);
      var older, walk := Forest(fs, listing, init), Walk(fs, listing, true, last);
      if Disjoint(sources) {
        forall q | q in older
          ensures q !in walk
        {
          var s :| s in init && q in Tree(fs, s);
          var i :| 0 <= i < |init| && init[i] == s;
          assert sources[i] == s && sources[|init|] == last;
          if last <= q {
            PrefixesCompare(s, last, q);
          }
        }
        NoDuplicatesConcat(older, walk);
      } else {
        var i, j :| 0 <= i < |sources| && 0 <= j < |sources| && i != j && sources[i] <= sources[j];
        var q := sources[j];
        assert q in Tree(fs, q) && q in Tree(fs, sources[i]);
        if i < |init| && j < |init| {
          assert !Disjoint(init) by {
            assert init[i] <= init[j];
          }
          var k, m :| 0 <= k < m < |older| && older[k] == older[m];
          assert (older + walk)[k] == (older + walk)[m];
        } else {
          var other := if i == |init| then j else i;
          assert sources[other] == init[other] && sources[other] in init;
          SharedElement(older, walk, q);
        }
      }
    }
  }

  lemma {:induction false} SharedElement<T(!new)>(a: seq<T>, b: seq<T>, x: T)
    requires x in a && x in b
    ensures !NoDuplicates(a + b)
  {
    var i :| 0 <= i < |a| && a[i] == x;
    var j :| 0 <= j < |b| && b[j] == x;
    assert (a + b)[i] == (a + b)[|a| + j];
  }

  /** Only planned items go, and an item that is still there was stopped by a failure. */
  lemma {:induction false} RemoveRunFrame(fs: Fs, items: seq<Path>, faults: nat -> bool, n: nat)
    requires n <= |items|
    ensures var after := RemoveRun(fs, items, faults, n);
            && (forall q :: q in after ==> q in fs && after[q] == fs[q])
            && (forall q :: q in fs && q !in after ==> q in items[..n])
  {
    if n > 0 {
      RemoveRunFrame(fs, items, faults, n - 1);
      assert items[..n] == items[..n - 1] + [items[n - 1]];
    }
  }

  /** A planned remove meets a non-empty directory only after an earlier remove of one of
      its descendants failed. */
  lemma {:induction false} NonEmptyOnlyAfterFailure(fs: Fs, items: seq<Path>, faults: nat -> bool, n: nat)
    requires n < |items| && ChildrenFirst(fs, items)
    requires items[n] in RemoveRun(fs, items, faults, n)
    requires !Removable(RemoveRun(fs, items, faults, n), items[n])
    ensures exists i :: 0 <= i < n && items[n] < items[i] && faults(i)
    decreases n
  {
    var now := RemoveRun(fs, items, faults, n);
    RemoveRunFrame(fs, items, faults, n);
    var q :| q in now && items[n] < q;
    assert q in items[..n];
    var i :| 0 <= i < n && items[i] == q;
    StillThere(fs, items, faults, i, n);
    if !faults(i) {
      NonEmptyOnlyAfterFailure(fs, items, faults, i);
      var j :| 0 <= j < i && items[i] < items[j] && faults(j);
      assert items[n] < items[j];
    }
  }

  /** An entry that survives to step `n` was there at each earlier step. */
  lemma {:induction false} StillThere(fs: Fs, items: seq<Path>, faults: nat -> bool, i: nat, n: nat)
    requires i < n <= |items| && items[i] in RemoveRun(fs, items, faults, n)
    ensures items[i] in RemoveRun(fs, items, faults, i)
    ensures faults(i) || !Removable(RemoveRun(fs, items, faults, i), items[i])
    decreases n
  {
    if i < n - 1 {
      StillThere(fs, items, faults, i, n - 1);
    }
  }

  /** Without provider failures a deletion removes exactly the trees of its sources,
      whether or not they overlap. */
  lemma {:induction false} DeletesExactlyTheSources(fs: Fs, listing: Listing, sources: seq<Path>)
    requires WellFormed(fs) && Lists(fs, listing) && forall s :: s in sources ==> s in fs
    ensures var items := Forest(fs, listing, sources);
            RemoveRun(fs, items, _ => false, |items|)
              == map q | q in fs && !exists s :: s in sources && s <= q :: fs[q]
  {
    var items := Forest(fs, listing, sources);
    var after := RemoveRun(fs, items, _ => false, |items|);
    ForestCovers(fs, listing, sources);
    RemoveRunFrame(fs, items, _ => false, |items|);
    assert items[..|items|] == items;
    forall q | q in items
      ensures q !in after
    {
      var i :| 0 <= i < |items| && items[i] == q;
      if q in after {
        StillThere(fs, items, _ => false, i, |items|);
        NonEmptyOnlyAfterFailure(fs, items, _ => false, i);
        assert false;
      }
    }
    forall q | q in fs
      ensures q in items <==> exists s :: s in sources && s <= q
    {
      if s :| s in sources && s <= q {
        assert q in Tree(fs, s);
      }
    }
  }

  /** Whatever fails, nothing is ever left without its directory. */
  lemma {:induction false} RemoveKeepsWellFormed(fs: Fs, items: seq<Path>, faults: nat -> bool, n: nat)
    requires WellFormed(fs) && n <= |items|
    ensures WellFormed(RemoveRun(fs, items, faults, n))
  {
    if n > 0 {
      RemoveKeepsWellFormed(fs, items, faults, n - 1);
      RemoveStepKeepsWellFormed(RemoveRun(fs, items, faults, n - 1), items[n - 1], faults(n - 1));
    }
  }

  lemma {:induction false} RemoveStepKeepsWellFormed(fs: Fs, item: Path, fault: bool)
    requires WellFormed(fs)
    ensures WellFormed(RemoveStep(fs, item, fault))
  {
    var after := RemoveStep(fs, item, fault);
    forall p | p in after && p != []
      ensures Parent(p) in after && after[Parent(p)].Directory?
    {
      assert Parent(p) in fs && Parent(p) < p;
    }
  }
}
