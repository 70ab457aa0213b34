/** What a whole copy run leaves behind, for each way of resolving conflicts. */
module CopyTheorems {
  import opened FileTree
  import opened FreshName
  import opened CopyOperation
  import opened CopyRun

  function NoFaults(): nat -> Fault {
    _ => NoFault
  }

  /** `fs` with the tree at `src` merged into `root`, the copied entries winning. */
  function WithCopy(fs: Fs, src: Path, root: Path): Fs {
    map x | x in fs.Keys + (set p | p in fs && src <= p :: Relocate(src, root, p)) ::
      if root <= x && src <= Relocate(root, src, x) && Relocate(root, src, x) in fs
      then fs[Relocate(root, src, x)] else if x in fs then fs[x] else Directory
  }

  /** `x` is the place of a source entry below `root`. */
  ghost predicate IsPlace(fs: Fs, src: Path, root: Path, x: Path) {
    root <= x && Relocate(root, src, x) in fs
  }

  /** Every source entry stands at its place below `root`, and no other place has changed. */
  ghost predicate Merged(fs: Fs, after: Fs, src: Path, root: Path) {
    && (forall p :: p in fs && src <= p ==> Relocate(src, root, p) in after && after[Relocate(src, root, p)] == fs[p])
    && (forall x :: !IsPlace(fs, src, root, x) ==> (x in after <==> x in fs) && (x in fs ==> after[x] == fs[x]))
  }

  /** Source entries stand at those places that were free, and nothing that was there has
      changed. */
  ghost predicate FilledIn(fs: Fs, after: Fs, src: Path, root: Path) {
    && Untouched(fs, after)
    && (forall p :: p in fs && src <= p ==>
          && Relocate(src, root, p) in after
          && (Relocate(src, root, p) !in fs ==> after[Relocate(src, root, p)] == fs[p]))
    && (forall x :: x in after && x !in fs ==> IsPlace(fs, src, root, x))
  }

  lemma {:induction false} WithCopyMerges(fs: Fs, src: Path, root: Path)
    ensures Merged(fs, WithCopy(fs, src, root), src, root)
  {
    var w := WithCopy(fs, src, root);
    forall p | p in fs && src <= p
      ensures Relocate(src, root, p) in w && w[Relocate(src, root, p)] == fs[p]
      ensures IsPlace(fs, src, root, Relocate(src, root, p))
    {
      RelocateBack(src, root, p);
    }
  }

  lemma {:induction false} WithCopyFills(fs: Fs, src: Path, root: Path)
    ensures FilledIn(fs, WithCopy(fs, src, root) + fs, src, root)
  {
    WithCopyMerges(fs, src, root);
  }

  lemma {:induction false} OverlayAll(fs: Fs, listing: Listing, src: Path, dst: Path)
    requires Copying(fs, listing, src, dst)
    ensures var items := Items(fs, listing, src);
            Overlay(fs, src, dst, items, |items|) == WithCopy(fs, src, dst)
  {
    var items := Items(fs, listing, src);
    var o, w := Overlay(fs, src, dst, items, |items|), WithCopy(fs, src, dst);
    assert items[..|items|] == items;
    forall x
      ensures x in o <==> x in w
      ensures x in o ==> o[x] == w[x]
    {
      OverlayPoint(fs, src, dst, items, |items|, x);
      if dst <= x {
        RelocateBack(dst, src, x);
      }
      forall p | p in fs && src <= p && x == Relocate(src, dst, p)
        ensures Hit(src, dst, items, |items|, x)
      {
        RelocateBack(src, dst, p);
      }
    }
  }

  /** Copied onto a free root, the result holds an exact image of the source tree at the
      root, nothing else below it, and every earlier entry unchanged. */
  lemma {:induction false} FreeCopyIsExact(fs: Fs, listing: Listing, src: Path, dst: Path)
    requires Copying(fs, listing, src, dst) && dst !in fs
    ensures var w := WithCopy(fs, src, dst);
            && (forall q :: q in fs ==> q in w && w[q] == fs[q])
            && (forall p :: p in fs && src <= p ==> Relocate(src, dst, p) in w && w[Relocate(src, dst, p)] == fs[p])
            && (forall x :: x in w && dst <= x ==> src <= Relocate(dst, src, x) && Relocate(dst, src, x) in fs)
            && (forall x :: x in w && !(dst <= x) ==> x in fs)
            && WellFormed(w)
  {
    var w := WithCopy(fs, src, dst);
    FreeRootIsApart(fs, src, dst);
    forall p | p in fs && src <= p
      ensures Relocate(src, dst, p) in w && w[Relocate(src, dst, p)] == fs[p]
    {
      RelocateBack(src, dst, p);
    }
    forall x | x in w && x !in fs
      ensures dst <= x && src <= Relocate(dst, src, x) && Relocate(dst, src, x) in fs
    {
      var p :| p in fs && src <= p && x == Relocate(src, dst, p);
      RelocateBack(src, dst, p);
    }
    forall x | x in w && x != []
      ensures Parent(x) in w && w[Parent(x)].Directory?
    {
      if x !in fs {
        var p := Relocate(dst, src, x);
        RelocateBack(dst, src, x);
        if p == src {
          assert x == dst;
        } else {
          RelocateParent(src, dst, p);
          assert Parent(p) in fs && fs[Parent(p)].Directory?;
        }
      } else {
        assert Parent(x) in fs;
      }
    }
  }

  /** Item `p` can be placed under resolution `r`. */
  ghost predicate Placeable(fs: Fs, src: Path, dst: Path, p: Path, r: Resolution)
    requires p in fs && src <= p
  {
    var d := Relocate(src, dst, p);
    d in fs ==> r == Overwrite && KindOf(fs[d]) == KindOf(fs[p])
  }

  lemma {:induction false} RunPlaces(fs: Fs, listing: Listing, src: Path, dst: Path, resolution: nat -> Resolution,
                                     c: bool, n: nat)
    requires Copying(fs, listing, src, dst) && Apart(fs, src, dst) && n <= |Items(fs, listing, src)|
    requires forall i :: 0 <= i < n ==> Placeable(fs, src, dst, Items(fs, listing, src)[i], resolution(i))
    ensures RunItems(Copied(fs, listing, src, dst, 0), Items(fs, listing, src), resolution, c, NoFaults(), n)
         == Run(Copied(fs, listing, src, dst, n), true, [])
  {
    var items := Items(fs, listing, src);
    var trace := (k: nat) => if k <= n then Run(Copied(fs, listing, src, dst, k), true, [])
                             else Run(CopyState(fs, map[], None), true, []);
    forall k: nat | k < n
      ensures StepTo(items, resolution, c, NoFaults(), k, trace(k), trace(k + 1))
    {
      assert Placeable(fs, src, dst, items[k], resolution(k));
      PlaceStep(fs, listing, src, dst, k, resolution(k), c);
      StepReached(items, resolution, c, NoFaults(), k, Copied(fs, listing, src, dst, k), Copied(fs, listing, src, dst, k + 1), []);
    }
    RunFollows(Copied(fs, listing, src, dst, 0), items, resolution, c, NoFaults(), trace, n);
  }

  /** A copy onto a free root completes every item, whatever the resolutions are. */
  lemma {:induction false} CopyOntoFreeRoot(fs: Fs, listing: Listing, src: Path, dst: Path, resolution: nat -> Resolution, c: bool)
    requires Copying(fs, listing, src, dst) && dst !in fs
    ensures var items := Items(fs, listing, src);
            RunItems(CopyState(fs, PlanFor(fs, src, dst), None), items, resolution, c, NoFaults(), |items|)
              == Run(CopyState(WithCopy(fs, src, dst), PlanFor(fs, src, dst), Some(dst)), true, [])
  {
    FreeRootIsApart(fs, src, dst);
    forall i | 0 <= i < |Items(fs, listing, src)|
      ensures Placeable(fs, src, dst, Items(fs, listing, src)[i], resolution(i))
    {
      RelocateBack(src, dst, Items(fs, listing, src)[i]);
    }
    RunPlaces(fs, listing, src, dst, resolution, c, |Items(fs, listing, src)|);
    OverlayAll(fs, listing, src, dst);
  }

  lemma {:induction false} RebasePlan(fs: Fs, src: Path, dst: Path, root: Path)
    ensures Rebase(PlanFor(fs, src, dst), dst, root) == PlanFor(fs, src, root)
  {
    forall p | p in fs && src <= p
      ensures Relocate(dst, root, Relocate(src, dst, p)) == Relocate(src, root, p)
    {
      assert Relocate(src, dst, p)[|dst|..] == p[|src|..];
    }
  }

  ghost function RenamedPlan(fs: Fs, src: Path, dst: Path, root: Path): map<Path, PlannedCopy>
    requires src in fs
  {
    if fs[src].Directory? then PlanFor(fs, src, root) else PlanFor(fs, src, dst)
  }

  lemma {:induction false} RenamedIsFreeSibling(fs: Fs, dst: Path)
    requires dst != [] && NextCopyDestination(fs, dst).Found?
    ensures var root := NextCopyDestination(fs, dst).destination;
            root != [] && Parent(root) == Parent(dst) && root !in fs
  {
    var root := NextCopyDestination(fs, dst).destination;
    var k :| 1 <= k <= U32_MAX && root == Candidate(dst, k) && root !in fs;
    assert Parent(root) == Parent(dst);
  }

  lemma {:induction false} RenameRootStep(fs: Fs, src: Path, dst: Path, c: bool)
    requires WellFormed(fs) && src in fs && dst != [] && dst in fs && KindOf(fs[dst]) == KindOf(fs[src])
    requires NextCopyDestination(fs, dst).Found?
    ensures var root := NextCopyDestination(fs, dst).destination;
            && root != [] && Parent(root) == Parent(dst) && root !in fs
            && ExecuteStep(CopyState(fs, PlanFor(fs, src, dst), None), src, RenameNew, c, NoFault)
                 == StepResult(CopyState(fs[root := fs[src]], RenamedPlan(fs, src, dst, root), Some(root)), Completed)
  {
    var root := NextCopyDestination(fs, dst).destination;
    RenamedIsFreeSibling(fs, dst);
    var s := CopyState(fs, PlanFor(fs, src, dst), None);
    assert src[|src|..] == [];
    assert s.planned[src] == PlannedCopy(KindOf(fs[src]), dst, src, true);
    RenamingStep(s, src, root, c);
    RebasePlan(fs, src, dst, root);
  }

  lemma {:induction false} RenamingStep(s: CopyState, src: Path, root: Path, c: bool)
    requires src in s.planned && src in s.fs && s.planned[src].isRoot && s.planned[src].source == src
    requires var d := s.planned[src].destination;
             && d != [] && d in s.fs && KindOf(s.fs[d]) == KindOf(s.fs[src]) == s.planned[src].kind
             && NextCopyDestination(s.fs, d) == Found(root)
    requires root != [] && root !in s.fs && Parent(root) in s.fs && s.fs[Parent(root)].Directory?
    ensures var plans := if s.fs[src].Directory? then Rebase(s.planned, s.planned[src].destination, root) else s.planned;
            ExecuteStep(s, src, RenameNew, c, NoFault)
              == StepResult(CopyState(s.fs[root := s.fs[src]], plans, Some(root)), Completed)
  {
  }

  lemma {:induction false} RunRenamed(fs: Fs, listing: Listing, src: Path, dst: Path, root: Path,
                                      resolution: nat -> Resolution, c: bool, n: nat)
    requires Copying(fs, listing, src, dst) && dst in fs && KindOf(fs[dst]) == KindOf(fs[src])
    requires NextCopyDestination(fs, dst) == Found(root) && resolution(0) == RenameNew
    requires 1 <= n <= |Items(fs, listing, src)|
    ensures RunItems(CopyState(fs, PlanFor(fs, src, dst), None), Items(fs, listing, src), resolution, c, NoFaults(), n)
         == Run(Renamed(fs, listing, src, dst, root, n), true, [])
  {
    var items := Items(fs, listing, src);
    var trace := RenamedTrace(fs, listing, src, dst, root);
    forall k: nat | k < n
      ensures StepTo(items, resolution, c, NoFaults(), k, trace(k), trace(k + 1))
    {
      RenamedStep(fs, listing, src, dst, root, resolution, c, k);
    }
    RunFollows(CopyState(fs, PlanFor(fs, src, dst), None), items, resolution, c, NoFaults(), trace, n);
  }

  lemma {:induction false} RenamedStep(fs: Fs, listing: Listing, src: Path, dst: Path, root: Path,
                                       resolution: nat -> Resolution, c: bool, k: nat)
    requires Copying(fs, listing, src, dst) && dst in fs && KindOf(fs[dst]) == KindOf(fs[src])
    requires NextCopyDestination(fs, dst) == Found(root) && resolution(0) == RenameNew && k < |Items(fs, listing, src)|
    ensures var trace := RenamedTrace(fs, listing, src, dst, root);
            StepTo(Items(fs, listing, src), resolution, c, NoFaults(), k, trace(k), trace(k + 1))
  {
    RenamedNext(fs, listing, src, dst, root, resolution, c, k);
    StepReached(Items(fs, listing, src), resolution, c, NoFaults(), k, Renamed(fs, listing, src, dst, root, k),
                Renamed(fs, listing, src, dst, root, k + 1), []);
  }

  lemma {:induction false} RenamedNext(fs: Fs, listing: Listing, src: Path, dst: Path, root: Path,
                                       resolution: nat -> Resolution, c: bool, k: nat)
    requires Copying(fs, listing, src, dst) && dst in fs && KindOf(fs[dst]) == KindOf(fs[src])
    requires NextCopyDestination(fs, dst) == Found(root) && resolution(0) == RenameNew && k < |Items(fs, listing, src)|
    ensures ExecuteStep(Renamed(fs, listing, src, dst, root, k), Items(fs, listing, src)[k], resolution(k), c, NoFault)
         == StepResult(Renamed(fs, listing, src, dst, root, k + 1), Completed)
  {
    if k == 0 {
      RenamedFirst(fs, listing, src, dst, root, c);
    } else {
      RenamedBelow(fs, listing, src, dst, root, resolution(k), c, k);
    }
  }

  ghost function RenamedTrace(fs: Fs, listing: Listing, src: Path, dst: Path, root: Path): nat -> Run
    requires Copying(fs, listing, src, dst)
  {
    (k: nat) => if k <= |Items(fs, listing, src)| then Run(Renamed(fs, listing, src, dst, root, k), true, [])
                else Run(CopyState(fs, map[], None), true, [])
  }

  /** The state after `n` items when the root is renamed. */
  ghost function Renamed(fs: Fs, listing: Listing, src: Path, dst: Path, root: Path, n: nat): CopyState
    requires Copying(fs, listing, src, dst) && n <= |Items(fs, listing, src)|
  {
    if n == 0 then CopyState(fs, PlanFor(fs, src, dst), None)
    else CopyState(Overlay(fs, src, root, Items(fs, listing, src), n), RenamedPlan(fs, src, dst, root), Some(root))
  }

  lemma {:induction false} RenamedFirst(fs: Fs, listing: Listing, src: Path, dst: Path, root: Path, c: bool)
    requires Copying(fs, listing, src, dst) && dst in fs && KindOf(fs[dst]) == KindOf(fs[src])
    requires NextCopyDestination(fs, dst) == Found(root)
    ensures ExecuteStep(Renamed(fs, listing, src, dst, root, 0), Items(fs, listing, src)[0], RenameNew, c, NoFault)
         == StepResult(Renamed(fs, listing, src, dst, root, 1), Completed)
  {
    var items := Items(fs, listing, src);
    RenameRootStep(fs, src, dst, c);
    assert Relocate(src, root, src) == root;
    assert Overlay(fs, src, root, items, 1) == Overlay(fs, src, root, items, 0)[root := fs[src]];
  }

  /** Below a renamed root every item finds its place free. */
  lemma {:induction false} RenamedBelow(fs: Fs, listing: Listing, src: Path, dst: Path, root: Path, r: Resolution, c: bool, n: nat)
    requires Copying(fs, listing, src, dst) && NextCopyDestination(fs, dst) == Found(root)
    requires 1 <= n < |Items(fs, listing, src)|
    ensures ExecuteStep(Renamed(fs, listing, src, dst, root, n), Items(fs, listing, src)[n], r, c, NoFault)
         == StepResult(Renamed(fs, listing, src, dst, root, n + 1), Completed)
  {
    var items := Items(fs, listing, src);
    RenamedIsFreeSibling(fs, dst);
    assert src < items[n] by {
      assert items[0] != items[n];
    }
    AncestorsAreDirectories(fs, src, items[n]);
    FreeRootIsApart(fs, src, root);
    RelocateBack(src, root, items[n]);
    PlaceStep(fs, listing, src, root, n, r, c);
  }

  /** A copy that renames its occupied root is a copy onto the first free name. */
  lemma {:induction false} CopyRenamed(fs: Fs, listing: Listing, src: Path, dst: Path, resolution: nat -> Resolution, c: bool)
    requires Copying(fs, listing, src, dst) && dst in fs && KindOf(fs[dst]) == KindOf(fs[src])
    requires resolution(0) == RenameNew && |Siblings(fs, dst)| < U32_MAX
    ensures NextCopyDestination(fs, dst).Found?
    ensures var root := NextCopyDestination(fs, dst).destination;
            && Copying(fs, listing, src, root) && root !in fs
            && var items := Items(fs, listing, src);
               var run := RunItems(CopyState(fs, PlanFor(fs, src, dst), None), items, resolution, c, NoFaults(), |items|);
               run.alive && run.deferred == []
               && run.state.fs == WithCopy(fs, src, root) && run.state.completedRoot == Some(root)
  {
    SearchSucceeds(fs, dst);
    var root := NextCopyDestination(fs, dst).destination;
    RenameRootStep(fs, src, dst, c);
    RunRenamed(fs, listing, src, dst, root, resolution, c, |Items(fs, listing, src)|);
    OverlayAll(fs, listing, src, root);
  }

  /** Every source entry meets a free place or an entry of its own kind. */
  ghost predicate KindsAgree(fs: Fs, src: Path, dst: Path) {
    forall p :: p in fs && src <= p && Relocate(src, dst, p) in fs ==>
      KindOf(fs[Relocate(src, dst, p)]) == KindOf(fs[p])
  }

  lemma {:induction false} DeadStaysDead(s: CopyState, items: seq<Path>, resolution: nat -> Resolution, c: bool,
                                         faults: nat -> Fault, n: nat, m: nat)
    requires n <= m <= |items| && !RunItems(s, items, resolution, c, faults, n).alive
    ensures RunItems(s, items, resolution, c, faults, m) == RunItems(s, items, resolution, c, faults, n)
  {
    if n < m {
      DeadStaysDead(s, items, resolution, c, faults, n, m - 1);
    }
  }

  /** An overwriting copy merges the source into the destination, and gets to the end
      exactly when no entry meets an entry of another kind. */
  lemma {:induction false} OverwriteMerges(fs: Fs, listing: Listing, src: Path, dst: Path, resolution: nat -> Resolution, c: bool)
    requires Copying(fs, listing, src, dst) && !(src <= dst) && !(dst <= src)
    requires forall i :: resolution(i) == Overwrite
    ensures var items := Items(fs, listing, src);
            var run := RunItems(CopyState(fs, PlanFor(fs, src, dst), None), items, resolution, c, NoFaults(), |items|);
            && (run.alive <==> KindsAgree(fs, src, dst))
            && (run.alive ==> run == Run(CopyState(WithCopy(fs, src, dst), PlanFor(fs, src, dst), Some(dst)), true, []))
  {
    var items := Items(fs, listing, src);
    UnrelatedRootIsApart(fs, src, dst);
    if KindsAgree(fs, src, dst) {
      RunPlaces(fs, listing, src, dst, resolution, c, |items|);
      OverlayAll(fs, listing, src, dst);
    } else {
      var k := FirstMismatch(fs, src, dst, items);
      RunPlaces(fs, listing, src, dst, resolution, c, k);
      MismatchStep(fs, listing, src, dst, k, resolution(k), c);
      DeadStaysDead(CopyState(fs, PlanFor(fs, src, dst), None), items, resolution, c, NoFaults(), k + 1, |items|);
    }
  }

  lemma {:induction false} FirstMismatch(fs: Fs, src: Path, dst: Path, items: seq<Path>) returns (k: nat)
    requires ItemsOf(fs, src, items) && !KindsAgree(fs, src, dst)
    requires forall p :: p in fs && src <= p ==> p in items
    ensures k < |items| && !Placeable(fs, src, dst, items[k], Overwrite)
    ensures forall i :: 0 <= i < k ==> Placeable(fs, src, dst, items[i], Overwrite)
  {
    var p :| p in fs && src <= p && Relocate(src, dst, p) in fs && KindOf(fs[Relocate(src, dst, p)]) != KindOf(fs[p]);
    var last :| 0 <= last < |items| && items[last] == p;
    k := 0;
    while Placeable(fs, src, dst, items[k], Overwrite)
      invariant k <= last
      invariant forall i :: 0 <= i < k ==> Placeable(fs, src, dst, items[i], Overwrite)
      decreases last - k
    {
      k := k + 1;
    }
  }

  lemma {:induction false} StepStaysBelow(s: CopyState, item: Path, dst: Path, c: bool, fault: Fault)
    requires item in s.planned ==> dst <= s.planned[item].destination
    ensures var after := ExecuteStep(s, item, Overwrite, c, fault).state;
            && after.planned == s.planned
            && forall x :: !(dst <= x) ==> (x in after.fs <==> x in s.fs) && (x in s.fs ==> after.fs[x] == s.fs[x])
  {
  }

  /** An overwriting run changes nothing outside the destination root, wherever it stops and
      whatever fails. */
  lemma {:induction false} OverwriteStaysBelow(fs: Fs, src: Path, dst: Path, items: seq<Path>, resolution: nat -> Resolution,
                                               c: bool, faults: nat -> Fault, n: nat)
    requires n <= |items| && forall i :: resolution(i) == Overwrite
    ensures var run := RunItems(CopyState(fs, PlanFor(fs, src, dst), None), items, resolution, c, faults, n);
            && run.state.planned == PlanFor(fs, src, dst)
            && forall x :: !(dst <= x) ==> (x in run.state.fs <==> x in fs) && (x in fs ==> run.state.fs[x] == fs[x])
  {
    if n > 0 {
      OverwriteStaysBelow(fs, src, dst, items, resolution, c, faults, n - 1);
      if items[n - 1] in PlanFor(fs, src, dst) {
        RelocateBack(src, dst, items[n - 1]);
      }
      var s := RunItems(CopyState(fs, PlanFor(fs, src, dst), None), items, resolution, c, faults, n - 1).state;
      StepStaysBelow(s, items[n - 1], dst, c, faults(n - 1));
    }
  }

  lemma {:induction false} UnfailedStep(s: CopyState, item: Path, r: Resolution, fault: Fault)
    requires ExecuteStep(s, item, r, false, fault).outcome != Failed
    ensures ExecuteStep(s, item, r, false, fault) == ExecuteStep(s, item, r, false, NoFault)
  {
  }

  /** When errors are not turned into warnings, a run that is still alive met no failure
      that mattered. */
  lemma {:induction false} AliveRunsClean(s: CopyState, items: seq<Path>, resolution: nat -> Resolution,
                                          faults: nat -> Fault, n: nat)
    requires n <= |items| && RunItems(s, items, resolution, false, faults, n).alive
    ensures RunItems(s, items, resolution, false, faults, n) == RunItems(s, items, resolution, false, NoFaults(), n)
  {
    if n > 0 {
      AliveRunsClean(s, items, resolution, faults, n - 1);
      UnfailedStep(RunItems(s, items, resolution, false, faults, n - 1).state, items[n - 1], resolution(n - 1), faults(n - 1));
    }
  }
}
