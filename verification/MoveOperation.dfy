/** Moving a tree: a native rename when both sides share a file system, otherwise a copy
    followed by the removal of the source. */
module MoveOperation {
  import opened FileTree
  import opened FreshName
  import opened CopyOperation
  import opened CopyRun
  import opened CopyTheorems

  function Destination(src: Path, directory: Path): Path
    requires src != []
  {
    directory + [LastName(src)]
  }

  function RemoveTree(fs: Fs, root: Path): Fs {
    map q | q in fs && !(root <= q) :: fs[q]
  }

  /** The source goes only if nothing was cancelled, its root arrived, and the arrived root
      is still there. `fault` stands for a failure of any call made here. */
  function FinishMove(s: CopyState, src: Path, cancelled: bool, fault: bool): Fs {
    if cancelled || fault || s.completedRoot.None? || s.completedRoot.path !in s.fs then s.fs
    else RemoveTree(s.fs, src)
  }

  /** A copy-then-delete move of which the first `n` items were executed. The scheduler
      finishes only after every item was executed without error or open conflict. */
  ghost function FallbackMove(fs: Fs, items: seq<Path>, src: Path, dst: Path, resolution: nat -> Resolution,
                              faults: nat -> Fault, n: nat, cancelled: bool, finishFault: bool): Fs
    requires n <= |items|
  {
    var run := RunItems(CopyState(fs, PlanFor(fs, src, dst), None), items, resolution, false, faults, n);
    if n < |items| || !run.alive || run.deferred != [] then run.state.fs
    else FinishMove(run.state, src, cancelled, finishFault)
  }

  /** A rename onto a free place in a directory. */
  function RenameTree(fs: Fs, src: Path, dst: Path): Fs {
    RemoveTree(WithCopy(fs, src, dst), src)
  }

  predicate Renamable(fs: Fs, src: Path, dst: Path) {
    src in fs && dst != [] && dst !in fs && Parent(dst) in fs && fs[Parent(dst)].Directory? && !(src <= dst)
  }

  datatype NativeResult = NativeResult(fs: Fs, outcome: Outcome)

  function RenameOrFail(fs: Fs, src: Path, dst: Path, fault: Fault): NativeResult {
    if fault.WriteFault? || !Renamable(fs, src, dst) then NativeResult(fs, Failed)
    else NativeResult(RenameTree(fs, src, dst), Completed)
  }

  function NativeMove(fs: Fs, src: Path, dst: Path, resolution: Resolution, fault: Fault): NativeResult
    requires dst != []
  {
    if dst !in fs then RenameOrFail(fs, src, dst, fault)
    else if fault.PrepareFault? || src !in fs || KindOf(fs[src]) != KindOf(fs[dst]) then NativeResult(fs, Failed)
    else
      match resolution
      case Undecided => NativeResult(fs, Conflict)
      case Skip => NativeResult(fs, Skipped)
      case Overwrite => RenameOrFail(RemoveTree(fs, dst), src, dst, fault)
      case RenameNew =>
        match NextCopyDestination(fs, dst)
        case Exhausted => NativeResult(fs, Failed)
        case Found(renamed) => RenameOrFail(fs, src, renamed, fault)
  }

  // ------------------------------------------------------------ conservation

  ghost predicate Intact(fs: Fs, after: Fs, src: Path) {
    forall p :: p in fs && src <= p ==> p in after && after[p] == fs[p]
  }

  ghost predicate Landed(fs: Fs, after: Fs, src: Path, root: Path) {
    forall p :: p in fs && src <= p ==> Relocate(src, root, p) in after && after[Relocate(src, root, p)] == fs[p]
  }

  /** Where the moved tree is to be found: at `dst`, or under the first free name when an
      occupied root is renamed. */
  function FinalRoot(fs: Fs, dst: Path, e: Resolution): Path
    requires dst != []
  {
    if dst in fs && e == RenameNew && NextCopyDestination(fs, dst).Found?
    then NextCopyDestination(fs, dst).destination
    else dst
  }

  /** The source is intact, or all of it sits at its new root. */
  ghost predicate Conserved(fs: Fs, after: Fs, src: Path, root: Path) {
    Intact(fs, after, src) || Landed(fs, after, src, root)
  }

  /** What the planner accepts: an existing, named source and a destination in the same
      provider that is not the source and not inside it. */
  ghost predicate Accepted(fs: Fs, listing: Listing, src: Path, directory: Path) {
    && WellFormed(fs) && Lists(fs, listing) && src in fs && |src| >= 2
    && directory != [] && directory[0] == src[0]
    && !(src <= Destination(src, directory))
  }

  lemma {:induction false} WithCopyLands(fs: Fs, src: Path, dst: Path)
    ensures Landed(fs, WithCopy(fs, src, dst), src, dst)
  {
    forall p | p in fs && src <= p
      ensures Relocate(src, dst, p) in WithCopy(fs, src, dst) && WithCopy(fs, src, dst)[Relocate(src, dst, p)] == fs[p]
    {
      RelocateBack(src, dst, p);
    }
  }

  /** Removing the source does not reach a copy at an unrelated root. */
  lemma {:induction false} RemovalSparesCopy(fs: Fs, src: Path, root: Path)
    requires !(src <= root) && !(root <= src)
    ensures Landed(fs, RemoveTree(WithCopy(fs, src, root), src), src, root)
  {
    WithCopyLands(fs, src, root);
    forall p | p in fs && src <= p
      ensures !(src <= Relocate(src, root, p))
    {
      RelocateBack(src, root, p);
      if src <= Relocate(src, root, p) {
        PrefixesCompare(src, root, Relocate(src, root, p));
      }
    }
  }

  lemma {:induction false} FreeRootUnrelated(fs: Fs, src: Path, root: Path)
    requires WellFormed(fs) && src in fs && root !in fs
    ensures !(root <= src)
  {
    if root <= src {
      AncestorsAreDirectories(fs, root, src);
    }
  }

  /** A fresh sibling of an accepted destination is not inside the source either. */
  lemma {:induction false} RenamedRootOutside(fs: Fs, src: Path, dst: Path, root: Path)
    requires src in fs && root !in fs && dst != [] && root != [] && Parent(root) == Parent(dst) && !(src <= dst)
    ensures !(src <= root)
  {
    assert Parent(dst) <= dst;
    var up := Parent(root);
    assert src <= root && src != root ==> src <= up;
  }

  /** Wherever the copy stops, the source is still there. */
  lemma {:induction false} CopyKeepsSource(fs: Fs, src: Path, dst: Path, items: seq<Path>, e: Resolution, faults: nat -> Fault, n: nat)
    requires n <= |items| && !(src <= dst) && !(e == Overwrite && dst <= src)
    ensures Intact(fs, RunItems(CopyState(fs, PlanFor(fs, src, dst), None), items, Always(e), false, faults, n).state.fs, src)
  {
    if e == Overwrite {
      OverwriteStaysBelow(fs, src, dst, items, Always(e), false, faults, n);
      UnrelatedRootIsApart(fs, src, dst);
    } else {
      NeverClobbers(CopyState(fs, PlanFor(fs, src, dst), None), items, Always(e), false, faults, n);
    }
  }

  lemma {:induction false} LaterRunsKeepVerdict(s: CopyState, items: seq<Path>, resolution: nat -> Resolution,
                                                faults: nat -> Fault, m: nat, n: nat)
    requires m <= n <= |items| && RunItems(s, items, resolution, false, faults, n).alive
    ensures RunItems(s, items, resolution, false, faults, m).alive
    ensures RunItems(s, items, resolution, false, faults, m).deferred != [] ==>
              RunItems(s, items, resolution, false, faults, n).deferred != []
  {
    if m < n {
      LaterRunsKeepVerdict(s, items, resolution, faults, m, n - 1);
    }
  }

  lemma {:induction false} OrdinaryStep(s: CopyState, item: Path, f: Fault)
    requires item in s.planned && (s.planned[item].isRoot ==> s.planned[item].destination in s.fs)
    ensures var t := ExecuteStep(s, item, Skip, false, f).state;
            && t.planned == s.planned && t.completedRoot == s.completedRoot
            && forall q :: q in s.fs ==> q in t.fs
  {
  }

  lemma {:induction false} SkippedRootNeverCompletes(fs: Fs, src: Path, dst: Path, items: seq<Path>, n: nat)
    requires src in fs && dst in fs && n <= |items| && ItemsOf(fs, src, items)
    ensures var run := RunItems(CopyState(fs, PlanFor(fs, src, dst), None), items, Always(Skip), false, NoFaults(), n);
            && run.state.planned == PlanFor(fs, src, dst) && run.state.completedRoot == None
            && dst in run.state.fs
  {
    if n > 0 {
      SkippedRootNeverCompletes(fs, src, dst, items, n - 1);
      var run := RunItems(CopyState(fs, PlanFor(fs, src, dst), None), items, Always(Skip), false, NoFaults(), n - 1);
      assert Relocate(src, dst, src) == dst;
      if run.alive {
        OrdinaryStep(run.state, items[n - 1], NoFault);
      }
    }
  }

  /** The first step of a copy whose root is occupied. */
  lemma {:induction false} OccupiedRootStep(fs: Fs, listing: Listing, src: Path, dst: Path, e: Resolution)
    requires WellFormed(fs) && Lists(fs, listing) && src in fs && dst in fs
    ensures var run := RunItems(CopyState(fs, PlanFor(fs, src, dst), None), Items(fs, listing, src), Always(e), false,
                                NoFaults(), 1);
            && (run.alive && run.deferred == [] ==> KindOf(fs[src]) == KindOf(fs[dst]) && e != Undecided)
            && (run.alive && e == RenameNew ==> dst != [] && NextCopyDestination(fs, dst).Found?)
  {
    var s, items := CopyState(fs, PlanFor(fs, src, dst), None), Items(fs, listing, src);
    assert Relocate(src, dst, src) == dst;
    assert s.planned[src] == PlannedCopy(KindOf(fs[src]), dst, src, true);
    assert RunItems(s, items, Always(e), false, NoFaults(), 0) == Run(s, true, []);
  }

  lemma {:induction false} NoDirectoryNoCopy(fs: Fs, listing: Listing, src: Path, dst: Path, e: Resolution)
    requires WellFormed(fs) && Lists(fs, listing) && src in fs && dst != []
    requires !(Parent(dst) in fs && fs[Parent(dst)].Directory?)
    ensures !RunItems(CopyState(fs, PlanFor(fs, src, dst), None), Items(fs, listing, src), Always(e), false, NoFaults(), 1).alive
  {
    var s, items := CopyState(fs, PlanFor(fs, src, dst), None), Items(fs, listing, src);
    assert Relocate(src, dst, src) == dst;
    assert dst !in fs;
    FreePlaceStep(s, src, e, false, NoFault);
    FirstItem(s, items, Always(e), NoFaults());
  }

  lemma {:induction false} FirstItem(s: CopyState, items: seq<Path>, resolution: nat -> Resolution, faults: nat -> Fault)
    requires items != []
    ensures RunItems(s, items, resolution, false, faults, 1).alive
            <==> ExecuteStep(s, items[0], resolution(0), false, faults(0)).outcome != Failed
  {
    assert RunItems(s, items, resolution, false, faults, 0) == Run(s, true, []);
  }

  /** A copy that got to the end with a completed root has copied everything to that root. */
  lemma {:induction false} CompletedRootHoldsCopy(fs: Fs, listing: Listing, src: Path, dst: Path, e: Resolution)
    requires WellFormed(fs) && Lists(fs, listing) && src in fs && dst != [] && !(src <= dst)
    requires !(e == Overwrite && dst <= src)
    requires var items := Items(fs, listing, src);
             var run := RunItems(CopyState(fs, PlanFor(fs, src, dst), None), items, Always(e), false, NoFaults(), |items|);
             run.alive && run.deferred == [] && run.state.completedRoot != None
    ensures var root := FinalRoot(fs, dst, e);
            && !(src <= root) && !(root <= src)
            && var items := Items(fs, listing, src);
               RunItems(CopyState(fs, PlanFor(fs, src, dst), None), items, Always(e), false, NoFaults(), |items|).state.fs
                 == WithCopy(fs, src, root)
  {
    var items := Items(fs, listing, src);
    var s := CopyState(fs, PlanFor(fs, src, dst), None);
    LaterRunsKeepVerdict(s, items, Always(e), NoFaults(), 1, |items|);
    if !(Parent(dst) in fs && fs[Parent(dst)].Directory?) {
      NoDirectoryNoCopy(fs, listing, src, dst, e);
    }
    if dst !in fs {
      FreeRootUnrelated(fs, src, dst);
      CopyOntoFreeRoot(fs, listing, src, dst, Always(e), false);
    } else {
      OccupiedRootStep(fs, listing, src, dst, e);
      match e
      case Undecided =>
      case Skip => SkippedRootNeverCompletes(fs, src, dst, items, |items|);
      case Overwrite => OverwriteMerges(fs, listing, src, dst, Always(e), false);
      case RenameNew =>
        var root := NextCopyDestination(fs, dst).destination;
        RenameRootStep(fs, src, dst, false);
        RunRenamed(fs, listing, src, dst, root, Always(e), false, |items|);
        OverlayAll(fs, listing, src, root);
        FreeRootUnrelated(fs, src, root);
        RenamedRootOutside(fs, src, dst, root);
    }
  }

  /** Under one fixed resolution a copy-then-delete move conserves the source: at every
      point where it may stop, for every pattern of provider failures, cancelled or not.
      The one exception is an overwriting move onto an ancestor of its own source. */
  lemma {:induction false} FallbackMoveConserves(fs: Fs, listing: Listing, src: Path, directory: Path, e: Resolution,
                              faults: nat -> Fault, n: nat, cancelled: bool, finishFault: bool)
    requires Accepted(fs, listing, src, directory) && n <= |Items(fs, listing, src)|
    requires !(e == Overwrite && Destination(src, directory) <= src)
    ensures var dst := Destination(src, directory);
            var after := FallbackMove(fs, Items(fs, listing, src), src, dst, Always(e), faults, n, cancelled, finishFault);
            && Conserved(fs, after, src, FinalRoot(fs, dst, e))
            && (cancelled ==> Intact(fs, after, src))
            && (e == Skip && dst in fs ==> Intact(fs, after, src))
  {
    var dst, items := Destination(src, directory), Items(fs, listing, src);
    var s := CopyState(fs, PlanFor(fs, src, dst), None);
    var run := RunItems(s, items, Always(e), false, faults, n);
    CopyKeepsSource(fs, src, dst, items, e, faults, n);
    if run.alive && n == |items| && run.deferred == [] && !cancelled && run.state.completedRoot != None {
      AliveRunsClean(s, items, Always(e), faults, n);
      if e == Skip && dst in fs {
        SkippedRootNeverCompletes(fs, src, dst, items, n);
      }
      CompletedRootHoldsCopy(fs, listing, src, dst, e);
      RemovalSparesCopy(fs, src, FinalRoot(fs, dst, e));
    }
  }

  // ----------------------------------------------- what a native move leaves

  /** The source tree stands at `root` and nothing else does, nothing is left at the source, and
      everything outside both is as it was. */
  ghost predicate MovedTo(fs: Fs, after: Fs, src: Path, root: Path) {
    && (forall p :: p in fs && src <= p ==> Relocate(src, root, p) in after && after[Relocate(src, root, p)] == fs[p])
    && (forall x :: x in after && root <= x ==> IsPlace(fs, src, root, x))
    && (forall x :: x in after ==> !(src <= x))
    && (forall x :: !(src <= x) && !(root <= x) ==> (x in after <==> x in fs) && (x in fs ==> after[x] == fs[x]))
  }

  /** `after` is `fs` without the tree at `root`. */
  ghost predicate TreeRemoved(fs: Fs, after: Fs, root: Path) {
    forall x :: (x in after <==> x in fs && !(root <= x)) && (x in after ==> after[x] == fs[x])
  }

  lemma {:induction false} RenameMoves(fs: Fs, now: Fs, src: Path, root: Path)
    requires !(src <= root) && !(root <= src)
    requires TreeRemoved(fs, now, root)
    ensures MovedTo(fs, RenameTree(now, src, root), src, root)
  {
    UnrelatedRootIsApart(fs, src, root);
    WithCopyMerges(now, src, root);
    var after := RenameTree(now, src, root);
    forall p | p in fs && src <= p
      ensures p in now && now[p] == fs[p] && !(src <= Relocate(src, root, p))
    {
      RelocateBack(src, root, p);
      if src <= Relocate(src, root, p) {
        PrefixesCompare(src, root, Relocate(src, root, p));
      }
    }
    forall x | root <= x
      ensures x in after ==> IsPlace(fs, src, root, x)
    {
      RelocateBack(root, src, x);
    }
  }

  /** The two entries of a move are alike, and both can be inspected. */
  predicate NativeConflict(fs: Fs, src: Path, dst: Path, fault: Fault) {
    dst in fs && src in fs && !fault.PrepareFault? && Alike(fs[src], fs[dst])
  }

  /** A free place below a directory, and a provider that does not fail. */
  predicate Receptive(fs: Fs, dst: Path, fault: Fault) {
    !fault.WriteFault? && dst != [] && Parent(dst) in fs && fs[Parent(dst)].Directory?
  }

  lemma {:induction false} MoveOntoFreePlace(fs: Fs, src: Path, dst: Path, e: Resolution, fault: Fault)
    requires WellFormed(fs) && src in fs && dst != [] && !(src <= dst) && dst !in fs
    ensures var r := NativeMove(fs, src, dst, e, fault);
            if Receptive(fs, dst, fault) then r.outcome == Completed && MovedTo(fs, r.fs, src, dst)
            else r == NativeResult(fs, Failed)
  {
    FreeRootUnrelated(fs, src, dst);
    FreeRootIsApart(fs, src, dst);
    RenameMoves(fs, fs, src, dst);
  }

  lemma {:induction false} MoveStops(fs: Fs, src: Path, dst: Path, e: Resolution, fault: Fault)
    requires src in fs && dst != [] && dst in fs
    ensures !NativeConflict(fs, src, dst, fault) ==> NativeMove(fs, src, dst, e, fault) == NativeResult(fs, Failed)
    ensures NativeConflict(fs, src, dst, fault) && e == Skip ==> NativeMove(fs, src, dst, e, fault) == NativeResult(fs, Skipped)
    ensures NativeConflict(fs, src, dst, fault) && e == Undecided ==>
              NativeMove(fs, src, dst, e, fault) == NativeResult(fs, Conflict)
  {
  }

  lemma {:induction false} MoveOverwrites(fs: Fs, src: Path, dst: Path, fault: Fault)
    requires WellFormed(fs) && src in fs && dst != [] && !(src <= dst) && NativeConflict(fs, src, dst, fault)
    ensures var r := NativeMove(fs, src, dst, Overwrite, fault);
            if fault.WriteFault? || dst <= src then r.outcome == Failed && TreeRemoved(fs, r.fs, dst)
            else r.outcome == Completed && MovedTo(fs, r.fs, src, dst)
  {
    OverwritingRename(fs, src, dst, fault);
    if !(dst <= src) {
      RenameMoves(fs, RemoveTree(fs, dst), src, dst);
    }
  }

  lemma {:induction false} OverwritingRename(fs: Fs, src: Path, dst: Path, fault: Fault)
    requires WellFormed(fs) && src in fs && dst != [] && !(src <= dst) && NativeConflict(fs, src, dst, fault)
    ensures var now := RemoveTree(fs, dst);
            NativeMove(fs, src, dst, Overwrite, fault)
              == if fault.WriteFault? || dst <= src then NativeResult(now, Failed)
                 else NativeResult(RenameTree(now, src, dst), Completed)
  {
    var parent := Parent(dst);
    assert parent in fs && fs[parent].Directory? && !(dst <= parent);
  }

  lemma {:induction false} MoveRenames(fs: Fs, src: Path, dst: Path, fault: Fault)
    requires WellFormed(fs) && src in fs && dst != [] && !(src <= dst) && NativeConflict(fs, src, dst, fault)
    ensures var r := NativeMove(fs, src, dst, RenameNew, fault);
            if fault.WriteFault? || !HasFreshSuffix(fs, dst) then r == NativeResult(fs, Failed)
            else r.outcome == Completed && MovedBeside(fs, r.fs, src, dst)
  {
    FoundIffFresh(fs, dst);
    if HasFreshSuffix(fs, dst) {
      var k := FoundIsFresh(fs, dst);
      var root := Candidate(dst, k);
      RenamedIsFreeSibling(fs, dst);
      assert Parent(dst) in fs && fs[Parent(dst)].Directory?;
      RenamedRootOutside(fs, src, dst, root);
      MoveOntoFreePlace(fs, src, root, RenameNew, fault);
    }
  }

  /** All of this, by policy and decision. */
  lemma {:induction false} NativeOutcome(fs: Fs, src: Path, dst: Path, policy: ConflictPolicy, decision: Resolution, fault: Fault)
    requires WellFormed(fs) && src in fs && dst != [] && !(src <= dst)
    ensures var r := NativeMove(fs, src, dst, EffectiveResolution(policy, decision), fault);
            && (dst !in fs ==>
                  if Receptive(fs, dst, fault) then r.outcome == Completed && MovedTo(fs, r.fs, src, dst)
                  else r == NativeResult(fs, Failed))
            && (dst in fs && !NativeConflict(fs, src, dst, fault) ==> r == NativeResult(fs, Failed))
            && (NativeConflict(fs, src, dst, fault) ==>
                  && (decision == Skip || (decision == Undecided && policy == SkipExisting) ==> r == NativeResult(fs, Skipped))
                  && (decision == Undecided && (policy == Ask || policy == KeepNewer) ==> r == NativeResult(fs, Conflict))
                  && (decision == Overwrite || (decision == Undecided && policy == OverwriteExisting) ==>
                        if fault.WriteFault? || dst <= src then r.outcome == Failed && TreeRemoved(fs, r.fs, dst)
                        else r.outcome == Completed && MovedTo(fs, r.fs, src, dst))
                  && (decision == RenameNew || (decision == Undecided && policy == RenameIncoming) ==>
                        if fault.WriteFault? || !HasFreshSuffix(fs, dst) then r == NativeResult(fs, Failed)
                        else r.outcome == Completed && MovedBeside(fs, r.fs, src, dst)))
  {
    var e := EffectiveResolution(policy, decision);
    if dst !in fs {
      MoveOntoFreePlace(fs, src, dst, e, fault);
    } else {
      MoveStops(fs, src, dst, e, fault);
      if NativeConflict(fs, src, dst, fault) {
        MoveOverwrites(fs, src, dst, fault);
        MoveRenames(fs, src, dst, fault);
      }
    }
  }

  /** The tree went to the first free name beside the occupied place. */
  ghost predicate MovedBeside(fs: Fs, after: Fs, src: Path, dst: Path)
    requires dst != []
  {
    exists k: nat :: FreshSuffix(fs, dst, k) && MovedTo(fs, after, src, Candidate(dst, k))
  }

  // ------------------------------------- what a copy-then-delete move leaves

  /** The source tree was merged into what stood at `root`, and is gone from its old place. */
  ghost predicate MovedInto(fs: Fs, after: Fs, src: Path, root: Path) {
    && (forall p :: p in fs && src <= p ==> Relocate(src, root, p) in after && after[Relocate(src, root, p)] == fs[p])
    && (forall x :: x in after ==> !(src <= x))
    && (forall x :: !(src <= x) && !IsPlace(fs, src, root, x) ==> (x in after <==> x in fs) && (x in fs ==> after[x] == fs[x]))
  }

  lemma {:induction false} MergedThenRemoved(fs: Fs, src: Path, root: Path)
    requires !(src <= root) && !(root <= src)
    ensures MovedInto(fs, RemoveTree(WithCopy(fs, src, root), src), src, root)
    ensures (forall x :: root <= x ==> x !in fs) ==> MovedTo(fs, RemoveTree(WithCopy(fs, src, root), src), src, root)
  {
    WithCopyMerges(fs, src, root);
    RemovalSparesCopy(fs, src, root);
  }

  /** Nothing fails and nothing is cancelled, up to the end. */
  ghost predicate Calm(faults: nat -> Fault, cancelled: bool, finishFault: bool) {
    !cancelled && !finishFault && forall i: nat :: faults(i) == NoFault
  }

  /** The root of the destination can be written. */
  predicate HasParent(fs: Fs, dst: Path) {
    dst != [] && Parent(dst) in fs && fs[Parent(dst)].Directory?
  }

  lemma {:induction false} FallbackOntoFreePlace(fs: Fs, listing: Listing, src: Path, dst: Path, resolution: nat -> Resolution,
                                                 faults: nat -> Fault)
    requires WellFormed(fs) && Lists(fs, listing) && src in fs && !(src <= dst) && HasParent(fs, dst) && dst !in fs
    requires Calm(faults, false, false)
    ensures var items := Items(fs, listing, src);
            MovedTo(fs, FallbackMove(fs, items, src, dst, resolution, faults, |items|, false, false), src, dst)
  {
    var items := Items(fs, listing, src);
    SameRun(CopyState(fs, PlanFor(fs, src, dst), None), items, resolution, resolution, false, faults, NoFaults(), |items|);
    CopyOntoFreeRoot(fs, listing, src, dst, resolution, false);
    RootArrives(fs, src, dst);
    FinishedMove(fs, items, src, dst, resolution, faults, dst);
    FreeRootTakesTree(fs, src, dst);
  }

  lemma {:induction false} FreeRootTakesTree(fs: Fs, src: Path, root: Path)
    requires WellFormed(fs) && src in fs && !(src <= root) && root !in fs
    ensures MovedTo(fs, RemoveTree(WithCopy(fs, src, root), src), src, root)
  {
    FreeRootUnrelated(fs, src, root);
    FreeRootIsApart(fs, src, root);
    MergedThenRemoved(fs, src, root);
  }

  lemma {:induction false} RootArrives(fs: Fs, src: Path, root: Path)
    requires src in fs
    ensures root in WithCopy(fs, src, root)
  {
    WithCopyMerges(fs, src, root);
    assert Relocate(src, root, src) == root;
  }

  lemma {:induction false} FallbackOverwrites(fs: Fs, listing: Listing, src: Path, dst: Path, faults: nat -> Fault)
    requires WellFormed(fs) && Lists(fs, listing) && src in fs && !(src <= dst) && !(dst <= src) && HasParent(fs, dst)
    requires KindsAgree(fs, src, dst) && Calm(faults, false, false)
    ensures var items := Items(fs, listing, src);
            MovedInto(fs, FallbackMove(fs, items, src, dst, Always(Overwrite), faults, |items|, false, false), src, dst)
  {
    var items := Items(fs, listing, src);
    SameRun(CopyState(fs, PlanFor(fs, src, dst), None), items, Always(Overwrite), Always(Overwrite), false, faults, NoFaults(),
            |items|);
    OverwriteMerges(fs, listing, src, dst, Always(Overwrite), false);
    RootArrives(fs, src, dst);
    MergedThenRemoved(fs, src, dst);
  }

  lemma {:induction false} RenamedCopy(fs: Fs, listing: Listing, src: Path, dst: Path, root: Path)
    requires Copying(fs, listing, src, dst) && dst in fs && KindOf(fs[dst]) == KindOf(fs[src])
    requires NextCopyDestination(fs, dst) == Found(root)
    ensures var items := Items(fs, listing, src);
            RunItems(CopyState(fs, PlanFor(fs, src, dst), None), items, Always(RenameNew), false, NoFaults(), |items|)
              == Run(CopyState(WithCopy(fs, src, root), RenamedPlan(fs, src, dst, root), Some(root)), true, [])
  {
    RunRenamed(fs, listing, src, dst, root, Always(RenameNew), false, |Items(fs, listing, src)|);
    RenamedIsFreeSibling(fs, dst);
    OverlayAll(fs, listing, src, root);
  }

  lemma {:induction false} FallbackRenames(fs: Fs, listing: Listing, src: Path, dst: Path, faults: nat -> Fault)
    requires WellFormed(fs) && Lists(fs, listing) && src in fs && !(src <= dst) && HasParent(fs, dst)
    requires dst in fs && Alike(fs[src], fs[dst]) && HasFreshSuffix(fs, dst) && Calm(faults, false, false)
    ensures var items := Items(fs, listing, src);
            MovedBeside(fs, FallbackMove(fs, items, src, dst, Always(RenameNew), faults, |items|, false, false), src, dst)
  {
    var items := Items(fs, listing, src);
    FoundIffFresh(fs, dst);
    var k := FoundIsFresh(fs, dst);
    var root := Candidate(dst, k);
    SameRun(CopyState(fs, PlanFor(fs, src, dst), None), items, Always(RenameNew), Always(RenameNew), false, faults, NoFaults(),
            |items|);
    RenamedCopy(fs, listing, src, dst, root);
    RootArrives(fs, src, root);
    FinishedMove(fs, items, src, dst, Always(RenameNew), faults, root);
    FreshRootTakesTree(fs, src, dst, root);
  }

  /** A run that arrived at `root` without open conflicts is finished by removing the source. */
  lemma {:induction false} FinishedMove(fs: Fs, items: seq<Path>, src: Path, dst: Path, resolution: nat -> Resolution,
                                        faults: nat -> Fault, root: Path)
    requires var run := RunItems(CopyState(fs, PlanFor(fs, src, dst), None), items, resolution, false, faults, |items|);
             run.alive && run.deferred == [] && run.state.completedRoot == Some(root) && root in run.state.fs
    ensures FallbackMove(fs, items, src, dst, resolution, faults, |items|, false, false)
         == RemoveTree(RunItems(CopyState(fs, PlanFor(fs, src, dst), None), items, resolution, false, faults, |items|).state.fs, src)
  {
  }

  lemma {:induction false} FreshRootTakesTree(fs: Fs, src: Path, dst: Path, root: Path)
    requires WellFormed(fs) && src in fs && dst != [] && !(src <= dst) && NextCopyDestination(fs, dst) == Found(root)
    ensures MovedTo(fs, RemoveTree(WithCopy(fs, src, root), src), src, root)
  {
    RenamedIsFreeSibling(fs, dst);
    RenamedRootOutside(fs, src, dst, root);
    FreeRootTakesTree(fs, src, root);
  }

  /** Onto an occupied place, a move that skips or has to ask changes no entry, whatever fails. */
  lemma {:induction false} FallbackLeavesAlone(fs: Fs, listing: Listing, src: Path, dst: Path, e: Resolution, faults: nat -> Fault,
                                               n: nat, cancelled: bool, finishFault: bool)
    requires WellFormed(fs) && Lists(fs, listing) && src in fs && dst in fs && (e == Skip || e == Undecided)
    requires n <= |Items(fs, listing, src)|
    ensures Untouched(fs, FallbackMove(fs, Items(fs, listing, src), src, dst, Always(e), faults, n, cancelled, finishFault))
  {
    var items, s := Items(fs, listing, src), CopyState(fs, PlanFor(fs, src, dst), None);
    var run := RunItems(s, items, Always(e), false, faults, n);
    NeverClobbers(s, items, Always(e), false, faults, n);
    if run.alive && n == |items| && run.deferred == [] {
      AliveRunsClean(s, items, Always(e), faults, n);
      if e == Skip {
        SkippedRootNeverCompletes(fs, src, dst, items, n);
      } else {
        LaterRunsKeepVerdict(s, items, Always(e), NoFaults(), 1, |items|);
        OccupiedRootStep(fs, listing, src, dst, e);
      }
    }
  }

  lemma {:induction false} FallbackByPolicy(fs: Fs, items: seq<Path>, src: Path, dst: Path, policy: ConflictPolicy,
                                            decisions: nat -> Resolution, e: Resolution, faults: nat -> Fault, n: nat,
                                            cancelled: bool, finishFault: bool)
    requires n <= |items| && forall i: nat :: EffectiveResolution(policy, decisions(i)) == e
    ensures FallbackMove(fs, items, src, dst, (i: nat) => EffectiveResolution(policy, decisions(i)), faults, n, cancelled, finishFault)
         == FallbackMove(fs, items, src, dst, Always(e), faults, n, cancelled, finishFault)
  {
    PolicyRuns(CopyState(fs, PlanFor(fs, src, dst), None), items, policy, decisions, e, false, faults, n);
  }

  /** What a whole move leaves, for each policy without decisions and for one decision on every
      item: skipping and asking leave an occupied place and everything else alone; a free place
      takes the tree; overwriting takes it to the occupied place, where a native move replaces
      what was there and a copy merges into it; renaming takes it to the first free name. */
  ghost predicate MoveObeys(fs: Fs, src: Path, dst: Path, policy: ConflictPolicy, decisions: nat -> Resolution, calm: bool,
                            native: bool, after: Fs)
    requires dst != []
  {
    && (dst in fs && ((policy == SkipExisting && NoDecisions(decisions)) || AllDecided(decisions, Skip)) ==>
          Untouched(fs, after))
    && (dst in fs && (policy == Ask || policy == KeepNewer) && NoDecisions(decisions) ==> Untouched(fs, after))
    && (calm && dst !in fs && HasParent(fs, dst) ==> MovedTo(fs, after, src, dst))
    && (calm && dst in fs && !(dst <= src) && KindsAgree(fs, src, dst)
        && ((policy == OverwriteExisting && NoDecisions(decisions)) || AllDecided(decisions, Overwrite)) ==>
          if native then MovedTo(fs, after, src, dst) else MovedInto(fs, after, src, dst))
    && (calm && dst in fs && src in fs && Alike(fs[src], fs[dst]) && HasFreshSuffix(fs, dst)
        && ((policy == RenameIncoming && NoDecisions(decisions)) || AllDecided(decisions, RenameNew)) ==>
          MovedBeside(fs, after, src, dst))
  }

  lemma {:induction false} FallbackOutcome(fs: Fs, listing: Listing, src: Path, dst: Path, policy: ConflictPolicy,
                                           decisions: nat -> Resolution, faults: nat -> Fault, n: nat, cancelled: bool,
                                           finishFault: bool)
    requires WellFormed(fs) && Lists(fs, listing) && src in fs && dst != [] && !(src <= dst) && n <= |Items(fs, listing, src)|
    ensures var items := Items(fs, listing, src);
            MoveObeys(fs, src, dst, policy, decisions, Calm(faults, cancelled, finishFault) && n == |items|, false,
                      FallbackMove(fs, items, src, dst, (i: nat) => EffectiveResolution(policy, decisions(i)), faults, n,
                                   cancelled, finishFault))
  {
    var items := Items(fs, listing, src);
    if dst !in fs {
      if Calm(faults, cancelled, finishFault) && n == |items| && HasParent(fs, dst) {
        FallbackOntoFreePlace(fs, listing, src, dst, (i: nat) => EffectiveResolution(policy, decisions(i)), faults);
      }
    } else {
      assert Parent(dst) in fs && fs[Parent(dst)].Directory?;
      if (policy == SkipExisting && NoDecisions(decisions)) || AllDecided(decisions, Skip) {
        FallbackByPolicy(fs, items, src, dst, policy, decisions, Skip, faults, n, cancelled, finishFault);
        FallbackLeavesAlone(fs, listing, src, dst, Skip, faults, n, cancelled, finishFault);
      }
      if (policy == Ask || policy == KeepNewer) && NoDecisions(decisions) {
        FallbackByPolicy(fs, items, src, dst, policy, decisions, Undecided, faults, n, cancelled, finishFault);
        FallbackLeavesAlone(fs, listing, src, dst, Undecided, faults, n, cancelled, finishFault);
      }
      if Calm(faults, cancelled, finishFault) && n == |items| {
        FallbackOccupied(fs, listing, src, dst, policy, decisions, faults);
      }
    }
  }

  lemma {:induction false} NativeObeys(fs: Fs, src: Path, dst: Path, policy: ConflictPolicy, decisions: nat -> Resolution,
                                       fault: Fault)
    requires WellFormed(fs) && src in fs && dst != [] && !(src <= dst)
    ensures MoveObeys(fs, src, dst, policy, decisions, fault == NoFault, true,
                      NativeMove(fs, src, dst, EffectiveResolution(policy, decisions(0)), fault).fs)
  {
    NativeOutcome(fs, src, dst, policy, decisions(0), fault);
    assert Relocate(src, dst, src) == dst;
    assert dst in fs ==> Parent(dst) in fs;
  }

  lemma {:induction false} FallbackOccupied(fs: Fs, listing: Listing, src: Path, dst: Path, policy: ConflictPolicy,
                                            decisions: nat -> Resolution, faults: nat -> Fault)
    requires WellFormed(fs) && Lists(fs, listing) && src in fs && dst in fs && dst != [] && !(src <= dst)
    requires HasParent(fs, dst) && Calm(faults, false, false)
    ensures var items := Items(fs, listing, src);
            var after := FallbackMove(fs, items, src, dst, (i: nat) => EffectiveResolution(policy, decisions(i)), faults, |items|,
                                      false, false);
            && (!(dst <= src) && KindsAgree(fs, src, dst)
                && ((policy == OverwriteExisting && NoDecisions(decisions)) || AllDecided(decisions, Overwrite)) ==>
                  MovedInto(fs, after, src, dst))
            && (Alike(fs[src], fs[dst]) && HasFreshSuffix(fs, dst)
                && ((policy == RenameIncoming && NoDecisions(decisions)) || AllDecided(decisions, RenameNew)) ==>
                  MovedBeside(fs, after, src, dst))
  {
    var items := Items(fs, listing, src);
    if (policy == OverwriteExisting && NoDecisions(decisions)) || AllDecided(decisions, Overwrite) {
      FallbackByPolicy(fs, items, src, dst, policy, decisions, Overwrite, faults, |items|, false, false);
      if !(dst <= src) && KindsAgree(fs, src, dst) {
        FallbackOverwrites(fs, listing, src, dst, faults);
      }
    }
    if (policy == RenameIncoming && NoDecisions(decisions)) || AllDecided(decisions, RenameNew) {
      FallbackByPolicy(fs, items, src, dst, policy, decisions, RenameNew, faults, |items|, false, false);
      if Alike(fs[src], fs[dst]) && HasFreshSuffix(fs, dst) {
        FallbackRenames(fs, listing, src, dst, faults);
      }
    }
  }

  class MoveExecutor {
    const source: Path
    const destinationDirectory: Path
    /** Both sides can rename natively and no fallback is forced. */
    const nativePossible: bool
    const copy: CopyExecutor
    var fallback: bool

    constructor (source: Path, destinationDirectory: Path, nativePossible: bool)
      ensures this.source == source && this.destinationDirectory == destinationDirectory
      ensures this.nativePossible == nativePossible && !fallback && Valid() && fresh(copy)
    {
      this.source, this.destinationDirectory, this.nativePossible := source, destinationDirectory, nativePossible;
      copy := new CopyExecutor(source, destinationDirectory, CopyLink, false);
      fallback := false;
    }

    predicate Valid()
      reads this, copy
    {
      && copy.source == source && copy.destinationDirectory == destinationDirectory
      && copy.symlinks == CopyLink && !copy.continueOnError && copy.completedRoot == None
    }

    /** A move between two providers is rejected here, as are a destination that is the
        source and one inside it. */
    method Plan(fs: Fs, listing: Listing, resolve: Path -> MaybePath, id: Path -> nat, sameFilesystem: bool)
        returns (r: PlanResult)
      requires WellFormed(fs) && Lists(fs, listing) && Resolves(fs, resolve)
      requires Valid() && destinationDirectory != []
      modifies this`fallback, copy
      ensures Valid()
      ensures r.Planned? <==> Accepted(fs, listing, source, destinationDirectory)
      ensures r.Planned? ==> fallback == !(nativePossible && sameFilesystem)
      ensures r.Planned? && fallback ==>
        && r.items == Items(fs, listing, source)
        && copy.planned == PlanFor(fs, source, Destination(source, destinationDirectory))
      ensures r.Planned? && !fallback ==> r.items == [source]
    {
      if source !in fs {
        return Rejected(NotFound);
      }
      if |source| < 2 {
        return Rejected(NoName);
      }
      if source[0] != destinationDirectory[0] {
        return Rejected(OtherProvider);
      }
      if source <= Destination(source, destinationDirectory) {
        return Rejected(InsideSource);
      }
      fallback := !(nativePossible && sameFilesystem);
      if fallback {
        r := copy.Plan(fs, listing, resolve, id);
      } else {
        r := Planned([source]);
      }
    }

    /** The place that the source is headed for. */
    function Target(): Path
      requires source != []
    {
      Destination(source, destinationDirectory)
    }

    /** The source is there, and its destination is not the source and not inside it. */
    ghost predicate Movable(fs: Fs) {
      WellFormed(fs) && source in fs && source != [] && !(source <= Target())
    }

    /** The one item of a native move. */
    method ExecuteNative(fs: Fs, policy: ConflictPolicy, resolution: Resolution, fault: Fault)
        returns (after: Fs, outcome: Outcome)
      requires source != []
      ensures NativeResult(after, outcome)
           == NativeMove(fs, source, Destination(source, destinationDirectory), EffectiveResolution(policy, resolution), fault)
      // what that is, for a source whose destination is not inside it
      ensures Movable(fs) && Target() !in fs ==>
                if Receptive(fs, Target(), fault) then outcome == Completed && MovedTo(fs, after, source, Target())
                else outcome == Failed && after == fs
      ensures Movable(fs) && Target() in fs && !NativeConflict(fs, source, Target(), fault) ==> outcome == Failed && after == fs
      ensures Movable(fs) && NativeConflict(fs, source, Target(), fault)
              && (resolution == Skip || (resolution == Undecided && policy == SkipExisting)) ==>
                outcome == Skipped && after == fs
      ensures Movable(fs) && NativeConflict(fs, source, Target(), fault)
              && resolution == Undecided && (policy == Ask || policy == KeepNewer) ==>
                outcome == Conflict && after == fs
      ensures Movable(fs) && NativeConflict(fs, source, Target(), fault)
              && (resolution == Overwrite || (resolution == Undecided && policy == OverwriteExisting)) ==>
                if fault.WriteFault? || Target() <= source then outcome == Failed && TreeRemoved(fs, after, Target())
                else outcome == Completed && MovedTo(fs, after, source, Target())
      ensures Movable(fs) && NativeConflict(fs, source, Target(), fault)
              && (resolution == RenameNew || (resolution == Undecided && policy == RenameIncoming)) ==>
                if fault.WriteFault? || !HasFreshSuffix(fs, Target()) then outcome == Failed && after == fs
                else outcome == Completed && MovedBeside(fs, after, source, Target())
    {
      if Movable(fs) {
        NativeOutcome(fs, source, Target(), policy, resolution, fault);
      }
      var destination, now := Destination(source, destinationDirectory), fs;
      if destination in fs {
        if fault.PrepareFault? || source !in fs || KindOf(fs[source]) != KindOf(fs[destination]) {
          return fs, Failed;
        }
        match EffectiveResolution(policy, resolution) {
          case Undecided => return fs, Conflict;
          case Skip => return fs, Skipped;
          case Overwrite => now := RemoveTree(fs, destination);
          case RenameNew =>
            var renamed := SearchCopyDestination(fs, destination);
            if renamed.Exhausted? {
              return fs, Failed;
            }
            destination := renamed.destination;
        }
      }
      if fault.WriteFault? || !Renamable(now, source, destination) {
        return now, Failed;
      }
      return RenameTree(now, source, destination), Completed;
    }

    /** Removes the source of a copied tree, or keeps it. */
    method Finish(fs: Fs, cancelled: bool, fault: bool) returns (after: Fs)
      ensures after == if fallback then FinishMove(copy.State(fs), source, cancelled, fault) else fs
    {
      if !fallback || fault || cancelled {
        return fs;
      }
      match copy.completedRoot {
        case None => return fs;
        case Some(destination) =>
          if destination !in fs {
            return fs;
          }
          return RemoveTree(fs, source);
      }
    }

    /** The first `n` items of a copy-then-delete move, and the end if it is reached. */
    method RunFallback(fs: Fs, items: seq<Path>, policy: ConflictPolicy, decisions: nat -> Resolution, faults: nat -> Fault,
                       n: nat, cancelled: bool, finishFault: bool) returns (after: Fs)
      requires Valid() && fallback && source != [] && n <= |items|
      requires copy.planned == PlanFor(fs, source, Destination(source, destinationDirectory))
      modifies copy
      ensures fallback && after == FallbackMove(fs, items, source, Destination(source, destinationDirectory),
                                                (i: nat) => EffectiveResolution(policy, decisions(i)), faults, n, cancelled,
                                                finishFault)
    {
      var alive, deferred;
      after, alive, deferred := RunPlan(copy, fs, items, policy, decisions, faults, n);
      if n == |items| && alive && deferred == [] {
        after := Finish(after, cancelled, finishFault);
      }
    }

    /** The whole operation: plan, the first `n` items, and the end if it is reached. */
    method Run(fs: Fs, listing: Listing, resolve: Path -> MaybePath, id: Path -> nat, sameFilesystem: bool,
               policy: ConflictPolicy, decisions: nat -> Resolution, faults: nat -> Fault, n: nat, cancelled: bool,
               finishFault: bool) returns (accepted: bool, after: Fs)
      requires WellFormed(fs) && Lists(fs, listing) && Resolves(fs, resolve)
      requires Valid() && destinationDirectory != []
      modifies this`fallback, copy
      ensures accepted <==> Accepted(fs, listing, source, destinationDirectory)
      ensures !accepted ==> after == fs
      ensures accepted && fallback ==>
        var items := Items(fs, listing, source);
        after == FallbackMove(fs, items, source, Destination(source, destinationDirectory),
                              (i: nat) => EffectiveResolution(policy, decisions(i)), faults,
                              if n < |items| then n else |items|, cancelled, finishFault)
      ensures accepted && !fallback ==>
        after == if n == 0 then fs
                 else NativeMove(fs, source, Destination(source, destinationDirectory),
                                 EffectiveResolution(policy, decisions(0)), faults(0)).fs
      ensures accepted ==>
                MoveObeys(fs, source, Target(), policy, decisions,
                          Calm(faults, cancelled, finishFault) && n >= |Items(fs, listing, source)|, !fallback, after)
    {
      after := fs;
      var plan := Plan(fs, listing, resolve, id, sameFilesystem);
      accepted := plan.Planned?;
      if !accepted {
        return;
      }
      if fallback {
        var m := if n < |plan.items| then n else |plan.items|;
        after := RunFallback(fs, plan.items, policy, decisions, faults, m, cancelled, finishFault);
        FallbackOutcome(fs, listing, source, Target(), policy, decisions, faults, m, cancelled, finishFault);
      } else if n > 0 {
        var outcome;
        after, outcome := ExecuteNative(fs, policy, decisions(0), faults(0));
        NativeObeys(fs, source, Target(), policy, decisions, faults(0));
      }
    }
  }
}
