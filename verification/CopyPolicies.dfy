/** Whole copies by policy: what a user who chose a policy finds afterwards. */
module CopyPolicies {
  import opened FileTree
  import opened FreshName
  import opened CopyOperation
  import opened CopyRun
  import opened CopyTheorems
  import opened MoveOperation
  import opened SkipRun
  import opened AskRun

  /** The tree was copied to the first free name beside the occupied place. */
  ghost predicate CopiedBeside(fs: Fs, after: Fs, src: Path, dst: Path)
    requires dst != []
  {
    exists k: nat :: FreshSuffix(fs, dst, k) && Merged(fs, after, src, Candidate(dst, k))
  }

  /** Exactly the items whose places are occupied. */
  ghost predicate AllOccupied(fs: Fs, src: Path, dst: Path, items: seq<Path>) {
    forall p :: p in items <==> p in fs && src <= p && Relocate(src, dst, p) in fs
  }

  /** What the first pass of a copy leaves when nothing fails, for each policy without decisions
      and for one decision on every item. */
  ghost predicate CopyObeys(fs: Fs, src: Path, dst: Path, policy: ConflictPolicy, decisions: nat -> Resolution, after: Fs,
                            alive: bool, deferred: seq<Path>)
    requires dst != []
  {
    && (dst !in fs ==> alive && deferred == [] && Merged(fs, after, src, dst))
    && (dst in fs && !(dst <= src) && KindsAgree(fs, src, dst)
        && ((policy == SkipExisting && NoDecisions(decisions)) || AllDecided(decisions, Skip)) ==>
          alive && deferred == [] && FilledIn(fs, after, src, dst))
    && (dst in fs && !(dst <= src)
        && ((policy == OverwriteExisting && NoDecisions(decisions)) || AllDecided(decisions, Overwrite)) ==>
          (alive <==> KindsAgree(fs, src, dst)) && (alive ==> deferred == [] && Merged(fs, after, src, dst)))
    && (dst in fs && src in fs && Alike(fs[src], fs[dst]) && HasFreshSuffix(fs, dst)
        && ((policy == RenameIncoming && NoDecisions(decisions)) || AllDecided(decisions, RenameNew)) ==>
          alive && deferred == [] && CopiedBeside(fs, after, src, dst))
    && (dst in fs && !(dst <= src) && KindsAgree(fs, src, dst) && (policy == Ask || policy == KeepNewer) && NoDecisions(decisions) ==>
          alive && FilledIn(fs, after, src, dst) && AllOccupied(fs, src, dst, deferred))
  }

  /** Plans a copy of a tree and executes the plan. */
  method CopyTree(executor: CopyExecutor, fs: Fs, listing: Listing, resolve: Path -> MaybePath, id: Path -> nat,
                  policy: ConflictPolicy, decisions: nat -> Resolution, faults: nat -> Fault)
      returns (planned: bool, after: Fs, alive: bool, deferred: seq<Path>)
    requires WellFormed(fs) && Lists(fs, listing) && Resolves(fs, resolve)
    requires executor.symlinks == CopyLink && executor.completedRoot == None && !executor.continueOnError
    modifies executor
    ensures planned <==> executor.source in fs && |executor.source| >= 2
                         && !(executor.source <= executor.destinationDirectory + [LastName(executor.source)])
    ensures !planned ==> after == fs
    ensures policy != OverwriteExisting && (forall i: nat :: decisions(i) != Overwrite) ==> Untouched(fs, after)
    ensures planned && (forall i: nat :: faults(i) == NoFault)
            && HasParent(fs, executor.destinationDirectory + [LastName(executor.source)]) ==>
              CopyObeys(fs, executor.source, executor.destinationDirectory + [LastName(executor.source)], policy, decisions,
                        after, alive, deferred)
  {
    after, alive, deferred := fs, true, [];
    var plan := executor.Plan(fs, listing, resolve, id);
    planned := plan.Planned?;
    if planned {
      after, alive, deferred := RunPlan(executor, fs, plan.items, policy, decisions, faults, |plan.items|);
      ghost var dst := executor.destinationDirectory + [LastName(executor.source)];
      if (forall i: nat :: faults(i) == NoFault) && HasParent(fs, dst) {
        CopyOutcome(fs, listing, executor.source, dst, policy, decisions, faults);
      }
    }
  }

  ghost function FirstPass(fs: Fs, listing: Listing, src: Path, dst: Path, resolution: nat -> Resolution, faults: nat -> Fault): Run
    requires WellFormed(fs) && Lists(fs, listing) && src in fs
  {
    RunItems(CopyState(fs, PlanFor(fs, src, dst), None), Items(fs, listing, src), resolution, false, faults,
             |Items(fs, listing, src)|)
  }

  lemma {:induction false} CopyOutcome(fs: Fs, listing: Listing, src: Path, dst: Path, policy: ConflictPolicy,
                                       decisions: nat -> Resolution, faults: nat -> Fault)
    requires Copying(fs, listing, src, dst) && !(src <= dst) && forall i: nat :: faults(i) == NoFault
    ensures var run := FirstPass(fs, listing, src, dst, (i: nat) => EffectiveResolution(policy, decisions(i)), faults);
            CopyObeys(fs, src, dst, policy, decisions, run.state.fs, run.alive, run.deferred)
  {
    var resolution := (i: nat) => EffectiveResolution(policy, decisions(i));
    var items, s := Items(fs, listing, src), CopyState(fs, PlanFor(fs, src, dst), None);
    SameRun(s, items, resolution, resolution, false, faults, NoFaults(), |items|);
    PolicyPass(s, items, policy, decisions, false, NoFaults(), |items|);
    if dst !in fs {
      FreeCopy(fs, listing, src, dst, resolution);
    } else {
      if !(dst <= src) {
        UnrelatedCopies(fs, listing, src, dst);
      }
      if Alike(fs[src], fs[dst]) && HasFreshSuffix(fs, dst) {
        RenamedCopies(fs, listing, src, dst);
      }
    }
  }

  lemma {:induction false} FreeCopy(fs: Fs, listing: Listing, src: Path, dst: Path, resolution: nat -> Resolution)
    requires Copying(fs, listing, src, dst) && dst !in fs
    ensures var run := FirstPass(fs, listing, src, dst, resolution, NoFaults());
            run.alive && run.deferred == [] && Merged(fs, run.state.fs, src, dst)
  {
    CopyOntoFreeRoot(fs, listing, src, dst, resolution, false);
    WithCopyMerges(fs, src, dst);
  }

  lemma {:induction false} UnrelatedCopies(fs: Fs, listing: Listing, src: Path, dst: Path)
    requires Copying(fs, listing, src, dst) && dst in fs && !(src <= dst) && !(dst <= src)
    ensures var skipped := FirstPass(fs, listing, src, dst, Always(Skip), NoFaults());
            KindsAgree(fs, src, dst) ==> skipped.alive && FilledIn(fs, skipped.state.fs, src, dst)
    ensures var overwritten := FirstPass(fs, listing, src, dst, Always(Overwrite), NoFaults());
            (overwritten.alive <==> KindsAgree(fs, src, dst))
            && (overwritten.alive ==> Merged(fs, overwritten.state.fs, src, dst))
    ensures var asked := FirstPass(fs, listing, src, dst, Always(Undecided), NoFaults());
            KindsAgree(fs, src, dst) ==>
              asked.alive && FilledIn(fs, asked.state.fs, src, dst) && AllOccupied(fs, src, dst, asked.deferred)
  {
    OverwriteMerges(fs, listing, src, dst, Always(Overwrite), false);
    WithCopyMerges(fs, src, dst);
    WithCopyFills(fs, src, dst);
    if KindsAgree(fs, src, dst) {
      SkipFillsGaps(fs, listing, src, dst);
      AskingFillsGaps(fs, listing, src, dst);
      DeferredShape(fs, listing, src, dst);
    }
  }

  lemma {:induction false} RenamedCopies(fs: Fs, listing: Listing, src: Path, dst: Path)
    requires Copying(fs, listing, src, dst) && dst in fs && Alike(fs[src], fs[dst]) && HasFreshSuffix(fs, dst)
    ensures var run := FirstPass(fs, listing, src, dst, Always(RenameNew), NoFaults());
            run.alive && run.deferred == [] && CopiedBeside(fs, run.state.fs, src, dst)
  {
    FoundIffFresh(fs, dst);
    var k := FoundIsFresh(fs, dst);
    RenamedCopy(fs, listing, src, dst, Candidate(dst, k));
    WithCopyMerges(fs, src, Candidate(dst, k));
  }
}
