/** Whole copy runs: the scheduler executes the planned items in order, records a warning
    or a deferred conflict and goes on, and stops at the first other error. */
module CopyRun {
  import opened FileTree
  import opened FreshName
  import opened CopyOperation

  /** `deferred` are the items whose conflict awaits a decision, in order. */
  datatype Run = Run(state: CopyState, alive: bool, deferred: seq<Path>)

  /** The run after the first `n` items. `resolution(i)` is the effective resolution of item
      `i` and `faults(i)` the provider failure it meets. */
  function RunItems(s: CopyState, items: seq<Path>, resolution: nat -> Resolution, continueOnError: bool,
                    faults: nat -> Fault, n: nat): Run
    requires n <= |items|
  {
    if n == 0 then Run(s, true, [])
    else
      var run := RunItems(s, items, resolution, continueOnError, faults, n - 1);
      if !run.alive then run
      else
        var step := ExecuteStep(run.state, items[n - 1], resolution(n - 1), continueOnError, faults(n - 1));
        Run(step.state, step.outcome != Failed, run.deferred + if step.outcome == Conflict then [items[n - 1]] else [])
  }

  /** The run that step `n` makes of `before`. */
  ghost predicate StepTo(items: seq<Path>, resolution: nat -> Resolution, c: bool, faults: nat -> Fault, n: nat, before: Run,
                         after: Run)
    requires n < |items|
  {
    match before
    case Run(state, alive, deferred) =>
      && alive
      && var step := ExecuteStep(state, items[n], resolution(n), c, faults(n));
         after == Run(step.state, step.outcome != Failed, deferred + if step.outcome == Conflict then [items[n]] else [])
  }

  lemma {:induction false} StepReached(items: seq<Path>, resolution: nat -> Resolution, c: bool, faults: nat -> Fault, n: nat,
                                       s: CopyState, t: CopyState, deferred: seq<Path>)
    requires n < |items| && ExecuteStep(s, items[n], resolution(n), c, faults(n)) == StepResult(t, Completed)
    ensures StepTo(items, resolution, c, faults, n, Run(s, true, deferred), Run(t, true, deferred))
  {
  }

  lemma {:induction false} RunNext(s: CopyState, items: seq<Path>, resolution: nat -> Resolution, c: bool,
                                   faults: nat -> Fault, n: nat)
    requires n < |items|
    ensures var run := RunItems(s, items, resolution, c, faults, n);
            var step := ExecuteStep(run.state, items[n], resolution(n), c, faults(n));
            run.alive && step.outcome == Completed ==>
              RunItems(s, items, resolution, c, faults, n + 1) == Run(step.state, true, run.deferred + [])
  {
  }

  /** A run is any sequence of states that follow one another. */
  lemma {:induction false} RunFollows(s: CopyState, items: seq<Path>, resolution: nat -> Resolution, c: bool,
                                      faults: nat -> Fault, trace: nat -> Run, n: nat)
    requires n <= |items| && trace(0) == Run(s, true, [])
    requires forall k: nat :: k < n ==> StepTo(items, resolution, c, faults, k, trace(k), trace(k + 1))
    ensures RunItems(s, items, resolution, c, faults, n) == trace(n)
  {
    if n > 0 {
      RunFollows(s, items, resolution, c, faults, trace, n - 1);
      assert StepTo(items, resolution, c, faults, n - 1, trace(n - 1), trace(n - 1 + 1));
    }
  }

  function Always(r: Resolution): nat -> Resolution {
    _ => r
  }

  lemma {:induction false} StepSpares(s: CopyState, item: Path, r: Resolution, c: bool, fault: Fault)
    requires r != Overwrite
    ensures var after := ExecuteStep(s, item, r, c, fault).state.fs;
            forall q :: q in s.fs ==> q in after && after[q] == s.fs[q]
  {
  }

  /** Unless an item is told to overwrite, no entry that existed is ever touched: whatever
      is skipped, renamed or undecided, wherever the run stops, and whatever fails. */
  lemma {:induction false} NeverClobbers(s: CopyState, items: seq<Path>, resolution: nat -> Resolution, c: bool,
                                         faults: nat -> Fault, n: nat)
    requires n <= |items| && forall i :: resolution(i) != Overwrite
    ensures var after := RunItems(s, items, resolution, c, faults, n).state.fs;
            forall q :: q in s.fs ==> q in after && after[q] == s.fs[q]
  {
    if n > 0 {
      NeverClobbers(s, items, resolution, c, faults, n - 1);
      StepSpares(RunItems(s, items, resolution, c, faults, n - 1).state, items[n - 1], resolution(n - 1), c, faults(n - 1));
    }
  }

  /** Only the resolutions and failures themselves matter to a run. */
  lemma {:induction false} SameRun(s: CopyState, items: seq<Path>, f: nat -> Resolution, g: nat -> Resolution, c: bool,
                                   faults: nat -> Fault, others: nat -> Fault, n: nat)
    requires n <= |items| && forall i: nat :: i < n ==> f(i) == g(i) && faults(i) == others(i)
    ensures RunItems(s, items, f, c, faults, n) == RunItems(s, items, g, c, others, n)
  {
    if n > 0 {
      SameRun(s, items, f, g, c, faults, others, n - 1);
    }
  }

  /** No item is put aside that has a resolution. */
  lemma {:induction false} NoneDeferred(s: CopyState, items: seq<Path>, resolution: nat -> Resolution, c: bool,
                                        faults: nat -> Fault, n: nat)
    requires n <= |items| && forall i: nat :: i < n ==> resolution(i) != Undecided
    ensures RunItems(s, items, resolution, c, faults, n).deferred == []
  {
    if n > 0 {
      NoneDeferred(s, items, resolution, c, faults, n - 1);
      var run := RunItems(s, items, resolution, c, faults, n - 1);
      DecidedStep(run.state, items[n - 1], resolution(n - 1), c, faults(n - 1));
    }
  }

  lemma {:induction false} DecidedStep(s: CopyState, item: Path, r: Resolution, c: bool, fault: Fault)
    requires r != Undecided
    ensures ExecuteStep(s, item, r, c, fault).outcome != Conflict
  {
  }

  /** No item carries a decision of its own. */
  ghost predicate NoDecisions(decisions: nat -> Resolution) {
    forall i: nat :: decisions(i) == Undecided
  }

  /** Every item carries the same decision. */
  ghost predicate AllDecided(decisions: nat -> Resolution, r: Resolution) {
    forall i: nat :: decisions(i) == r
  }

  lemma {:induction false} PolicyRuns(s: CopyState, items: seq<Path>, policy: ConflictPolicy, decisions: nat -> Resolution,
                                      r: Resolution, c: bool, faults: nat -> Fault, n: nat)
    requires n <= |items| && forall i: nat :: EffectiveResolution(policy, decisions(i)) == r
    ensures RunItems(s, items, (i: nat) => EffectiveResolution(policy, decisions(i)), c, faults, n)
         == RunItems(s, items, Always(r), c, faults, n)
    ensures r != Undecided ==> RunItems(s, items, Always(r), c, faults, n).deferred == []
  {
    SameRun(s, items, (i: nat) => EffectiveResolution(policy, decisions(i)), Always(r), c, faults, faults, n);
    if r != Undecided {
      NoneDeferred(s, items, Always(r), c, faults, n);
    }
  }

  lemma {:induction false} PolicyPass(s: CopyState, items: seq<Path>, policy: ConflictPolicy, decisions: nat -> Resolution,
                                      c: bool, faults: nat -> Fault, n: nat)
    requires n <= |items|
    ensures var run := RunItems(s, items, (i: nat) => EffectiveResolution(policy, decisions(i)), c, faults, n);
            && ((policy == SkipExisting && NoDecisions(decisions)) || AllDecided(decisions, Skip) ==>
                  run == RunItems(s, items, Always(Skip), c, faults, n) && run.deferred == [])
            && ((policy == OverwriteExisting && NoDecisions(decisions)) || AllDecided(decisions, Overwrite) ==>
                  run == RunItems(s, items, Always(Overwrite), c, faults, n) && run.deferred == [])
            && ((policy == RenameIncoming && NoDecisions(decisions)) || AllDecided(decisions, RenameNew) ==>
                  run == RunItems(s, items, Always(RenameNew), c, faults, n) && run.deferred == [])
            && ((policy == Ask || policy == KeepNewer) && NoDecisions(decisions) ==>
                  run == RunItems(s, items, Always(Undecided), c, faults, n))
            && (policy != OverwriteExisting && (forall i: nat :: decisions(i) != Overwrite) ==> Untouched(s.fs, run.state.fs))
  {
    if (policy == SkipExisting && NoDecisions(decisions)) || AllDecided(decisions, Skip) {
      PolicyRuns(s, items, policy, decisions, Skip, c, faults, n);
    }
    if (policy == OverwriteExisting && NoDecisions(decisions)) || AllDecided(decisions, Overwrite) {
      PolicyRuns(s, items, policy, decisions, Overwrite, c, faults, n);
    }
    if (policy == RenameIncoming && NoDecisions(decisions)) || AllDecided(decisions, RenameNew) {
      PolicyRuns(s, items, policy, decisions, RenameNew, c, faults, n);
    }
    if (policy == Ask || policy == KeepNewer) && NoDecisions(decisions) {
      PolicyRuns(s, items, policy, decisions, Undecided, c, faults, n);
    }
    if policy != OverwriteExisting && (forall i: nat :: decisions(i) != Overwrite) {
      NeverClobbers(s, items, (i: nat) => EffectiveResolution(policy, decisions(i)), c, faults, n);
    }
  }

  /** The scheduler's loop over the plan. */
  method RunPlan(executor: CopyExecutor, fs: Fs, items: seq<Path>, policy: ConflictPolicy, decisions: nat -> Resolution,
                 faults: nat -> Fault, n: nat) returns (after: Fs, alive: bool, deferred: seq<Path>)
    requires n <= |items|
    modifies executor
    ensures Run(executor.State(after), alive, deferred)
         == RunItems(old(executor.State(fs)), items, (i: nat) => EffectiveResolution(policy, decisions(i)),
                     executor.continueOnError, faults, n)
    // what each policy means for a whole pass, and that a decision for every item wins over it
    ensures (policy == SkipExisting && NoDecisions(decisions)) || AllDecided(decisions, Skip) ==>
              Run(executor.State(after), alive, deferred)
                == RunItems(old(executor.State(fs)), items, Always(Skip), executor.continueOnError, faults, n)
              && deferred == []
    ensures (policy == OverwriteExisting && NoDecisions(decisions)) || AllDecided(decisions, Overwrite) ==>
              Run(executor.State(after), alive, deferred)
                == RunItems(old(executor.State(fs)), items, Always(Overwrite), executor.continueOnError, faults, n)
              && deferred == []
    ensures (policy == RenameIncoming && NoDecisions(decisions)) || AllDecided(decisions, RenameNew) ==>
              Run(executor.State(after), alive, deferred)
                == RunItems(old(executor.State(fs)), items, Always(RenameNew), executor.continueOnError, faults, n)
              && deferred == []
    ensures (policy == Ask || policy == KeepNewer) && NoDecisions(decisions) ==>
              Run(executor.State(after), alive, deferred)
                == RunItems(old(executor.State(fs)), items, Always(Undecided), executor.continueOnError, faults, n)
    ensures policy != OverwriteExisting && (forall i: nat :: decisions(i) != Overwrite) ==> Untouched(fs, after)
  {
    PolicyPass(executor.State(fs), items, policy, decisions, executor.continueOnError, faults, n);
    after, alive, deferred := fs, true, [];
    ghost var s := executor.State(fs);
    ghost var resolution := (i: nat) => EffectiveResolution(policy, decisions(i));
    for i := 0 to n
      invariant Run(executor.State(after), alive, deferred)
             == RunItems(s, items, resolution, executor.continueOnError, faults, i)
    {
      if alive {
        var outcome;
        after, outcome := executor.Execute(after, items[i], policy, decisions(i), faults(i));
        alive := outcome != Failed;
        deferred := deferred + if outcome == Conflict then [items[i]] else [];
      }
    }
  }

  // ------------------------------------------------------ copying item by item

  ghost predicate ItemsOf(fs: Fs, src: Path, items: seq<Path>) {
    forall i :: 0 <= i < |items| ==> items[i] in fs && src <= items[i]
  }

  /** `fs` with the first `n` items placed below `dst`. */
  ghost function Overlay(fs: Fs, src: Path, dst: Path, items: seq<Path>, n: nat): Fs
    requires n <= |items| && ItemsOf(fs, src, items)
  {
    if n == 0 then fs
    else Overlay(fs, src, dst, items, n - 1)[Relocate(src, dst, items[n - 1]) := fs[items[n - 1]]]
  }

  lemma {:induction false} RelocateBack(src: Path, dst: Path, p: Path)
    requires src <= p
    ensures dst <= Relocate(src, dst, p)
    ensures Relocate(dst, src, Relocate(src, dst, p)) == p
  {
    assert Relocate(src, dst, p)[|dst|..] == p[|src|..];
  }

  lemma {:induction false} RelocateParent(src: Path, dst: Path, p: Path)
    requires src < p
    ensures p != [] && src <= Parent(p)
    ensures Relocate(src, dst, p) != [] && Parent(Relocate(src, dst, p)) == Relocate(src, dst, Parent(p))
  {
    assert p == src + p[|src|..];
    assert Parent(p)[|src|..] == p[|src|..][..|p| - |src| - 1];
  }

  ghost predicate Hit(src: Path, dst: Path, items: seq<Path>, n: nat, x: Path)
    requires n <= |items|
  {
    dst <= x && Relocate(dst, src, x) in items[..n]
  }

  lemma {:induction false} OverlayPoint(fs: Fs, src: Path, dst: Path, items: seq<Path>, n: nat, x: Path)
    requires n <= |items| && ItemsOf(fs, src, items)
    ensures var o := Overlay(fs, src, dst, items, n);
            if Hit(src, dst, items, n, x)
            then Relocate(dst, src, x) in fs && x in o && o[x] == fs[Relocate(dst, src, x)]
            else (x in o <==> x in fs) && (x in fs ==> o[x] == fs[x])
  {
    if n > 0 {
      OverlayPoint(fs, src, dst, items, n - 1, x);
      var p := items[n - 1];
      assert items[..n] == items[..n - 1] + [p];
      RelocateBack(src, dst, p);
      if dst <= x {
        RelocateBack(dst, src, x);
      }
    }
  }

  /** No entry of the source tree lies at or below the destination root. */
  ghost predicate Apart(fs: Fs, src: Path, dst: Path) {
    forall p :: p in fs && src <= p ==> !(dst <= p)
  }

  lemma {:induction false} FreeRootIsApart(fs: Fs, src: Path, dst: Path)
    requires WellFormed(fs) && dst !in fs
    ensures Apart(fs, src, dst)
    ensures forall x :: dst <= x ==> x !in fs
  {
    forall x | dst <= x && x in fs
      ensures false
    {
      AncestorsAreDirectories(fs, dst, x);
    }
  }

  lemma {:induction false} UnrelatedRootIsApart(fs: Fs, src: Path, dst: Path)
    requires !(src <= dst) && !(dst <= src)
    ensures Apart(fs, src, dst)
  {
    forall p | p in fs && src <= p
      ensures !(dst <= p)
    {
      if dst <= p {
        PrefixesCompare(src, dst, p);
      }
    }
  }

  /** The standing assumptions of a copy that follows no links. */
  ghost predicate Copying(fs: Fs, listing: Listing, src: Path, dst: Path) {
    && WellFormed(fs) && Lists(fs, listing) && src in fs
    && dst != [] && Parent(dst) in fs && fs[Parent(dst)].Directory?
  }

  ghost function Items(fs: Fs, listing: Listing, src: Path): (items: seq<Path>)
    requires WellFormed(fs) && Lists(fs, listing) && src in fs
    ensures ItemsOf(fs, src, items) && |items| > 0 && items[0] == src
    ensures NoDuplicates(items)
    ensures ParentsFirst(src, items)
    ensures forall p :: p in items <==> p in fs && src <= p
  {
    WalkCoversTree(fs, listing, false, src);
    PreOrderPutsParentsFirst(fs, listing, src);
    var items := Walk(fs, listing, false, src);
    assert forall i :: 0 <= i < |items| ==> items[i] in items;
    items
  }

  ghost function Copied(fs: Fs, listing: Listing, src: Path, dst: Path, n: nat): CopyState
    requires Copying(fs, listing, src, dst) && n <= |Items(fs, listing, src)|
  {
    CopyState(Overlay(fs, src, dst, Items(fs, listing, src), n), PlanFor(fs, src, dst),
              if n == 0 then None else Some(dst))
  }

  /** What the file system holds around item `n` when its turn comes. */
  lemma {:induction false} AroundItem(fs: Fs, listing: Listing, src: Path, dst: Path, n: nat)
    requires Copying(fs, listing, src, dst) && Apart(fs, src, dst) && n < |Items(fs, listing, src)|
    ensures var items := Items(fs, listing, src);
            var o, p := Overlay(fs, src, dst, items, n), items[n];
            var d := Relocate(src, dst, p);
            && p in o && o[p] == fs[p]
            && (d in o <==> d in fs) && (d in fs ==> o[d] == fs[d])
            && d != [] && Parent(d) in o && o[Parent(d)].Directory?
  {
    var items := Items(fs, listing, src);
    var p := items[n];
    var d := Relocate(src, dst, p);
    OverlayPoint(fs, src, dst, items, n, p);
    RelocateBack(src, dst, p);
    assert p !in items[..n];
    OverlayPoint(fs, src, dst, items, n, d);
    if p == src {
      assert d == dst;
      OverlayPoint(fs, src, dst, items, n, Parent(dst));
    } else {
      RelocateParent(src, dst, p);
      assert Parent(p) in items[..n];
      RelocateBack(src, dst, Parent(p));
      OverlayPoint(fs, src, dst, items, n, Parent(d));
    }
  }

  lemma {:induction false} StepCompletes(s: CopyState, p: Path, r: Resolution, c: bool)
    requires p in s.planned && p in s.fs
    requires s.planned[p].source == p && s.planned[p].kind == KindOf(s.fs[p])
    requires var d := s.planned[p].destination;
             && d != [] && d != p && Parent(d) in s.fs && s.fs[Parent(d)].Directory?
             && (d in s.fs ==> r == Overwrite && KindOf(s.fs[d]) == KindOf(s.fs[p]))
    ensures var d := s.planned[p].destination;
            ExecuteStep(s, p, r, c, NoFault)
              == StepResult(CopyState(s.fs[d := s.fs[p]], s.planned,
                                      if s.planned[p].isRoot then Some(d) else s.completedRoot), Completed)
  {
    var plan := s.planned[p];
    var d := plan.destination;
    if d in s.fs && plan.kind == SymlinkKind {
      assert (s.fs - {d})[d := s.fs[p]] == s.fs[d := s.fs[p]];
    } else if d in s.fs && plan.kind == DirectoryKind {
      assert s.fs[d := s.fs[p]] == s.fs;
    }
  }

  /** An item whose place is free, or holds an entry of its kind that may be overwritten,
      is placed. */
  lemma {:induction false} PlaceStep(fs: Fs, listing: Listing, src: Path, dst: Path, n: nat, r: Resolution, c: bool)
    requires Copying(fs, listing, src, dst) && Apart(fs, src, dst) && n < |Items(fs, listing, src)|
    requires var p := Items(fs, listing, src)[n];
             var d := Relocate(src, dst, p);
             d in fs ==> r == Overwrite && KindOf(fs[d]) == KindOf(fs[p])
    ensures ExecuteStep(Copied(fs, listing, src, dst, n), Items(fs, listing, src)[n], r, c, NoFault)
         == StepResult(Copied(fs, listing, src, dst, n + 1), Completed)
  {
    var items := Items(fs, listing, src);
    AroundItem(fs, listing, src, dst, n);
    var s, p := Copied(fs, listing, src, dst, n), items[n];
    var d := Relocate(src, dst, p);
    assert s.planned[p] == PlannedCopy(KindOf(fs[p]), d, p, p == src);
    assert p == src <==> n == 0;
    assert p == src ==> d == dst;
    assert d != p by {
      RelocateBack(src, dst, p);
    }
    StepCompletes(s, p, r, c);
  }

  /** An item that meets an entry of another kind fails and changes nothing. */
  lemma {:induction false} MismatchStep(fs: Fs, listing: Listing, src: Path, dst: Path, n: nat, r: Resolution, c: bool)
    requires Copying(fs, listing, src, dst) && Apart(fs, src, dst) && n < |Items(fs, listing, src)|
    requires var p := Items(fs, listing, src)[n];
             var d := Relocate(src, dst, p);
             d in fs && KindOf(fs[d]) != KindOf(fs[p])
    ensures ExecuteStep(Copied(fs, listing, src, dst, n), Items(fs, listing, src)[n], r, c, NoFault)
         == StepResult(Copied(fs, listing, src, dst, n), Failed)
  {
    AroundItem(fs, listing, src, dst, n);
    var s, p := Copied(fs, listing, src, dst, n), Items(fs, listing, src)[n];
    assert s.planned[p] == PlannedCopy(KindOf(fs[p]), Relocate(src, dst, p), p, p == src);
  }
}
