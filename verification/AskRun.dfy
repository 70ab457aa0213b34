/** Conflicts decided afterwards: an item that meets an occupied place without a decision is
    put aside, and executed again with the answer once every other item is done. */
module AskRun {
  import opened FileTree
  import opened FreshName
  import opened CopyOperation
  import opened CopyRun
  import opened CopyTheorems
  import opened MoveOperation
  import opened SkipRun

  datatype Answered = Answered(state: CopyState, alive: bool)

  /** The second pass after `n` of the deferred items: only completion and skipping let it
      go on. */
  function AnswerItems(s: CopyState, deferred: seq<Path>, answer: nat -> Resolution, c: bool, faults: nat -> Fault, n: nat): Answered
    requires n <= |deferred|
  {
    if n == 0 then Answered(s, true)
    else
      var before := AnswerItems(s, deferred, answer, c, faults, n - 1);
      if !before.alive then before
      else
        var step := ExecuteStep(before.state, deferred[n - 1], answer(n - 1), c, faults(n - 1));
        Answered(step.state, step.outcome == Completed || step.outcome == Skipped)
  }

  /** The scheduler's loop over the deferred items. */
  method AnswerConflicts(executor: CopyExecutor, fs: Fs, deferred: seq<Path>, policy: ConflictPolicy,
                         answer: nat -> Resolution, faults: nat -> Fault) returns (after: Fs, alive: bool)
    requires forall i :: answer(i) != Undecided
    modifies executor
    ensures Answered(executor.State(after), alive)
         == AnswerItems(old(executor.State(fs)), deferred, answer, executor.continueOnError, faults, |deferred|)
  {
    after, alive := fs, true;
    ghost var s := executor.State(fs);
    for i := 0 to |deferred|
      invariant Answered(executor.State(after), alive)
             == AnswerItems(s, deferred, answer, executor.continueOnError, faults, i)
    {
      if alive {
        var outcome;
        after, outcome := executor.Execute(after, deferred[i], policy, answer(i), faults(i));
        alive := outcome == Completed || outcome == Skipped;
      }
    }
  }

  ghost predicate AnswerTo(deferred: seq<Path>, answer: nat -> Resolution, c: bool, n: nat, before: CopyState, after: CopyState)
    requires n < |deferred|
  {
    match ExecuteStep(before, deferred[n], answer(n), c, NoFault)
    case StepResult(state, outcome) => state == after && (outcome == Completed || outcome == Skipped)
  }

  lemma {:induction false} AnswersFollow(s: CopyState, deferred: seq<Path>, answer: nat -> Resolution, c: bool,
                                         trace: nat -> CopyState, n: nat)
    requires n <= |deferred| && trace(0) == s
    requires forall k: nat :: k < n ==> AnswerTo(deferred, answer, c, k, trace(k), trace(k + 1))
    ensures AnswerItems(s, deferred, answer, c, NoFaults(), n) == Answered(trace(n), true)
  {
    if n > 0 {
      AnswersFollow(s, deferred, answer, c, trace, n - 1);
      assert AnswerTo(deferred, answer, c, n - 1, trace(n - 1), trace(n - 1 + 1));
    }
  }

  // ------------------------------------------------- asking and then skipping

  /** Deferring an item leaves the same state as skipping it. */
  lemma {:induction false} AskedStep(s: CopyState, p: Path, c: bool, fault: Fault)
    ensures var skipped := ExecuteStep(s, p, Skip, c, fault);
            && ExecuteStep(s, p, Undecided, c, fault)
                 == StepResult(skipped.state, if skipped.outcome == Skipped then Conflict else skipped.outcome)
            && (skipped.outcome == Skipped ==> skipped.state == s)
            && skipped.outcome != Conflict
  {
  }

  /** Item `p` meets an entry of its own kind. */
  ghost predicate Occupied(s: CopyState, p: Path) {
    p in s.planned
    && var plan := s.planned[p];
       && plan.source in s.fs && plan.destination in s.fs && plan.destination != []
       && KindOf(s.fs[plan.source]) == KindOf(s.fs[plan.destination])
  }

  lemma {:induction false} DeferredIsOccupied(s: CopyState, p: Path, c: bool, fault: Fault)
    ensures ExecuteStep(s, p, Undecided, c, fault).outcome == Conflict ==> Occupied(s, p)
    ensures ExecuteStep(s, p, Undecided, c, fault).state.planned == s.planned
    ensures Occupied(s, p) ==> ExecuteStep(s, p, Skip, c, NoFault) == StepResult(s, Skipped)
  {
  }

  lemma {:induction false} StaysOccupied(s: CopyState, t: CopyState, p: Path)
    requires Occupied(s, p) && t.planned == s.planned && forall q :: q in s.fs ==> q in t.fs && t.fs[q] == s.fs[q]
    ensures Occupied(t, p)
  {
  }

  lemma {:induction false} AskedRun(s: CopyState, items: seq<Path>, c: bool, faults: nat -> Fault, n: nat)
    requires n <= |items|
    ensures var asked := RunItems(s, items, Always(Undecided), c, faults, n);
            var skipped := RunItems(s, items, Always(Skip), c, faults, n);
            && asked.state == skipped.state && asked.alive == skipped.alive && skipped.deferred == []
            && forall p :: p in asked.deferred ==> Occupied(asked.state, p)
  {
    if n > 0 {
      AskedRun(s, items, c, faults, n - 1);
      var asked := RunItems(s, items, Always(Undecided), c, faults, n - 1);
      AskedStep(asked.state, items[n - 1], c, faults(n - 1));
      DeferredIsOccupied(asked.state, items[n - 1], c, faults(n - 1));
      StepSpares(asked.state, items[n - 1], Undecided, c, faults(n - 1));
      var t := ExecuteStep(asked.state, items[n - 1], Undecided, c, faults(n - 1)).state;
      forall p | Occupied(asked.state, p)
        ensures Occupied(t, p)
      {
        StaysOccupied(asked.state, t, p);
      }
    }
  }

  lemma {:induction false} SkippedAnswers(s: CopyState, deferred: seq<Path>, c: bool, n: nat)
    requires n <= |deferred| && forall p :: p in deferred ==> Occupied(s, p)
    ensures AnswerItems(s, deferred, Always(Skip), c, NoFaults(), n) == Answered(s, true)
  {
    if n > 0 {
      SkippedAnswers(s, deferred, c, n - 1);
      DeferredIsOccupied(s, deferred[n - 1], c, NoFault);
    }
  }

  /** Being asked and answering every conflict with skip is the policy of skipping, whatever
      the items are and whatever fails on the way. */
  lemma {:induction false} AskThenSkip(s: CopyState, items: seq<Path>, c: bool, faults: nat -> Fault)
    ensures var asked := RunItems(s, items, Always(Undecided), c, faults, |items|);
            var skipped := RunItems(s, items, Always(Skip), c, faults, |items|);
            && asked.alive == skipped.alive
            && AnswerItems(asked.state, asked.deferred, Always(Skip), c, NoFaults(), |asked.deferred|)
                 == Answered(skipped.state, true)
  {
    AskedRun(s, items, c, faults, |items|);
    var asked := RunItems(s, items, Always(Undecided), c, faults, |items|);
    SkippedAnswers(asked.state, asked.deferred, c, |asked.deferred|);
  }

  // ------------------------------------------------------------- the first pass

  /** Those of the first `n` items whose place is occupied. */
  ghost function OccupiedItems(fs: Fs, src: Path, dst: Path, items: seq<Path>, n: nat): seq<Path>
    requires n <= |items| && ItemsOf(fs, src, items)
  {
    if n == 0 then []
    else OccupiedItems(fs, src, dst, items, n - 1) + if Relocate(src, dst, items[n - 1]) in fs then [items[n - 1]] else []
  }

  lemma {:induction false} OccupiedMembers(fs: Fs, src: Path, dst: Path, items: seq<Path>, n: nat)
    requires n <= |items| && ItemsOf(fs, src, items)
    ensures forall p :: p in OccupiedItems(fs, src, dst, items, n) <==> p in items[..n] && src <= p && Relocate(src, dst, p) in fs
  {
    if n > 0 {
      OccupiedMembers(fs, src, dst, items, n - 1);
      assert items[..n] == items[..n - 1] + [items[n - 1]];
    }
  }

  lemma {:induction false} OccupiedDistinct(fs: Fs, src: Path, dst: Path, items: seq<Path>, n: nat)
    requires n <= |items| && ItemsOf(fs, src, items) && NoDuplicates(items)
    ensures NoDuplicates(OccupiedItems(fs, src, dst, items, n))
  {
    if n > 0 {
      OccupiedDistinct(fs, src, dst, items, n - 1);
      OccupiedMembers(fs, src, dst, items, n - 1);
      assert items[n - 1] !in items[..n - 1];
    }
  }

  /** A directory whose child's place is occupied has its own place occupied, so parents
      still come before their children. */
  lemma {:induction false} OccupiedParentsFirst(fs: Fs, src: Path, dst: Path, items: seq<Path>, n: nat)
    requires n <= |items| && ItemsOf(fs, src, items) && ParentsFirst(src, items)
    requires WellFormed(fs)
    ensures ParentsFirst(src, OccupiedItems(fs, src, dst, items, n))
  {
    if n > 0 {
      OccupiedParentsFirst(fs, src, dst, items, n - 1);
      OccupiedMembers(fs, src, dst, items, n - 1);
      var p := items[n - 1];
      assert p != src ==> p != [] && Parent(p) in items[..n - 1];
      OccupiedNext(fs, src, dst, items[..n - 1], OccupiedItems(fs, src, dst, items, n - 1), p);
    }
  }

  lemma {:induction false} OccupiedNext(fs: Fs, src: Path, dst: Path, items: seq<Path>, occupied: seq<Path>, p: Path)
    requires WellFormed(fs) && src <= p && ParentsFirst(src, occupied)
    requires p != src ==> p != [] && Parent(p) in items
    requires forall q :: q in occupied <==> q in items && src <= q && Relocate(src, dst, q) in fs
    ensures ParentsFirst(src, occupied + if Relocate(src, dst, p) in fs then [p] else [])
  {
    if Relocate(src, dst, p) in fs {
      if p != src {
        OccupiedParent(fs, src, dst, p);
      }
      ParentsFirstAppend(src, occupied, p);
    } else {
      assert occupied + [] == occupied;
    }
  }

  lemma {:induction false} OccupiedParent(fs: Fs, src: Path, dst: Path, p: Path)
    requires WellFormed(fs) && src < p && Relocate(src, dst, p) in fs
    ensures p != [] && src <= Parent(p) && Relocate(src, dst, Parent(p)) in fs
  {
    RelocateParent(src, dst, p);
    assert Parent(Relocate(src, dst, p)) in fs;
  }

  lemma {:induction false} ParentsFirstAppend(src: Path, s: seq<Path>, p: Path)
    requires ParentsFirst(src, s)
    requires p == src || (p != [] && Parent(p) in s)
    ensures ParentsFirst(src, s + [p])
  {
    var t := s + [p];
    forall i | 0 <= i < |t|
      ensures t[..i] == if i < |s| then s[..i] else s
    {
    }
  }

  /** The standing assumptions: an occupied root, and no entry that meets one of another kind. */
  ghost predicate Asking(fs: Fs, listing: Listing, src: Path, dst: Path) {
    Copying(fs, listing, src, dst) && !(src <= dst) && !(dst <= src) && dst in fs && KindsAgree(fs, src, dst)
  }

  ghost function Deferred(fs: Fs, listing: Listing, src: Path, dst: Path): (deferred: seq<Path>)
    requires Copying(fs, listing, src, dst)
  {
    var items := Items(fs, listing, src);
    OccupiedItems(fs, src, dst, items, |items|)
  }

  /** What is known of the deferred items. */
  lemma {:induction false} DeferredShape(fs: Fs, listing: Listing, src: Path, dst: Path)
    requires Asking(fs, listing, src, dst)
    ensures var deferred := Deferred(fs, listing, src, dst);
            && NoDuplicates(deferred) && ParentsFirst(src, deferred)
            && (forall p :: p in deferred <==> p in fs && src <= p && Relocate(src, dst, p) in fs)
            && |deferred| > 0 && deferred[0] == src
  {
    var items := Items(fs, listing, src);
    OccupiedMembers(fs, src, dst, items, |items|);
    OccupiedDistinct(fs, src, dst, items, |items|);
    OccupiedParentsFirst(fs, src, dst, items, |items|);
    assert items[..|items|] == items;
    var deferred := Deferred(fs, listing, src, dst);
    assert Relocate(src, dst, src) == dst;
    assert src in deferred;
    assert deferred[..0] == [];
  }

  /** An undecided root does not hold back what lies below it: the first pass fills the gaps
      of the occupied destination, before any decision. */
  lemma {:induction false} AskingFillsGaps(fs: Fs, listing: Listing, src: Path, dst: Path)
    requires Asking(fs, listing, src, dst)
    ensures var items := Items(fs, listing, src);
            RunItems(CopyState(fs, PlanFor(fs, src, dst), None), items, Always(Undecided), false, NoFaults(), |items|)
              == Run(CopyState(WithCopy(fs, src, dst) + fs, PlanFor(fs, src, dst), None), true, Deferred(fs, listing, src, dst))
  {
    var items := Items(fs, listing, src);
    var s := CopyState(fs, PlanFor(fs, src, dst), None);
    UnrelatedRootIsApart(fs, src, dst);
    var trace := AskingTrace(fs, listing, src, dst);
    forall k: nat | k < |items|
      ensures StepTo(items, Always(Undecided), false, NoFaults(), k, trace(k), trace(k + 1))
    {
      AskingReached(fs, listing, src, dst, k);
    }
    RunFollows(s, items, Always(Undecided), false, NoFaults(), trace, |items|);
    FillAll(fs, listing, src, dst);
  }

  ghost function AskingTrace(fs: Fs, listing: Listing, src: Path, dst: Path): nat -> Run
    requires Asking(fs, listing, src, dst)
  {
    var items := Items(fs, listing, src);
    (k: nat) => if k <= |items|
                then Run(Filled(fs, listing, src, dst, Always(Skip), k), true, OccupiedItems(fs, src, dst, items, k))
                else Run(CopyState(fs, map[], None), true, [])
  }

  lemma {:induction false} AskingReached(fs: Fs, listing: Listing, src: Path, dst: Path, k: nat)
    requires Asking(fs, listing, src, dst) && Apart(fs, src, dst) && k < |Items(fs, listing, src)|
    ensures var trace := AskingTrace(fs, listing, src, dst);
            StepTo(Items(fs, listing, src), Always(Undecided), false, NoFaults(), k, trace(k), trace(k + 1))
  {
    var items := Items(fs, listing, src);
    AskingStep(fs, listing, src, dst, k);
    var occupied := Relocate(src, dst, items[k]) in fs;
    AskedReached(items, false, NoFaults(), k, Filled(fs, listing, src, dst, Always(Skip), k),
                 Filled(fs, listing, src, dst, Always(Skip), k + 1), OccupiedItems(fs, src, dst, items, k), occupied);
  }

  lemma {:induction false} AskedReached(items: seq<Path>, c: bool, faults: nat -> Fault, n: nat, s: CopyState, t: CopyState,
                                        deferred: seq<Path>, conflict: bool)
    requires n < |items|
    requires ExecuteStep(s, items[n], Undecided, c, faults(n)) == StepResult(t, if conflict then Conflict else Completed)
    ensures StepTo(items, Always(Undecided), c, faults, n, Run(s, true, deferred),
                   Run(t, true, deferred + if conflict then [items[n]] else []))
  {
  }

  lemma {:induction false} AskingStep(fs: Fs, listing: Listing, src: Path, dst: Path, k: nat)
    requires Asking(fs, listing, src, dst) && Apart(fs, src, dst) && k < |Items(fs, listing, src)|
    ensures var items := Items(fs, listing, src);
            ExecuteStep(Filled(fs, listing, src, dst, Always(Skip), k), items[k], Undecided, false, NoFault)
              == StepResult(Filled(fs, listing, src, dst, Always(Skip), k + 1),
                            if Relocate(src, dst, items[k]) in fs then Conflict else Completed)
  {
    var items := Items(fs, listing, src);
    var s, p := Filled(fs, listing, src, dst, Always(Skip), k), items[k];
    FilledStep(fs, listing, src, dst, Always(Skip), k);
    AskedStep(s, p, false, NoFault);
    AroundFilledItem(fs, listing, src, dst, k);
    assert s.planned[p] == PlannedCopy(KindOf(fs[p]), Relocate(src, dst, p), p, p == src);
    SkipOutcome(s, p);
  }

  lemma {:induction false} SkipOutcome(s: CopyState, p: Path)
    requires p in s.planned && s.planned[p].destination != [] && s.planned[p].source in s.fs
    requires s.planned[p].destination in s.fs ==>
               KindOf(s.fs[s.planned[p].source]) == KindOf(s.fs[s.planned[p].destination])
    ensures var outcome := ExecuteStep(s, p, Skip, false, NoFault).outcome;
            outcome != Failed && outcome != Conflict ==>
              outcome == if s.planned[p].destination in s.fs then Skipped else Completed
  {
  }

  // ------------------------------------------------------------ the second pass

  /** The destination after the first pass: the copied entries where nothing was. */
  ghost function Gapless(fs: Fs, src: Path, dst: Path): Fs {
    WithCopy(fs, src, dst) + fs
  }

  lemma {:induction false} GaplessPoint(fs: Fs, src: Path, dst: Path, x: Path)
    ensures x in fs ==> x in Gapless(fs, src, dst) && Gapless(fs, src, dst)[x] == fs[x]
    ensures x in Gapless(fs, src, dst) && x !in fs ==> dst <= x
  {
    if x in WithCopy(fs, src, dst) && x !in fs {
      var p :| p in fs && src <= p && x == Relocate(src, dst, p);
      RelocateBack(src, dst, p);
    }
  }

  /** The parent's place of a deferred item is a directory, and was before the copy. */
  lemma {:induction false} ParentPlace(fs: Fs, listing: Listing, src: Path, dst: Path, k: nat)
    requires Asking(fs, listing, src, dst) && k < |Deferred(fs, listing, src, dst)|
    ensures var p := Deferred(fs, listing, src, dst)[k];
            && p in fs && src <= p
            && var d := Relocate(src, dst, p);
               && d in fs && d != [] && Parent(d) in fs && fs[Parent(d)].Directory?
               && (k == 0 <==> p == src) && (p == src ==> d == dst)
  {
    DeferredShape(fs, listing, src, dst);
    var deferred := Deferred(fs, listing, src, dst);
    var p := deferred[k];
    assert p in deferred;
    RelocateBack(src, dst, p);
    var d := Relocate(src, dst, p);
    assert Parent(d) in fs;
  }

  ghost function Overwritten(fs: Fs, listing: Listing, src: Path, dst: Path, k: nat): CopyState
    requires Asking(fs, listing, src, dst) && k <= |Deferred(fs, listing, src, dst)|
  {
    DeferredInGapless(fs, listing, src, dst);
    CopyState(Overlay(Gapless(fs, src, dst), src, dst, Deferred(fs, listing, src, dst), k), PlanFor(fs, src, dst),
              if k == 0 then None else Some(dst))
  }

  lemma {:induction false} DeferredInGapless(fs: Fs, listing: Listing, src: Path, dst: Path)
    requires Asking(fs, listing, src, dst)
    ensures ItemsOf(Gapless(fs, src, dst), src, Deferred(fs, listing, src, dst))
  {
    DeferredShape(fs, listing, src, dst);
    var deferred := Deferred(fs, listing, src, dst);
    forall i | 0 <= i < |deferred|
      ensures deferred[i] in Gapless(fs, src, dst) && src <= deferred[i]
    {
      assert deferred[i] in deferred;
    }
  }

  lemma {:induction false} OverwriteAnswer(fs: Fs, listing: Listing, src: Path, dst: Path, k: nat)
    requires Asking(fs, listing, src, dst) && k < |Deferred(fs, listing, src, dst)|
    ensures ExecuteStep(Overwritten(fs, listing, src, dst, k), Deferred(fs, listing, src, dst)[k], Overwrite, false, NoFault)
         == StepResult(Overwritten(fs, listing, src, dst, k + 1), Completed)
  {
    var g, deferred := Gapless(fs, src, dst), Deferred(fs, listing, src, dst);
    var p := deferred[k];
    ParentPlace(fs, listing, src, dst, k);
    AroundAnswered(fs, listing, src, dst, k);
    var s := Overwritten(fs, listing, src, dst, k);
    assert s.planned[p] == PlannedCopy(KindOf(fs[p]), Relocate(src, dst, p), p, p == src);
    StepCompletes(s, p, Overwrite, false);
    assert g[p] == fs[p];
  }

  lemma {:induction false} AroundAnswered(fs: Fs, listing: Listing, src: Path, dst: Path, k: nat)
    requires Asking(fs, listing, src, dst) && k < |Deferred(fs, listing, src, dst)|
    ensures var o, p := Overwritten(fs, listing, src, dst, k).fs, Deferred(fs, listing, src, dst)[k];
            && p in fs && src <= p && p in o && o[p] == fs[p]
            && var d := Relocate(src, dst, p);
               && d != p && d != [] && d in o && KindOf(o[d]) == KindOf(o[p]) && Parent(d) in o && o[Parent(d)].Directory?
  {
    var g, deferred := Gapless(fs, src, dst), Deferred(fs, listing, src, dst);
    var p := deferred[k];
    DeferredInGapless(fs, listing, src, dst);
    DeferredShape(fs, listing, src, dst);
    ParentPlace(fs, listing, src, dst, k);
    UnrelatedRootIsApart(fs, src, dst);
    RelocateBack(src, dst, p);
    var d := Relocate(src, dst, p);
    OverlayPoint(g, src, dst, deferred, k, p);
    assert p !in deferred[..k];
    OverlayPoint(g, src, dst, deferred, k, d);
    ParentStays(fs, src, dst, g, deferred, k, p);
  }

  lemma {:induction false} ParentStays(fs: Fs, src: Path, dst: Path, g: Fs, deferred: seq<Path>, k: nat, p: Path)
    requires WellFormed(fs) && p in fs && src <= p && dst != [] && k <= |deferred| && ItemsOf(g, src, deferred)
    requires forall q :: q in fs ==> q in g && g[q] == fs[q]
    requires var d := Relocate(src, dst, p); d != [] && Parent(d) in fs && fs[Parent(d)].Directory?
    ensures var o, d := Overlay(g, src, dst, deferred, k), Relocate(src, dst, p);
            Parent(d) in o && o[Parent(d)].Directory?
  {
    var d := Relocate(src, dst, p);
    OverlayPoint(g, src, dst, deferred, k, Parent(d));
    if p == src {
      assert d == dst;
    } else {
      RelocateParent(src, dst, p);
      RelocateBack(src, dst, Parent(p));
      AncestorsAreDirectories(fs, Parent(p), p);
    }
  }

  lemma {:induction false} OverwrittenPoint(fs: Fs, listing: Listing, src: Path, dst: Path, x: Path)
    requires Asking(fs, listing, src, dst)
    ensures var o, w := Overwritten(fs, listing, src, dst, |Deferred(fs, listing, src, dst)|).fs, WithCopy(fs, src, dst);
            (x in o <==> x in w) && (x in o ==> o[x] == w[x])
  {
    var g, deferred := Gapless(fs, src, dst), Deferred(fs, listing, src, dst);
    DeferredInGapless(fs, listing, src, dst);
    DeferredShape(fs, listing, src, dst);
    OverlayPoint(g, src, dst, deferred, |deferred|, x);
    assert deferred[..|deferred|] == deferred;
    if dst <= x {
      RelocateBack(dst, src, x);
    }
  }

  /** Being asked and answering every conflict with overwrite is the policy of overwriting:
      the late decisions lose nothing. */
  lemma {:induction false} AskThenOverwrite(fs: Fs, listing: Listing, src: Path, dst: Path)
    requires Asking(fs, listing, src, dst)
    ensures var s, items := CopyState(fs, PlanFor(fs, src, dst), None), Items(fs, listing, src);
            var asked := RunItems(s, items, Always(Undecided), false, NoFaults(), |items|);
            var overwritten := RunItems(s, items, Always(Overwrite), false, NoFaults(), |items|);
            && asked.alive && overwritten.alive && overwritten.deferred == []
            && AnswerItems(asked.state, asked.deferred, Always(Overwrite), false, NoFaults(), |asked.deferred|)
                 == Answered(overwritten.state, true)
  {
    AskingFillsGaps(fs, listing, src, dst);
    OverwriteMerges(fs, listing, src, dst, Always(Overwrite), false);
    OverwriteAnswers(fs, listing, src, dst);
  }

  lemma {:induction false} OverwriteAnswers(fs: Fs, listing: Listing, src: Path, dst: Path)
    requires Asking(fs, listing, src, dst)
    ensures var deferred := Deferred(fs, listing, src, dst);
            AnswerItems(CopyState(Gapless(fs, src, dst), PlanFor(fs, src, dst), None), deferred, Always(Overwrite), false,
                        NoFaults(), |deferred|)
              == Answered(CopyState(WithCopy(fs, src, dst), PlanFor(fs, src, dst), Some(dst)), true)
  {
    var deferred := Deferred(fs, listing, src, dst);
    var trace := OverwriteTrace(fs, listing, src, dst);
    forall k: nat | k < |deferred|
      ensures AnswerTo(deferred, Always(Overwrite), false, k, trace(k), trace(k + 1))
    {
      OverwriteReached(fs, listing, src, dst, k);
    }
    AnswersFollow(Overwritten(fs, listing, src, dst, 0), deferred, Always(Overwrite), false, trace, |deferred|);
    OverwrittenAll(fs, listing, src, dst);
  }

  ghost function OverwriteTrace(fs: Fs, listing: Listing, src: Path, dst: Path): nat -> CopyState
    requires Asking(fs, listing, src, dst)
  {
    (k: nat) => if k <= |Deferred(fs, listing, src, dst)| then Overwritten(fs, listing, src, dst, k)
                else CopyState(fs, map[], None)
  }

  lemma {:induction false} AnswerReached(deferred: seq<Path>, answer: nat -> Resolution, c: bool, n: nat, s: CopyState,
                                         t: CopyState)
    requires n < |deferred| && ExecuteStep(s, deferred[n], answer(n), c, NoFault) == StepResult(t, Completed)
    ensures AnswerTo(deferred, answer, c, n, s, t)
  {
  }

  lemma {:induction false} OverwriteReached(fs: Fs, listing: Listing, src: Path, dst: Path, k: nat)
    requires Asking(fs, listing, src, dst) && k < |Deferred(fs, listing, src, dst)|
    ensures var trace := OverwriteTrace(fs, listing, src, dst);
            AnswerTo(Deferred(fs, listing, src, dst), Always(Overwrite), false, k, trace(k), trace(k + 1))
  {
    OverwriteAnswer(fs, listing, src, dst, k);
    AnswerReached(Deferred(fs, listing, src, dst), Always(Overwrite), false, k, Overwritten(fs, listing, src, dst, k),
                  Overwritten(fs, listing, src, dst, k + 1));
  }

  lemma {:induction false} OverwrittenAll(fs: Fs, listing: Listing, src: Path, dst: Path)
    requires Asking(fs, listing, src, dst)
    ensures |Deferred(fs, listing, src, dst)| > 0
    ensures Overwritten(fs, listing, src, dst, |Deferred(fs, listing, src, dst)|).fs == WithCopy(fs, src, dst)
  {
    DeferredShape(fs, listing, src, dst);
    forall x
      ensures var o, w := Overwritten(fs, listing, src, dst, |Deferred(fs, listing, src, dst)|).fs, WithCopy(fs, src, dst);
              (x in o <==> x in w) && (x in o ==> o[x] == w[x])
    {
      OverwrittenPoint(fs, listing, src, dst, x);
    }
  }

  // ------------------------------------------------- asking and then renaming

  /** `root` is the fresh name found for the occupied root after the first pass. */
  ghost predicate Renaming(fs: Fs, listing: Listing, src: Path, dst: Path, root: Path) {
    Asking(fs, listing, src, dst) && NextCopyDestination(Gapless(fs, src, dst), dst) == Found(root)
  }

  /** Nothing lies at or below a fresh sibling of the occupied root. */
  lemma {:induction false} FreshRootIsEmpty(fs: Fs, listing: Listing, src: Path, dst: Path, root: Path)
    requires Renaming(fs, listing, src, dst, root)
    ensures root != [] && Parent(root) == Parent(dst) && root !in Gapless(fs, src, dst)
    ensures forall x :: root <= x ==> x !in Gapless(fs, src, dst) && !(dst <= x)
    ensures !(src <= root)
  {
    var g := Gapless(fs, src, dst);
    RenamedIsFreeSibling(g, dst);
    GaplessPoint(fs, src, dst, dst);
    GaplessPoint(fs, src, dst, root);
    assert root != dst && |root| == |dst|;
    forall x | root <= x
      ensures x !in g && !(dst <= x)
    {
      if dst <= x {
        PrefixesCompare(dst, root, x);
      }
      GaplessPoint(fs, src, dst, x);
      if x in fs {
        AncestorsAreDirectories(fs, root, x);
      }
    }
    RenamedRootOutside(fs, src, dst, root);
  }

  ghost function RenamedAfter(fs: Fs, listing: Listing, src: Path, dst: Path, root: Path, k: nat): CopyState
    requires Asking(fs, listing, src, dst) && k <= |Deferred(fs, listing, src, dst)|
  {
    DeferredInGapless(fs, listing, src, dst);
    if k == 0 then CopyState(Gapless(fs, src, dst), PlanFor(fs, src, dst), None)
    else CopyState(Overlay(Gapless(fs, src, dst), src, root, Deferred(fs, listing, src, dst), k),
                   RenamedPlan(fs, src, dst, root), Some(root))
  }

  lemma {:induction false} RenameFirstAnswer(fs: Fs, listing: Listing, src: Path, dst: Path, root: Path)
    requires Renaming(fs, listing, src, dst, root) && |Deferred(fs, listing, src, dst)| > 0
    ensures ExecuteStep(RenamedAfter(fs, listing, src, dst, root, 0), Deferred(fs, listing, src, dst)[0], RenameNew, false, NoFault)
         == StepResult(RenamedAfter(fs, listing, src, dst, root, 1), Completed)
  {
    var g, deferred := Gapless(fs, src, dst), Deferred(fs, listing, src, dst);
    DeferredInGapless(fs, listing, src, dst);
    DeferredShape(fs, listing, src, dst);
    FreshRootIsEmpty(fs, listing, src, dst, root);
    GaplessPoint(fs, src, dst, src);
    GaplessPoint(fs, src, dst, dst);
    GaplessPoint(fs, src, dst, Parent(dst));
    var s := RenamedAfter(fs, listing, src, dst, root, 0);
    assert Relocate(src, dst, src) == dst;
    assert s.planned[src] == PlannedCopy(KindOf(fs[src]), dst, src, true);
    RenamingStep(s, src, root, false);
    RebasePlan(fs, src, dst, root);
    assert Relocate(src, root, src) == root;
    assert Overlay(g, src, root, deferred, 1) == Overlay(g, src, root, deferred, 0)[root := g[src]];
  }

  lemma {:induction false} RenameLaterAnswer(fs: Fs, listing: Listing, src: Path, dst: Path, root: Path, k: nat)
    requires Renaming(fs, listing, src, dst, root) && 1 <= k < |Deferred(fs, listing, src, dst)|
    ensures ExecuteStep(RenamedAfter(fs, listing, src, dst, root, k), Deferred(fs, listing, src, dst)[k], RenameNew, false, NoFault)
         == StepResult(RenamedAfter(fs, listing, src, dst, root, k + 1), Completed)
  {
    var p := Deferred(fs, listing, src, dst)[k];
    ParentPlace(fs, listing, src, dst, k);
    AncestorsAreDirectories(fs, src, p);
    DeferredInGapless(fs, listing, src, dst);
    DeferredShape(fs, listing, src, dst);
    FreshRootIsEmpty(fs, listing, src, dst, root);
    AroundRenamed(fs, Gapless(fs, src, dst), src, root, Deferred(fs, listing, src, dst), k);
    LaterStep(fs, Gapless(fs, src, dst), src, root, Deferred(fs, listing, src, dst), k);
  }

  lemma {:induction false} LaterStep(fs: Fs, g: Fs, src: Path, root: Path, deferred: seq<Path>, k: nat)
    requires ItemsOf(g, src, deferred) && k < |deferred|
    requires var o, p := Overlay(g, src, root, deferred, k), deferred[k];
             && p in fs && src < p && p in g && g[p] == fs[p] && p in o && o[p] == fs[p]
             && var d := Relocate(src, root, p);
                d != [] && d != p && d !in o && Parent(d) in o && o[Parent(d)].Directory?
    ensures ExecuteStep(CopyState(Overlay(g, src, root, deferred, k), PlanFor(fs, src, root), Some(root)), deferred[k], RenameNew,
                        false, NoFault)
         == StepResult(CopyState(Overlay(g, src, root, deferred, k + 1), PlanFor(fs, src, root), Some(root)), Completed)
  {
    var s, p := CopyState(Overlay(g, src, root, deferred, k), PlanFor(fs, src, root), Some(root)), deferred[k];
    assert s.planned[p] == PlannedCopy(KindOf(fs[p]), Relocate(src, root, p), p, p == src);
    StepCompletes(s, p, RenameNew, false);
  }

  /** The place of a deferred item under the new root is free, and its parent is there. */
  lemma {:induction false} AroundRenamed(fs: Fs, g: Fs, src: Path, root: Path, deferred: seq<Path>, k: nat)
    requires WellFormed(fs) && forall q :: q in fs ==> q in g && g[q] == fs[q]
    requires forall x :: root <= x ==> x !in g
    requires ItemsOf(g, src, deferred) && NoDuplicates(deferred) && ParentsFirst(src, deferred)
    requires k < |deferred| && deferred[k] in fs && src < deferred[k]
    ensures var o, p := Overlay(g, src, root, deferred, k), deferred[k];
            && p in o && o[p] == fs[p]
            && var d := Relocate(src, root, p);
               d != [] && d != p && d !in o && Parent(d) in o && o[Parent(d)].Directory?
  {
    var p := deferred[k];
    OverlayPoint(g, src, root, deferred, k, p);
    RelocateBack(src, root, p);
    assert p !in deferred[..k];
    OverlayPoint(g, src, root, deferred, k, Relocate(src, root, p));
    RelocateParent(src, root, p);
    RelocateBack(src, root, Parent(p));
    assert Parent(p) in deferred[..k];
    OverlayPoint(g, src, root, deferred, k, Relocate(src, root, Parent(p)));
    AncestorsAreDirectories(fs, Parent(p), p);
  }

  ghost function RenameTrace(fs: Fs, listing: Listing, src: Path, dst: Path, root: Path): nat -> CopyState
    requires Asking(fs, listing, src, dst)
  {
    (k: nat) => if k <= |Deferred(fs, listing, src, dst)| then RenamedAfter(fs, listing, src, dst, root, k)
                else CopyState(fs, map[], None)
  }

  lemma {:induction false} RenameReached(fs: Fs, listing: Listing, src: Path, dst: Path, root: Path, k: nat)
    requires Renaming(fs, listing, src, dst, root) && k < |Deferred(fs, listing, src, dst)|
    ensures var trace := RenameTrace(fs, listing, src, dst, root);
            AnswerTo(Deferred(fs, listing, src, dst), Always(RenameNew), false, k, trace(k), trace(k + 1))
  {
    RenameAnswer(fs, listing, src, dst, root, k);
    AnswerReached(Deferred(fs, listing, src, dst), Always(RenameNew), false, k, RenamedAfter(fs, listing, src, dst, root, k),
                  RenamedAfter(fs, listing, src, dst, root, k + 1));
  }

  lemma {:induction false} RenameAnswer(fs: Fs, listing: Listing, src: Path, dst: Path, root: Path, k: nat)
    requires Renaming(fs, listing, src, dst, root) && k < |Deferred(fs, listing, src, dst)|
    ensures ExecuteStep(RenamedAfter(fs, listing, src, dst, root, k), Deferred(fs, listing, src, dst)[k], RenameNew, false, NoFault)
         == StepResult(RenamedAfter(fs, listing, src, dst, root, k + 1), Completed)
  {
    if k == 0 {
      RenameFirstAnswer(fs, listing, src, dst, root);
    } else {
      RenameLaterAnswer(fs, listing, src, dst, root, k);
    }
  }

  lemma {:induction false} RenameAnswers(fs: Fs, listing: Listing, src: Path, dst: Path, root: Path)
    requires Renaming(fs, listing, src, dst, root)
    ensures var deferred := Deferred(fs, listing, src, dst);
            AnswerItems(CopyState(Gapless(fs, src, dst), PlanFor(fs, src, dst), None), deferred, Always(RenameNew), false,
                        NoFaults(), |deferred|)
              == Answered(RenamedAfter(fs, listing, src, dst, root, |deferred|), true)
  {
    var deferred := Deferred(fs, listing, src, dst);
    var trace := RenameTrace(fs, listing, src, dst, root);
    forall k: nat | k < |deferred|
      ensures AnswerTo(deferred, Always(RenameNew), false, k, trace(k), trace(k + 1))
    {
      RenameReached(fs, listing, src, dst, root, k);
    }
    AnswersFollow(RenamedAfter(fs, listing, src, dst, root, 0), deferred, Always(RenameNew), false, trace, |deferred|);
  }

  /** Where a moved entry ends up when the decision to rename comes late. */
  function LatePlace(fs: Fs, src: Path, dst: Path, root: Path, p: Path): Path
    requires src <= p
  {
    Relocate(src, if Relocate(src, dst, p) in fs then root else dst, p)
  }

  lemma {:induction false} LatePoint(fs: Fs, listing: Listing, src: Path, dst: Path, root: Path, p: Path)
    requires Renaming(fs, listing, src, dst, root) && p in fs && src <= p
    ensures var o := RenamedAfter(fs, listing, src, dst, root, |Deferred(fs, listing, src, dst)|).fs;
            && LatePlace(fs, src, dst, root, p) in o && o[LatePlace(fs, src, dst, root, p)] == fs[p]
            && !(src <= LatePlace(fs, src, dst, root, p))
            && (Relocate(src, root, p) in o <==> Relocate(src, dst, p) in fs)
  {
    DeferredInGapless(fs, listing, src, dst);
    DeferredShape(fs, listing, src, dst);
    FreshRootIsEmpty(fs, listing, src, dst, root);
    LatePointIn(fs, src, dst, root, Deferred(fs, listing, src, dst), p);
    OutsideSource(fs, src, dst, root, p);
  }

  lemma {:induction false} LatePointIn(fs: Fs, src: Path, dst: Path, root: Path, deferred: seq<Path>, p: Path)
    requires p in fs && src <= p && ItemsOf(Gapless(fs, src, dst), src, deferred)
    requires p in deferred <==> Relocate(src, dst, p) in fs
    requires forall x :: root <= x ==> x !in Gapless(fs, src, dst) && !(dst <= x)
    ensures var o := Overlay(Gapless(fs, src, dst), src, root, deferred, |deferred|);
            && LatePlace(fs, src, dst, root, p) in o && o[LatePlace(fs, src, dst, root, p)] == fs[p]
            && (Relocate(src, root, p) in o <==> Relocate(src, dst, p) in fs)
  {
    var g := Gapless(fs, src, dst);
    assert deferred[..|deferred|] == deferred;
    RelocateBack(src, dst, p);
    RelocateBack(src, root, p);
    OverlayPoint(g, src, root, deferred, |deferred|, Relocate(src, root, p));
    OverlayPoint(g, src, root, deferred, |deferred|, Relocate(src, dst, p));
    WithCopyLands(fs, src, dst);
    GaplessPoint(fs, src, dst, p);
  }

  lemma {:induction false} OutsideSource(fs: Fs, src: Path, dst: Path, root: Path, p: Path)
    requires src <= p && p in fs && WellFormed(fs)
    requires !(src <= dst) && !(dst <= src) && !(src <= root) && root !in fs
    ensures !(src <= LatePlace(fs, src, dst, root, p))
  {
    var top := if Relocate(src, dst, p) in fs then root else dst;
    RelocateBack(src, top, p);
    if src <= Relocate(src, top, p) {
      PrefixesCompare(src, top, Relocate(src, top, p));
      AncestorsAreDirectories(fs, src, p);
      AncestorsAreDirectories(fs, top, src);
    }
  }

  /** A move whose conflicts are all answered with a new name keeps every entry, but not in
      one place: what met no conflict was already merged into the occupied directory, and only
      the rest goes under the new name. The tree arrives whole there exactly when every place
      was occupied. */
  lemma {:induction false} AskThenRenameSplits(fs: Fs, listing: Listing, src: Path, dst: Path, root: Path)
    requires Renaming(fs, listing, src, dst, root)
    ensures var s, items := CopyState(fs, PlanFor(fs, src, dst), None), Items(fs, listing, src);
            var asked := RunItems(s, items, Always(Undecided), false, NoFaults(), |items|);
            var answered := AnswerItems(asked.state, asked.deferred, Always(RenameNew), false, NoFaults(), |asked.deferred|);
            var after := FinishMove(answered.state, src, false, false);
            && asked.alive && answered.alive
            && (forall p :: p in fs && src <= p ==>
                  LatePlace(fs, src, dst, root, p) in after && after[LatePlace(fs, src, dst, root, p)] == fs[p])
            && (Landed(fs, after, src, root) <==> forall p :: p in fs && src <= p ==> Relocate(src, dst, p) in fs)
  {
    AskingFillsGaps(fs, listing, src, dst);
    RenameAnswers(fs, listing, src, dst, root);
    DeferredShape(fs, listing, src, dst);
    LateRootArrives(fs, listing, src, dst, root);
    LateLanding(fs, listing, src, dst, root);
  }

  lemma {:induction false} LateRootArrives(fs: Fs, listing: Listing, src: Path, dst: Path, root: Path)
    requires Renaming(fs, listing, src, dst, root)
    ensures var s := RenamedAfter(fs, listing, src, dst, root, |Deferred(fs, listing, src, dst)|);
            FinishMove(s, src, false, false) == RemoveTree(s.fs, src)
  {
    DeferredShape(fs, listing, src, dst);
    LatePoint(fs, listing, src, dst, root, src);
    assert Relocate(src, dst, src) == dst && Relocate(src, root, src) == root;
  }

  lemma {:induction false} LateLanding(fs: Fs, listing: Listing, src: Path, dst: Path, root: Path)
    requires Renaming(fs, listing, src, dst, root)
    ensures var after := RemoveTree(RenamedAfter(fs, listing, src, dst, root, |Deferred(fs, listing, src, dst)|).fs, src);
            && (forall p :: p in fs && src <= p ==>
                  LatePlace(fs, src, dst, root, p) in after && after[LatePlace(fs, src, dst, root, p)] == fs[p])
            && (Landed(fs, after, src, root) <==> forall p :: p in fs && src <= p ==> Relocate(src, dst, p) in fs)
  {
    forall p | p in fs && src <= p
      ensures var o := RenamedAfter(fs, listing, src, dst, root, |Deferred(fs, listing, src, dst)|).fs;
              && LatePlace(fs, src, dst, root, p) in o && o[LatePlace(fs, src, dst, root, p)] == fs[p]
              && !(src <= LatePlace(fs, src, dst, root, p))
              && (Relocate(src, root, p) in o <==> Relocate(src, dst, p) in fs)
    {
      LatePoint(fs, listing, src, dst, root, p);
    }
  }
}
