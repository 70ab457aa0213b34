/** Runs that skip occupied places: they fill the gaps of the destination. */
module SkipRun {
  import opened FileTree
  import opened FreshName
  import opened CopyOperation
  import opened CopyRun
  import opened CopyTheorems
  import opened MoveOperation

  /** `fs` with the first `n` items placed where nothing was. */
  ghost function Fill(fs: Fs, src: Path, dst: Path, items: seq<Path>, n: nat): Fs
    requires n <= |items| && ItemsOf(fs, src, items)
  {
    if n == 0 then fs
    else
      var before := Fill(fs, src, dst, items, n - 1);
      var d := Relocate(src, dst, items[n - 1]);
      if d in before then before else before[d := fs[items[n - 1]]]
  }

  lemma {:induction false} FillPoint(fs: Fs, src: Path, dst: Path, items: seq<Path>, n: nat, x: Path)
    requires n <= |items| && ItemsOf(fs, src, items)
    ensures var f := Fill(fs, src, dst, items, n);
            if x in fs then x in f && f[x] == fs[x]
            else if Hit(src, dst, items, n, x)
            then Relocate(dst, src, x) in fs && x in f && f[x] == fs[Relocate(dst, src, x)]
            else x !in f
  {
    if n > 0 {
      FillPoint(fs, src, dst, items, n - 1, x);
      var p := items[n - 1];
      assert items[..n] == items[..n - 1] + [p];
      RelocateBack(src, dst, p);
      if dst <= x {
        RelocateBack(dst, src, x);
      }
    }
  }

  /** A skipping run onto an occupied directory root, which may itself be merged into. */
  ghost predicate Filling(fs: Fs, listing: Listing, src: Path, dst: Path, resolution: nat -> Resolution) {
    && Copying(fs, listing, src, dst) && Apart(fs, src, dst) && dst in fs && KindsAgree(fs, src, dst)
    && (resolution(0) == Skip || (resolution(0) == Overwrite && fs[src].Directory?))
    && forall i: nat :: i > 0 ==> resolution(i) == Skip
  }

  lemma {:induction false} AroundFilledItem(fs: Fs, listing: Listing, src: Path, dst: Path, n: nat)
    requires Copying(fs, listing, src, dst) && Apart(fs, src, dst) && KindsAgree(fs, src, dst)
    requires n < |Items(fs, listing, src)|
    ensures var items := Items(fs, listing, src);
            var f, p := Fill(fs, src, dst, items, n), items[n];
            var d := Relocate(src, dst, p);
            && p in f && f[p] == fs[p]
            && (d in f <==> d in fs) && (d in fs ==> f[d] == fs[d] && KindOf(fs[d]) == KindOf(fs[p]))
            && d != [] && Parent(d) in f && f[Parent(d)].Directory?
  {
    var items := Items(fs, listing, src);
    var p := items[n];
    var d := Relocate(src, dst, p);
    FillPoint(fs, src, dst, items, n, p);
    RelocateBack(src, dst, p);
    assert p !in items[..n];
    FillPoint(fs, src, dst, items, n, d);
    if p == src {
      assert d == dst;
      FillPoint(fs, src, dst, items, n, Parent(dst));
    } else {
      RelocateParent(src, dst, p);
      assert Parent(p) in items[..n];
      assert fs[Parent(p)].Directory?;
      RelocateBack(src, dst, Parent(p));
      FillPoint(fs, src, dst, items, n, Parent(d));
    }
  }

  lemma {:induction false} FillStep(s: CopyState, p: Path, r: Resolution)
    requires p in s.planned && p in s.fs
    requires s.planned[p].source == p && s.planned[p].kind == KindOf(s.fs[p])
    requires var d := s.planned[p].destination;
             && d != [] && Parent(d) in s.fs && s.fs[Parent(d)].Directory?
             && (d in s.fs ==> KindOf(s.fs[d]) == KindOf(s.fs[p]))
             && (r == Skip || (r == Overwrite && s.fs[p].Directory? && d in s.fs))
    ensures var d := s.planned[p].destination;
            var step := ExecuteStep(s, p, r, false, NoFault);
            && step.outcome != Failed && step.outcome != Conflict
            && step.state == CopyState(if d in s.fs then s.fs else s.fs[d := s.fs[p]], s.planned,
                                       if s.planned[p].isRoot && (d in s.fs ==> r == Overwrite) then Some(d)
                                       else s.completedRoot)
  {
  }

  lemma {:induction false} RunFills(fs: Fs, listing: Listing, src: Path, dst: Path, resolution: nat -> Resolution, n: nat)
    requires Filling(fs, listing, src, dst, resolution) && n <= |Items(fs, listing, src)|
    ensures RunItems(CopyState(fs, PlanFor(fs, src, dst), None), Items(fs, listing, src), resolution, false, NoFaults(), n)
         == Run(Filled(fs, listing, src, dst, resolution, n), true, [])
  {
    var items := Items(fs, listing, src);
    var trace := FillTrace(fs, listing, src, dst, resolution);
    forall k: nat | k < n
      ensures StepTo(items, resolution, false, NoFaults(), k, trace(k), trace(k + 1))
    {
      FillReached(fs, listing, src, dst, resolution, k);
    }
    RunFollows(CopyState(fs, PlanFor(fs, src, dst), None), items, resolution, false, NoFaults(), trace, n);
  }

  /** The item leads to `t` without failing or being put aside. */
  ghost predicate GoesOn(s: CopyState, item: Path, r: Resolution, t: CopyState) {
    match ExecuteStep(s, item, r, false, NoFault)
    case StepResult(state, outcome) => state == t && outcome != Failed && outcome != Conflict
  }

  ghost function FillTrace(fs: Fs, listing: Listing, src: Path, dst: Path, resolution: nat -> Resolution): nat -> Run
    requires Copying(fs, listing, src, dst)
  {
    (k: nat) => if k <= |Items(fs, listing, src)| then Run(Filled(fs, listing, src, dst, resolution, k), true, [])
                else Run(CopyState(fs, map[], None), true, [])
  }

  lemma {:induction false} FillReached(fs: Fs, listing: Listing, src: Path, dst: Path, resolution: nat -> Resolution, k: nat)
    requires Filling(fs, listing, src, dst, resolution) && k < |Items(fs, listing, src)|
    ensures var trace := FillTrace(fs, listing, src, dst, resolution);
            StepTo(Items(fs, listing, src), resolution, false, NoFaults(), k, trace(k), trace(k + 1))
  {
    FilledTo(fs, listing, src, dst, resolution, k);
  }

  lemma {:induction false} FilledTo(fs: Fs, listing: Listing, src: Path, dst: Path, resolution: nat -> Resolution, k: nat)
    requires Filling(fs, listing, src, dst, resolution) && k < |Items(fs, listing, src)|
    ensures StepTo(Items(fs, listing, src), resolution, false, NoFaults(), k,
                   Run(Filled(fs, listing, src, dst, resolution, k), true, []),
                   Run(Filled(fs, listing, src, dst, resolution, k + 1), true, []))
  {
    FilledStep(fs, listing, src, dst, resolution, k);
    UndeferredReached(Items(fs, listing, src), resolution, k, Filled(fs, listing, src, dst, resolution, k),
                      Filled(fs, listing, src, dst, resolution, k + 1));
  }

  lemma {:induction false} UndeferredReached(items: seq<Path>, resolution: nat -> Resolution, n: nat, s: CopyState, t: CopyState)
    requires n < |items|
    requires GoesOn(s, items[n], resolution(n), t)
    ensures StepTo(items, resolution, false, NoFaults(), n, Run(s, true, []), Run(t, true, []))
  {
  }

  /** The state after `n` items: the gaps filled, and the root completed if it was merged. */
  ghost function Filled(fs: Fs, listing: Listing, src: Path, dst: Path, resolution: nat -> Resolution, n: nat): CopyState
    requires Copying(fs, listing, src, dst) && n <= |Items(fs, listing, src)|
  {
    CopyState(Fill(fs, src, dst, Items(fs, listing, src), n), PlanFor(fs, src, dst),
              if n > 0 && resolution(0) == Overwrite then Some(dst) else None)
  }

  lemma {:induction false} FilledStep(fs: Fs, listing: Listing, src: Path, dst: Path, resolution: nat -> Resolution, n: nat)
    requires Filling(fs, listing, src, dst, resolution) && n < |Items(fs, listing, src)|
    ensures GoesOn(Filled(fs, listing, src, dst, resolution, n), Items(fs, listing, src)[n], resolution(n),
                   Filled(fs, listing, src, dst, resolution, n + 1))
  {
    var items := Items(fs, listing, src);
    var s, p := Filled(fs, listing, src, dst, resolution, n), items[n];
    AroundFilledItem(fs, listing, src, dst, n);
    assert s.planned[p] == PlannedCopy(KindOf(fs[p]), Relocate(src, dst, p), p, p == src);
    assert p == src <==> n == 0;
    assert Relocate(src, dst, src) == dst;
    FillStep(s, p, resolution(n));
  }

  lemma {:induction false} FillAllPoint(fs: Fs, src: Path, dst: Path, items: seq<Path>, x: Path)
    requires ItemsOf(fs, src, items) && forall p :: p in items <==> p in fs && src <= p
    ensures var f, w := Fill(fs, src, dst, items, |items|), WithCopy(fs, src, dst) + fs;
            (x in f <==> x in w) && (x in f ==> f[x] == w[x])
  {
    FillPoint(fs, src, dst, items, |items|, x);
    assert items[..|items|] == items;
    if dst <= x {
      RelocateBack(dst, src, x);
    }
    forall p | p in fs && src <= p && x == Relocate(src, dst, p)
      ensures Hit(src, dst, items, |items|, x)
    {
      RelocateBack(src, dst, p);
    }
  }

  lemma {:induction false} FillAll(fs: Fs, listing: Listing, src: Path, dst: Path)
    requires Copying(fs, listing, src, dst)
    ensures var items := Items(fs, listing, src);
            Fill(fs, src, dst, items, |items|) == WithCopy(fs, src, dst) + fs
  {
    var items := Items(fs, listing, src);
    var f, w := Fill(fs, src, dst, items, |items|), WithCopy(fs, src, dst) + fs;
    forall x
      ensures x in f <==> x in w
      ensures x in f ==> f[x] == w[x]
    {
      FillAllPoint(fs, src, dst, items, x);
    }
  }

  /** A skipping copy onto an occupied root adds exactly the entries that were missing. */
  lemma {:induction false} SkipFillsGaps(fs: Fs, listing: Listing, src: Path, dst: Path)
    requires Copying(fs, listing, src, dst) && !(src <= dst) && !(dst <= src) && dst in fs && KindsAgree(fs, src, dst)
    ensures var items := Items(fs, listing, src);
            RunItems(CopyState(fs, PlanFor(fs, src, dst), None), items, Always(Skip), false, NoFaults(), |items|)
              == Run(CopyState(WithCopy(fs, src, dst) + fs, PlanFor(fs, src, dst), None), true, [])
  {
    UnrelatedRootIsApart(fs, src, dst);
    RunFills(fs, listing, src, dst, Always(Skip), |Items(fs, listing, src)|);
    FillAll(fs, listing, src, dst);
  }

  /** Overwrite for the root, skip for everything else. */
  function MergeThenSkip(): nat -> Resolution {
    i => if i == 0 then Overwrite else Skip
  }

  /** Every occupied place already holds what was to be copied there. */
  ghost predicate OccupiedPlacesAgree(fs: Fs, src: Path, dst: Path) {
    forall p :: p in fs && src <= p && Relocate(src, dst, p) in fs ==> fs[Relocate(src, dst, p)] == fs[p]
  }

  /** Mixed decisions are not safe: when the root is merged and the items below it are
      skipped, the source is removed all the same, so a move conserves it exactly when
      every skipped item was already there. */
  lemma {:induction false} MixedMoveConservesIff(fs: Fs, listing: Listing, src: Path, directory: Path)
    requires Accepted(fs, listing, src, directory) && fs[src].Directory?
    requires var dst := Destination(src, directory);
             dst in fs && !(dst <= src) && KindsAgree(fs, src, dst)
    ensures var dst, items := Destination(src, directory), Items(fs, listing, src);
            var after := FallbackMove(fs, items, src, dst, MergeThenSkip(), NoFaults(), |items|, false, false);
            && after == RemoveTree(WithCopy(fs, src, dst) + fs, src)
            && (Conserved(fs, after, src, dst) <==> OccupiedPlacesAgree(fs, src, dst))
  {
    var dst := Destination(src, directory);
    assert Parent(dst) == directory;
    MixedMoveResult(fs, listing, src, dst);
    GapsConserveIff(fs, src, dst);
  }

  lemma {:induction false} MixedMoveResult(fs: Fs, listing: Listing, src: Path, dst: Path)
    requires Copying(fs, listing, src, dst) && !(src <= dst) && !(dst <= src)
    requires dst in fs && KindsAgree(fs, src, dst) && fs[src].Directory?
    ensures var items := Items(fs, listing, src);
            FallbackMove(fs, items, src, dst, MergeThenSkip(), NoFaults(), |items|, false, false)
              == RemoveTree(WithCopy(fs, src, dst) + fs, src)
  {
    UnrelatedRootIsApart(fs, src, dst);
    RunFills(fs, listing, src, dst, MergeThenSkip(), |Items(fs, listing, src)|);
    FillAll(fs, listing, src, dst);
    assert dst in WithCopy(fs, src, dst) + fs;
  }

  lemma {:induction false} GapsConserveIff(fs: Fs, src: Path, dst: Path)
    requires src in fs && !(src <= dst) && !(dst <= src)
    ensures Conserved(fs, RemoveTree(WithCopy(fs, src, dst) + fs, src), src, dst) <==> OccupiedPlacesAgree(fs, src, dst)
  {
    var full := WithCopy(fs, src, dst);
    var after := RemoveTree(full + fs, src);
    RemovalSparesCopy(fs, src, dst);
    assert src !in after;
    forall p | p in fs && src <= p
      ensures var d := Relocate(src, dst, p); d in after && after[d] == (if d in fs then fs[d] else fs[p])
    {
      var d := Relocate(src, dst, p);
      assert d in RemoveTree(full, src) && RemoveTree(full, src)[d] == fs[p];
    }
  }
}
