/** Exactly when a move conserves its source: the guard that planning lacks. */
module MoveLimits {
  import opened FileTree
  import opened FreshName
  import opened CopyOperation
  import opened CopyRun
  import opened CopyTheorems
  import opened MoveOperation

  /** A native move of an accepted source conserves it, except that an overwriting move of
      a directory onto its own ancestor removes that ancestor, and the source with it,
      before renaming. */
  lemma {:induction false} NativeMoveConservesIff(fs: Fs, listing: Listing, src: Path, directory: Path, e: Resolution, fault: Fault)
    requires Accepted(fs, listing, src, directory) && fault != PrepareFault
    ensures var dst := Destination(src, directory);
            var after := NativeMove(fs, src, dst, e, fault).fs;
            Conserved(fs, after, src, FinalRoot(fs, dst, e)) <==> !(e == Overwrite && dst <= src && fs[src].Directory?)
  {
    var dst := Destination(src, directory);
    if dst !in fs {
      FreeRootUnrelated(fs, src, dst);
      MoveOntoFreePlace(fs, src, dst, e, fault);
      MovedIsConserved(fs, NativeMove(fs, src, dst, e, fault).fs, src, dst);
    } else {
      MoveStops(fs, src, dst, e, fault);
      if NativeConflict(fs, src, dst, fault) {
        ConflictConserves(fs, src, dst, e, fault);
      } else if dst <= src {
        AncestorsAreDirectories(fs, dst, src);
      }
    }
  }

  lemma {:induction false} MovedIsConserved(fs: Fs, after: Fs, src: Path, root: Path)
    ensures MovedTo(fs, after, src, root) ==> Conserved(fs, after, src, root)
    ensures after == fs ==> Conserved(fs, after, src, root)
  {
  }

  lemma {:induction false} ConflictConserves(fs: Fs, src: Path, dst: Path, e: Resolution, fault: Fault)
    requires WellFormed(fs) && src in fs && dst != [] && !(src <= dst) && NativeConflict(fs, src, dst, fault)
    ensures Conserved(fs, NativeMove(fs, src, dst, e, fault).fs, src, FinalRoot(fs, dst, e))
            <==> !(e == Overwrite && dst <= src && fs[src].Directory?)
  {
    var after := NativeMove(fs, src, dst, e, fault).fs;
    MoveStops(fs, src, dst, e, fault);
    match e
    case Undecided =>
    case Skip =>
    case Overwrite =>
      MoveOverwrites(fs, src, dst, fault);
      MovedIsConserved(fs, after, src, dst);
      RemovedPlaceConserves(fs, after, src, dst);
    case RenameNew =>
      MoveRenames(fs, src, dst, fault);
      FoundIffFresh(fs, dst);
      if HasFreshSuffix(fs, dst) {
        RenamedConserves(fs, after, src, dst);
      }
  }

  lemma {:induction false} RemovedPlaceConserves(fs: Fs, after: Fs, src: Path, dst: Path)
    requires WellFormed(fs) && src in fs && !(src <= dst)
    ensures TreeRemoved(fs, after, dst) ==> (Conserved(fs, after, src, dst) <==> !(dst <= src))
    ensures dst <= src && dst in fs ==> fs[dst].Directory?
  {
    if dst <= src {
      AncestorsAreDirectories(fs, dst, src);
      assert Relocate(src, dst, src) == dst;
    } else {
      UnrelatedRootIsApart(fs, src, dst);
    }
  }

  lemma {:induction false} RenamedConserves(fs: Fs, after: Fs, src: Path, dst: Path)
    requires dst != [] && dst in fs && NextCopyDestination(fs, dst).Found?
    ensures after == fs || MovedBeside(fs, after, src, dst) ==> Conserved(fs, after, src, FinalRoot(fs, dst, RenameNew))
  {
    if MovedBeside(fs, after, src, dst) {
      var k: nat :| FreshSuffix(fs, dst, k) && MovedTo(fs, after, src, Candidate(dst, k));
      var j := FoundIsFresh(fs, dst);
      assert j == k;
    }
  }

  // ----------------------------------------- the fallback onto an ancestor

  /** Inside `src`, the steps from `dst` down to `src` are repeated, and a file hangs from
      the end: below `dst`, each directory of the source then meets the next one up. */
  ghost function Chain(deep: Path, file: Path): Fs {
    (map p | p in Prefixes(deep) :: Directory)[file := File([1])]
  }

  ghost function Prefixes(deep: Path): set<Path> {
    set k | 0 <= k <= |deep| :: deep[..k]
  }

  function ChainListing(deep: Path, last: Name): Listing {
    p => if p < deep then [[deep[|p|]]] else if p == deep then [[last]] else []
  }

  lemma {:induction false} ChainMembers(deep: Path, last: Name)
    ensures var fs := Chain(deep, deep + [last]);
            && (forall p :: p in fs <==> p <= deep || p == deep + [last])
            && (forall p :: p <= deep ==> fs[p] == Directory)
            && fs[deep + [last]] == File([1])
  {
    forall p
      ensures p in Prefixes(deep) <==> p <= deep
    {
      if p <= deep {
        assert deep[..|p|] == p;
      }
    }
  }

  lemma {:induction false} ChainIsWellFormed(deep: Path, last: Name)
    ensures WellFormed(Chain(deep, deep + [last]))
  {
    var fs := Chain(deep, deep + [last]);
    ChainMembers(deep, last);
    forall p | p in fs && p != []
      ensures Parent(p) in fs && fs[Parent(p)].Directory?
    {
      if p == deep + [last] {
        assert Parent(p) == deep;
      } else {
        assert Parent(p) <= deep;
      }
    }
  }

  /** The one child of each directory on the chain. */
  lemma {:induction false} ChainChild(deep: Path, last: Name, p: Path, m: Name)
    requires p <= deep
    ensures p + [m] in Chain(deep, deep + [last]) <==> m == if p == deep then last else deep[|p|]
  {
    ChainMembers(deep, last);
    if p == deep {
      assert p + [m] == deep + [last] <==> m == last by {
        assert (p + [m])[|p|] == m && (deep + [last])[|deep|] == last;
      }
    } else {
      assert |p| < |deep|;
      assert deep[..|p| + 1] == p + [deep[|p|]];
      assert p + [m] <= deep <==> p + [m] == deep[..|p| + 1];
      assert p + [m] == deep[..|p| + 1] <==> m == deep[|p|] by {
        assert (p + [m])[|p|] == m && deep[..|p| + 1][|p|] == deep[|p|];
      }
      assert |p + [m]| < |deep + [last]|;
    }
  }

  lemma {:induction false} ChainIsListed(deep: Path, last: Name)
    ensures Lists(Chain(deep, deep + [last]), ChainListing(deep, last))
  {
    var fs, listing := Chain(deep, deep + [last]), ChainListing(deep, last);
    ChainMembers(deep, last);
    forall p | p in fs && fs[p].Directory?
      ensures Enumerates(fs, p, VisitOrder(listing(p)))
    {
      var n := if p == deep then last else deep[|p|];
      assert VisitOrder([[n]]) == VisitOrder([[n]][1..]) + [n];
      assert VisitOrder(listing(p)) == [n];
      forall m
        ensures m == n <==> p + [m] in fs
      {
        ChainChild(deep, last, p, m);
      }
    }
  }

  /** The state of the run on the chain: at most one file was copied, into the source. */
  ghost predicate ChainState(fs: Fs, src: Path, dst: Path, copy: Path, n: nat, run: Run) {
    match run
    case Run(state, alive, deferred) =>
      && alive && deferred == [] && state.planned == PlanFor(fs, src, dst)
      && (state.fs == fs || state.fs == fs[copy := File([1])])
      && (n > 0 ==> state.completedRoot == Some(dst))
  }

  /** One step on the chain: a directory item reuses its destination; the file lands in
      the source. */
  lemma {:induction false} ChainStep(fs: Fs, src: Path, dst: Path, copy: Path, s: CopyState, p: Path)
    requires s.planned == PlanFor(fs, src, dst) && p in fs && src <= p && copy !in fs
    requires s.fs == fs || s.fs == fs[copy := File([1])]
    requires var d := Relocate(src, dst, p);
             if fs[p].Directory? then d in fs && fs[d].Directory? && d != []
             else fs[p] == File([1]) && d == copy && d != [] && Parent(d) in fs && fs[Parent(d)].Directory?
    ensures var r := ExecuteStep(s, p, Overwrite, false, NoFault);
            && r.outcome == Completed && r.state.planned == s.planned
            && (r.state.fs == fs || r.state.fs == fs[copy := File([1])])
            && r.state.completedRoot == (if p == src then Some(Relocate(src, dst, p)) else s.completedRoot)
  {
    assert s.planned[p] == PlannedCopy(KindOf(fs[p]), Relocate(src, dst, p), p, p == src);
    assert fs[copy := File([1])][copy := File([1])] == fs[copy := File([1])];
  }

  /** Where the items of the chain go. */
  lemma {:induction false} ChainDestinations(src: Path, dst: Path, p: Path, last: Name)
    requires dst < src && src <= p
    requires var t := src[|dst|..]; p <= src + t || p == src + t + [last]
    requires last != src[|dst|]
    ensures var t := src[|dst|..];
            var fs, d := Chain(src + t, src + t + [last]), Relocate(src, dst, p);
            && p in fs && src + [last] !in fs
            && (if fs[p].Directory? then d in fs && fs[d].Directory? else fs[p] == File([1]) && d == src + [last])
  {
    var t := src[|dst|..];
    var deep := src + t;
    ChainMembers(deep, last);
    assert src == dst + t;
    assert deep[|src|] == t[0];
    assert (src + [last])[|src|] != deep[|src|];
    if p <= deep {
      var k := |p| - |src|;
      assert p[|src|..] == t[..k] by {
        assert p == deep[..|p|];
      }
      assert Relocate(src, dst, p) == src[..|dst| + k];
      assert Relocate(src, dst, p) <= deep by {
        assert src[..|dst| + k] == deep[..|dst| + k];
      }
      assert p != deep + [last];
    } else {
      assert p[|src|..] == t + [last];
      assert Relocate(src, dst, p) == src + [last];
    }
  }

  lemma {:induction false} ChainNext(src: Path, dst: Path, last: Name, p: Path, n: nat, run: Run)
    requires dst != [] && dst < src && last != src[|dst|] && src <= p && (n == 0 ==> p == src)
    requires var deep := src + src[|dst|..];
             var fs := Chain(deep, deep + [last]);
             p in fs && ChainState(fs, src, dst, src + [last], n, run)
    ensures var deep := src + src[|dst|..];
            var step := ExecuteStep(run.state, p, Overwrite, false, NoFault);
            && step.outcome == Completed
            && ChainState(Chain(deep, deep + [last]), src, dst, src + [last], n + 1, Run(step.state, true, []))
  {
    var deep := src + src[|dst|..];
    ChainMembers(deep, last);
    ChainDestinations(src, dst, p, last);
    assert dst <= Relocate(src, dst, p);
    assert Parent(src + [last]) == src;
    ChainStep(Chain(deep, deep + [last]), src, dst, src + [last], run.state, p);
    assert Relocate(src, dst, src) == dst;
  }

  lemma {:induction false} ChainOnce(src: Path, dst: Path, last: Name, items: seq<Path>, n: nat, run: Run)
    requires dst != [] && dst < src && last != src[|dst|] && n < |items| && src <= items[n] && (n == 0 ==> items[n] == src)
    requires var deep := src + src[|dst|..];
             var fs := Chain(deep, deep + [last]);
             && items[n] in fs && ChainState(fs, src, dst, src + [last], n, run)
             && RunItems(CopyState(fs, PlanFor(fs, src, dst), None), items, Always(Overwrite), false, NoFaults(), n) == run
    ensures var deep := src + src[|dst|..];
            var fs := Chain(deep, deep + [last]);
            ChainState(fs, src, dst, src + [last], n + 1,
                       RunItems(CopyState(fs, PlanFor(fs, src, dst), None), items, Always(Overwrite), false, NoFaults(), n + 1))
  {
    var deep := src + src[|dst|..];
    var fs := Chain(deep, deep + [last]);
    ChainNext(src, dst, last, items[n], n, run);
    RunNext(CopyState(fs, PlanFor(fs, src, dst), None), items, Always(Overwrite), false, NoFaults(), n);
  }

  lemma {:induction false} ChainRun(src: Path, dst: Path, last: Name, items: seq<Path>, n: nat)
    requires dst != [] && dst < src && last != src[|dst|]
    requires var deep := src + src[|dst|..];
             var fs := Chain(deep, deep + [last]);
             && n <= |items| && (n > 0 ==> items[0] == src)
             && forall i :: 0 <= i < |items| ==> items[i] in fs && src <= items[i]
    ensures var deep := src + src[|dst|..];
            var fs := Chain(deep, deep + [last]);
            ChainState(fs, src, dst, src + [last], n,
                       RunItems(CopyState(fs, PlanFor(fs, src, dst), None), items, Always(Overwrite), false, NoFaults(), n))
  {
    var deep := src + src[|dst|..];
    var fs := Chain(deep, deep + [last]);
    if n > 0 {
      ChainRun(src, dst, last, items, n - 1);
      ChainOnce(src, dst, last, items, n - 1,
                RunItems(CopyState(fs, PlanFor(fs, src, dst), None), items, Always(Overwrite), false, NoFaults(), n - 1));
    }
  }

  lemma {:induction false} ChainLoss(fs: Fs, src: Path, dst: Path, copy: Path, file: Path, now: Fs)
    requires now == fs || now == fs[copy := File([1])]
    requires file in fs && fs[file] == File([1]) && src <= file && src <= copy && Relocate(src, dst, file) == copy
    requires forall p :: p in fs && fs[p].File? ==> p == file
    ensures !Conserved(fs, RemoveTree(now, src), src, dst)
    ensures forall p :: p in RemoveTree(now, src) ==> !now[p].File?
  {
    assert file !in RemoveTree(now, src) && copy !in RemoveTree(now, src);
  }

  lemma {:induction false} ChainMoveLoses(src: Path, dst: Path, last: Name, items: seq<Path>)
    requires dst != [] && dst < src && last != src[|dst|]
    requires var deep := src + src[|dst|..];
             var fs := Chain(deep, deep + [last]);
             && |items| > 0 && items[0] == src
             && forall i :: 0 <= i < |items| ==> items[i] in fs && src <= items[i]
    ensures var deep := src + src[|dst|..];
            var fs := Chain(deep, deep + [last]);
            var after := FallbackMove(fs, items, src, dst, Always(Overwrite), NoFaults(), |items|, false, false);
            !Conserved(fs, after, src, dst) && forall p :: p in after ==> !after[p].File?
  {
    var deep := src + src[|dst|..];
    var file := deep + [last];
    var fs := Chain(deep, file);
    ChainMembers(deep, last);
    ChainRun(src, dst, last, items, |items|);
    assert dst <= deep by {
      assert src <= deep;
    }
    assert src <= file;
    ChainDestinations(src, dst, file, last);
    assert file != deep && !(file <= deep);
    assert (src + [last])[..|src|] == src;
    var run := RunItems(CopyState(fs, PlanFor(fs, src, dst), None), items, Always(Overwrite), false, NoFaults(), |items|);
    ChainLoss(fs, src, dst, src + [last], file, run.state.fs);
  }

  /** For every source and every ancestor of it that planning accepts as its destination,
      there is a file system in which an overwriting move loses a file: the copy goes into
      the source, and the source is removed. */
  lemma {:induction false} AncestorMoveLoses(src: Path, directory: Path) returns (fs: Fs, listing: Listing)
    requires |src| >= 2 && directory != [] && Destination(src, directory) < src
    ensures Accepted(fs, listing, src, directory)
    ensures var dst, items := Destination(src, directory), Items(fs, listing, src);
            var after := FallbackMove(fs, items, src, dst, Always(Overwrite), NoFaults(), |items|, false, false);
            && !Conserved(fs, after, src, dst)
            && (exists p :: p in fs && fs[p].File?) && (forall p :: p in after ==> !after[p].File?)
  {
    var dst := Destination(src, directory);
    var deep := src + src[|dst|..];
    var last := src[|dst|] + "x";
    fs, listing := Chain(deep, deep + [last]), ChainListing(deep, last);
    ChainMembers(deep, last);
    ChainIsWellFormed(deep, last);
    ChainIsListed(deep, last);
    assert src <= deep;
    assert directory[0] == dst[0] == src[0];
    assert fs[deep + [last]].File?;
    ChainMoveLoses(src, dst, last, Items(fs, listing, src));
  }

  ghost predicate AlwaysConserved(src: Path, directory: Path, e: Resolution)
    requires src != []
  {
    forall fs: Fs, listing: Listing, faults: nat -> Fault, n: nat, cancelled, finishFault ::
      Accepted(fs, listing, src, directory) && n <= |Items(fs, listing, src)| ==>
        Conserved(fs, FallbackMove(fs, Items(fs, listing, src), src, Destination(src, directory), Always(e), faults, n,
                                   cancelled, finishFault),
                  src, FinalRoot(fs, Destination(src, directory), e))
  }

  /** A copy-then-delete move is safe on every file system exactly when it does not
      overwrite an ancestor of its own source. */
  lemma {:induction false} FallbackMoveConservesIff(src: Path, directory: Path, e: Resolution)
    requires |src| >= 2 && directory != []
    ensures AlwaysConserved(src, directory, e) <==> !(e == Overwrite && Destination(src, directory) < src)
  {
    var dst := Destination(src, directory);
    if e == Overwrite && dst < src {
      var fs, listing := AncestorMoveLoses(src, directory);
      var items := Items(fs, listing, src);
      var after := FallbackMove(fs, items, src, dst, Always(e), NoFaults(), |items|, false, false);
      assert !Conserved(fs, after, src, FinalRoot(fs, dst, e));
    } else {
      forall fs: Fs, listing: Listing, faults: nat -> Fault, n: nat, cancelled, finishFault |
        Accepted(fs, listing, src, directory) && n <= |Items(fs, listing, src)|
        ensures Conserved(fs, FallbackMove(fs, Items(fs, listing, src), src, dst, Always(e), faults, n, cancelled, finishFault),
                          src, FinalRoot(fs, dst, e))
      {
        FallbackMoveConserves(fs, listing, src, directory, e, faults, n, cancelled, finishFault);
      }
    }
  }
}
