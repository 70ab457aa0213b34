/** Copying a tree: the planner's stack walk, and the execution of one planned item
    against a destination that may already be occupied. */
module CopyOperation {
  import opened FileTree
  import opened StackWalk
  import opened FreshName

  datatype SymlinkPolicy = CopyLink | CopyTarget
  datatype MaybePath = None | Some(path: Path)

  datatype ConflictPolicy = Ask | SkipExisting | OverwriteExisting | RenameIncoming | KeepNewer
  datatype Resolution = Undecided | Skip | Overwrite | RenameNew

  datatype PlannedCopy = PlannedCopy(kind: Kind, destination: Path, source: Path, isRoot: bool)

  datatype PlanError = NotFound | NoName | OtherProvider | InsideSource | Dangling(link: Path)
  datatype PlanResult = Planned(items: seq<Path>) | Rejected(error: PlanError)

  /** A failure of the provider: while a conflict is being prepared, or in the final write. */
  datatype Fault = NoFault | PrepareFault | WriteFault

  datatype Outcome = Completed | Skipped | Conflict | Failed | Warned

  /** The file system together with the executor's mutable fields. */
  datatype CopyState = CopyState(fs: Fs, planned: map<Path, PlannedCopy>, completedRoot: MaybePath)
  datatype StepResult = StepResult(state: CopyState, outcome: Outcome)

  /** A per-item resolution wins over the operation's policy. */
  function EffectiveResolution(policy: ConflictPolicy, resolution: Resolution): Resolution {
    if resolution != Undecided then resolution else
    match policy
    case Ask => Undecided
    case SkipExisting => Skip
    case OverwriteExisting => Overwrite
    case RenameIncoming => RenameNew
    case KeepNewer => Undecided
  }

  /** `p` seen from `dst` instead of `src`. */
  function Relocate(src: Path, dst: Path, p: Path): Path
    requires src <= p
  {
    dst + p[|src|..]
  }

  // ---------------------------------------------------------------- planning

  datatype Frame = Frame(path: Path, destination: Path)

  function ChildFrame(p: Path, destination: Path): Name -> Frame {
    n => Frame(p + [n], destination + [n])
  }

  ghost predicate Framed(fs: Fs, stack: seq<Frame>) {
    forall i :: 0 <= i < |stack| ==> stack[i].path in fs
  }

  /** Every stacked entry is headed for its place below `dst`. */
  ghost predicate Aligned(src: Path, dst: Path, stack: seq<Frame>) {
    forall i :: 0 <= i < |stack| ==>
      src <= stack[i].path && stack[i].destination == Relocate(src, dst, stack[i].path)
  }

  /** The real tree nodes below the stacked entries, in the order a walk that follows no
      link would plan them. */
  ghost function Pending(fs: Fs, listing: Listing, stack: seq<Frame>): seq<Path>
    requires Lists(fs, listing) && Framed(fs, stack)
  {
    if stack == [] then []
    else Walk(fs, listing, false, stack[|stack| - 1].path) + Pending(fs, listing, stack[..|stack| - 1])
  }

  lemma {:induction false} PendingPushed(fs: Fs, listing: Listing, stack: seq<Frame>, p: Path, destination: Path,
                                         names: seq<Name>)
    requires Lists(fs, listing) && Framed(fs, stack) && p in fs
    requires forall n :: n in names ==> p + [n] in fs
    ensures var pushed := PushAll(stack, names, ChildFrame(p, destination));
            && Framed(fs, pushed)
            && Pending(fs, listing, pushed) == WalkChildren(fs, listing, false, p, names) + Pending(fs, listing, stack)
  {
    var make := ChildFrame(p, destination);
    if names != [] {
      PendingPushed(fs, listing, stack, p, destination, names[1..]);
      var rest := PushAll(stack, names[1..], make);
      var pushed := PushAll(stack, names, make);
      assert pushed[..|pushed| - 1] == rest;
    }
  }

  lemma {:induction false} AlignedPushed(src: Path, dst: Path, stack: seq<Frame>, p: Path, names: seq<Name>)
    requires Aligned(src, dst, stack) && src <= p
    ensures Aligned(src, dst, PushAll(stack, names, ChildFrame(p, Relocate(src, dst, p))))
  {
    if names != [] {
      AlignedPushed(src, dst, stack, p, names[1..]);
      var n := names[0];
      assert (p + [n])[|src|..] == p[|src|..] + [n];
    }
  }

  /** The stack after its top entry is popped and `target` is visited in its place. */
  ghost function Advanced(fs: Fs, listing: Listing, stack: seq<Frame>, target: Path): seq<Frame>
    requires stack != [] && target in fs
  {
    var top, rest := stack[|stack| - 1], stack[..|stack| - 1];
    if fs[target].Directory? then PushAll(rest, VisitOrder(listing(target)), ChildFrame(target, top.destination)) else rest
  }

  /** Visiting the popped entry itself, or a non-directory it links to, leaves one real
      tree node less. */
  lemma {:induction false} AdvancedPending(fs: Fs, listing: Listing, stack: seq<Frame>, target: Path)
    requires Lists(fs, listing) && stack != [] && Framed(fs, stack) && target in fs
    ensures var next := Advanced(fs, listing, stack, target);
            && Framed(fs, next)
            && (target == stack[|stack| - 1].path ==>
                  [target] + Pending(fs, listing, next) == Pending(fs, listing, stack))
            && (target == stack[|stack| - 1].path || !fs[target].Directory? ==>
                  |Pending(fs, listing, next)| < |Pending(fs, listing, stack)|)
  {
    var top, rest := stack[|stack| - 1], stack[..|stack| - 1];
    VisitedPending(fs, listing, rest, target, top.destination);
    assert Pending(fs, listing, stack) == Walk(fs, listing, false, top.path) + Pending(fs, listing, rest);
  }

  /** A visited entry is replaced by its children. */
  lemma {:induction false} VisitedPending(fs: Fs, listing: Listing, rest: seq<Frame>, target: Path, destination: Path)
    requires Lists(fs, listing) && Framed(fs, rest) && target in fs
    ensures var next := if fs[target].Directory?
                        then PushAll(rest, VisitOrder(listing(target)), ChildFrame(target, destination)) else rest;
            && Framed(fs, next)
            && [target] + Pending(fs, listing, next) == Walk(fs, listing, false, target) + Pending(fs, listing, rest)
  {
    if fs[target].Directory? {
      var names := VisitOrder(listing(target));
      PendingPushed(fs, listing, rest, target, destination, names);
      Associate([target], WalkChildren(fs, listing, false, target, names), Pending(fs, listing, rest));
    }
  }

  lemma {:induction false} AdvancedAligned(fs: Fs, listing: Listing, src: Path, dst: Path, stack: seq<Frame>)
    requires stack != [] && Framed(fs, stack) && Aligned(src, dst, stack)
    ensures Aligned(src, dst, Advanced(fs, listing, stack, stack[|stack| - 1].path))
  {
    var top, rest := stack[|stack| - 1], stack[..|stack| - 1];
    AlignedPushed(src, dst, rest, top.path, VisitOrder(listing(top.path)));
  }

  /** `resolve` follows a link to the entry it finally denotes, or fails. */
  ghost predicate Resolves(fs: Fs, resolve: Path -> MaybePath) {
    forall p {:trigger resolve(p)} :: resolve(p).Some? ==> resolve(p).path in fs && !fs[resolve(p).path].Link?
  }

  ghost function DirectoryIds(fs: Fs, id: Path -> nat): set<nat> {
    set p | p in fs && fs[p].Directory? :: id(p)
  }

  /** `p` is a link that denotes a directory. */
  ghost predicate DirectoryLink(fs: Fs, resolve: Path -> MaybePath, p: Path) {
    p in fs && fs[p].Link? && resolve(p).Some? && resolve(p).path in fs && fs[resolve(p).path].Directory?
  }

  /** No directory is entered through two of the planned links. */
  ghost predicate LinksEnterOnce(fs: Fs, resolve: Path -> MaybePath, id: Path -> nat, items: seq<Path>) {
    forall i, j :: 0 <= i < j < |items| && DirectoryLink(fs, resolve, items[i]) && DirectoryLink(fs, resolve, items[j]) ==>
      id(resolve(items[i]).path) != id(resolve(items[j]).path)
  }

  ghost predicate LinksRecorded(fs: Fs, resolve: Path -> MaybePath, id: Path -> nat, items: seq<Path>, ids: set<nat>) {
    forall i :: 0 <= i < |items| && DirectoryLink(fs, resolve, items[i]) ==> id(resolve(items[i]).path) in ids
  }

  /** What the planner does with a popped entry: give up, drop it as a directory that was
      entered before, or visit it (or what it links to) with more ids recorded. */
  datatype Verdict = Broken | Again | Visit(target: Path, followed: set<nat>)

  function Follow(fs: Fs, symlinks: SymlinkPolicy, resolve: Path -> MaybePath, id: Path -> nat, p: Path,
                  followed: set<nat>): (v: Verdict)
    requires p in fs && forall q :: resolve(q).Some? ==> resolve(q).path in fs && !fs[resolve(q).path].Link?
    ensures symlinks.CopyLink? ==> v == Visit(p, followed)
    ensures v.Visit? ==> v.target in fs && followed <= v.followed
    ensures v.Visit? && v.target != p && fs[v.target].Directory? ==> id(v.target) !in followed && id(v.target) in v.followed
    ensures v.Visit? && symlinks.CopyTarget? ==> !fs[v.target].Link? && (fs[p].Link? ==> resolve(p) == Some(v.target))
  {
    if symlinks.CopyLink? then Visit(p, followed)
    else if fs[p].Link? then
      match resolve(p)
      case None => Broken
      case Some(target) =>
        if !fs[target].Directory? then Visit(target, followed)
        else if id(target) in followed then Again
        else Visit(target, followed + {id(target)})
    else if fs[p].Directory? then Visit(p, followed + {id(p)})
    else Visit(p, followed)
  }

  lemma {:induction false} LinksEnterOnceAppend(fs: Fs, resolve: Path -> MaybePath, id: Path -> nat, items: seq<Path>, ids: set<nat>,
                             p: Path, more: set<nat>)
    requires LinksEnterOnce(fs, resolve, id, items) && LinksRecorded(fs, resolve, id, items, ids) && ids <= more
    requires DirectoryLink(fs, resolve, p) ==> id(resolve(p).path) !in ids && id(resolve(p).path) in more
    ensures LinksEnterOnce(fs, resolve, id, items + [p]) && LinksRecorded(fs, resolve, id, items + [p], more)
  {
  }

  /** The plan of a copy that follows no links. */
  ghost function PlanFor(fs: Fs, src: Path, dst: Path): map<Path, PlannedCopy> {
    map p | p in fs && src <= p :: PlannedCopy(KindOf(fs[p]), Relocate(src, dst, p), p, p == src)
  }

  ghost predicate LinkPlans(fs: Fs, src: Path, dst: Path, plans: map<Path, PlannedCopy>) {
    forall p :: p in plans ==>
      p in fs && src <= p && plans[p] == PlannedCopy(KindOf(fs[p]), Relocate(src, dst, p), p, p == src)
  }

  /** Every planned source exists, has the planned kind and is not a link. */
  /** Followed links: each planned entry is copied from itself, or from what it links to. */
  ghost predicate TargetPlans(fs: Fs, resolve: Path -> MaybePath, src: Path, plans: map<Path, PlannedCopy>) {
    forall p :: p in plans ==> p in fs && TargetPlan(fs, resolve, src, p, plans[p])
  }

  ghost predicate TargetPlan(fs: Fs, resolve: Path -> MaybePath, src: Path, p: Path, plan: PlannedCopy)
    requires p in fs
  {
    && plan.source in fs && plan.kind == KindOf(fs[plan.source]) && plan.kind != SymlinkKind
    && (if fs[p].Link? then resolve(p) == Some(plan.source) else plan.source == p)
    && (plan.isRoot <==> p == src)
  }

  lemma {:induction false} LinkPlansComplete(fs: Fs, listing: Listing, src: Path, dst: Path, items: seq<Path>, plans: map<Path, PlannedCopy>)
    requires WellFormed(fs) && Lists(fs, listing) && src in fs
    requires items == Walk(fs, listing, false, src)
    requires LinkPlans(fs, src, dst, plans) && forall p :: p in plans <==> p in items
    ensures plans == PlanFor(fs, src, dst)
  {
    WalkCoversTree(fs, listing, false, src);
    assert PlanFor(fs, src, dst).Keys == Tree(fs, src);
    assert plans.Keys == Tree(fs, src);
  }

  datatype Planning = Done(items: seq<Path>, plans: map<Path, PlannedCopy>, followed: set<nat>) | Stopped(link: Path)

  /** The loop invariant when links are copied: what was planned and what is pending make
      up the pre-order of the source. */
  ghost predicate LinkProgress(fs: Fs, listing: Listing, src: Path, dst: Path, stack: seq<Frame>, items: seq<Path>,
                               plans: map<Path, PlannedCopy>)
    requires Lists(fs, listing) && src in fs
  {
    && Framed(fs, stack) && Aligned(src, dst, stack)
    && items + Pending(fs, listing, stack) == Walk(fs, listing, false, src)
    && LinkPlans(fs, src, dst, plans)
  }

  /** The loop invariant when links are followed. */
  ghost predicate TargetProgress(fs: Fs, resolve: Path -> MaybePath, id: Path -> nat, src: Path, items: seq<Path>,
                                 plans: map<Path, PlannedCopy>, followed: set<nat>) {
    && LinksEnterOnce(fs, resolve, id, items)
    && LinksRecorded(fs, resolve, id, items, followed)
    && TargetPlans(fs, resolve, src, plans)
  }

  lemma {:induction false} TargetProgressKept(fs: Fs, resolve: Path -> MaybePath, id: Path -> nat, src: Path, items: seq<Path>,
                                              plans: map<Path, PlannedCopy>, followed: set<nat>, p: Path, destination: Path)
    requires Resolves(fs, resolve) && p in fs && TargetProgress(fs, resolve, id, src, items, plans, followed)
    requires Follow(fs, CopyTarget, resolve, id, p, followed).Visit?
    ensures var v := Follow(fs, CopyTarget, resolve, id, p, followed);
            TargetProgress(fs, resolve, id, src, items + [p],
                           plans[p := PlannedCopy(KindOf(fs[v.target]), destination, v.target, p == src)], v.followed)
  {
    var v := Follow(fs, CopyTarget, resolve, id, p, followed);
    LinksEnterOnceAppend(fs, resolve, id, items, followed, p, v.followed);
  }

  /** Every entry of the source tree that is no link is planned, or will be reached from the
      stack. */
  ghost predicate Covered(fs: Fs, src: Path, stack: seq<Frame>, items: seq<Path>) {
    forall p :: p in fs && src <= p && !fs[p].Link? ==> p in items || Reachable(stack, p)
  }

  ghost predicate Reachable(stack: seq<Frame>, p: Path) {
    exists i :: 0 <= i < |stack| && stack[i].path <= p
  }

  lemma {:induction false} PushedReachable(stack: seq<Frame>, names: seq<Name>, make: Name -> Frame, p: Path)
    ensures Reachable(stack, p) ==> Reachable(PushAll(stack, names, make), p)
    ensures (exists n :: n in names && make(n).path <= p) ==> Reachable(PushAll(stack, names, make), p)
  {
    if names != [] {
      var rest, pushed := PushAll(stack, names[1..], make), PushAll(stack, names, make);
      PushedReachable(stack, names[1..], make, p);
      if i :| 0 <= i < |rest| && rest[i].path <= p {
        assert pushed[i].path <= p;
      }
      assert pushed[|rest|] == make(names[0]);
    }
  }

  /** Visiting the top of the stack, or dropping a link, leaves every real entry covered. */
  lemma {:induction false} CoveredKept(fs: Fs, listing: Listing, src: Path, stack: seq<Frame>, items: seq<Path>, target: Path)
    requires WellFormed(fs) && Lists(fs, listing) && stack != [] && Framed(fs, stack) && target in fs
    requires Covered(fs, src, stack, items)
    ensures fs[stack[|stack| - 1].path].Link? ==> Covered(fs, src, stack[..|stack| - 1], items)
    ensures fs[stack[|stack| - 1].path].Link? || target == stack[|stack| - 1].path ==>
              Covered(fs, src, Advanced(fs, listing, stack, target), items + [stack[|stack| - 1].path])
  {
    var top, rest := stack[|stack| - 1], stack[..|stack| - 1];
    forall p | p in fs && src <= p && !fs[p].Link? && p !in items
      ensures Reachable(rest, p) || (top.path <= p && !fs[top.path].Link?)
    {
      var i :| 0 <= i < |stack| && stack[i].path <= p;
      if i < |rest| {
        assert rest[i].path <= p;
      } else {
        AncestorsAreDirectories(fs, top.path, p);
      }
    }
    forall p | p in fs && src <= p && !fs[p].Link? && p !in items && p != top.path && (fs[top.path].Link? || target == top.path)
      ensures Reachable(Advanced(fs, listing, stack, target), p)
    {
      ReachableAfter(fs, listing, stack, target, p);
    }
  }

  lemma {:induction false} ReachableAfter(fs: Fs, listing: Listing, stack: seq<Frame>, target: Path, p: Path)
    requires WellFormed(fs) && Lists(fs, listing) && stack != [] && Framed(fs, stack) && target in fs && p in fs
    requires Reachable(stack[..|stack| - 1], p) || (stack[|stack| - 1].path < p && target == stack[|stack| - 1].path)
    ensures Reachable(Advanced(fs, listing, stack, target), p)
  {
    var top, rest := stack[|stack| - 1], stack[..|stack| - 1];
    var names, make := VisitOrder(listing(target)), ChildFrame(target, top.destination);
    PushedReachable(rest, names, make, p);
    if !Reachable(rest, p) {
      AncestorsAreDirectories(fs, target, p);
      var child := target + [p[|target|]];
      assert child <= p;
      AncestorsAreDirectories(fs, child, p);
      assert p[|target|] in names && make(p[|target|]).path == child;
    }
  }

  /** What a planned entry is copied from: itself, or what it links to. */
  function TargetOf(fs: Fs, resolve: Path -> MaybePath, p: Path): Path
    requires p in fs
  {
    if fs[p].Link? && resolve(p).Some? then resolve(p).path else p
  }

  /** A planned entry stands for a directory with this id. */
  ghost predicate Entered(fs: Fs, resolve: Path -> MaybePath, id: Path -> nat, items: seq<Path>, k: nat) {
    exists p :: p in items && StandsForDirectory(fs, resolve, p) && id(TargetOf(fs, resolve, p)) == k
  }

  ghost predicate StandsForDirectory(fs: Fs, resolve: Path -> MaybePath, p: Path) {
    p in fs && TargetOf(fs, resolve, p) in fs && fs[TargetOf(fs, resolve, p)].Directory?
  }

  ghost predicate OnStack(stack: seq<Frame>, p: Path) {
    exists i :: 0 <= i < |stack| && stack[i].path == p
  }

  /** The entry is planned, or will be, or is a link to a directory that was recorded. */
  ghost predicate Handled(fs: Fs, resolve: Path -> MaybePath, id: Path -> nat, stack: seq<Frame>, items: seq<Path>,
                          followed: set<nat>, p: Path) {
    p in items || OnStack(stack, p) || (DirectoryLink(fs, resolve, p) && id(resolve(p).path) in followed)
  }

  ghost predicate ChildOf(fs: Fs, resolve: Path -> MaybePath, p: Path, q: Path) {
    StandsForDirectory(fs, resolve, p) && q in fs && q != [] && Parent(q) == TargetOf(fs, resolve, p)
  }

  /** The source and the children of every planned directory are handled, and only directories
      that were entered are recorded. */
  ghost predicate Closing(fs: Fs, resolve: Path -> MaybePath, id: Path -> nat, src: Path, stack: seq<Frame>, items: seq<Path>,
                          followed: set<nat>) {
    && Handled(fs, resolve, id, stack, items, followed, src)
    && (forall p, q :: p in items && ChildOf(fs, resolve, p, q) ==> Handled(fs, resolve, id, stack, items, followed, q))
    && (forall k :: k in followed ==> Entered(fs, resolve, id, items, k))
  }

  /** The plan is closed: the source, and everything in a directory that a planned entry stands
      for, is planned, except a link to a directory that some planned entry stands for. */
  ghost predicate Closed(fs: Fs, resolve: Path -> MaybePath, id: Path -> nat, src: Path, items: seq<Path>) {
    && (src in items || Dropped(fs, resolve, id, items, src))
    && forall p, q :: p in items && ChildOf(fs, resolve, p, q) ==> q in items || Dropped(fs, resolve, id, items, q)
  }

  ghost predicate Dropped(fs: Fs, resolve: Path -> MaybePath, id: Path -> nat, items: seq<Path>, p: Path) {
    DirectoryLink(fs, resolve, p) && Entered(fs, resolve, id, items, id(resolve(p).path))
  }

  lemma {:induction false} PushedOnStack(stack: seq<Frame>, names: seq<Name>, make: Name -> Frame, p: Path)
    ensures OnStack(stack, p) ==> OnStack(PushAll(stack, names, make), p)
    ensures (exists n :: n in names && make(n).path == p) ==> OnStack(PushAll(stack, names, make), p)
  {
    if names != [] {
      var rest, pushed := PushAll(stack, names[1..], make), PushAll(stack, names, make);
      PushedOnStack(stack, names[1..], make, p);
      if i :| 0 <= i < |rest| && rest[i].path == p {
        assert pushed[i].path == p;
      }
      assert pushed[|rest|] == make(names[0]);
    }
  }

  lemma {:induction false} HandledLater(fs: Fs, listing: Listing, resolve: Path -> MaybePath, id: Path -> nat, stack: seq<Frame>,
                                        items: seq<Path>, followed: set<nat>, target: Path, more: set<nat>, p: Path)
    requires stack != [] && target in fs && followed <= more
    requires Handled(fs, resolve, id, stack, items, followed, p)
    ensures Handled(fs, resolve, id, Advanced(fs, listing, stack, target), items + [stack[|stack| - 1].path], more, p)
  {
    var top, rest := stack[|stack| - 1], stack[..|stack| - 1];
    if OnStack(stack, p) && p != top.path {
      var i :| 0 <= i < |stack| && stack[i].path == p;
      assert rest[i].path == p;
      PushedOnStack(rest, VisitOrder(listing(target)), ChildFrame(target, top.destination), p);
    }
  }

  lemma {:induction false} ChildrenStacked(fs: Fs, listing: Listing, resolve: Path -> MaybePath, stack: seq<Frame>, target: Path, q: Path)
    requires Lists(fs, listing) && stack != [] && target in fs && fs[target].Directory?
    requires q in fs && q != [] && Parent(q) == target
    ensures OnStack(Advanced(fs, listing, stack, target), q)
  {
    var names, make := VisitOrder(listing(target)), ChildFrame(target, stack[|stack| - 1].destination);
    assert q == target + [LastName(q)] && LastName(q) in names && make(LastName(q)).path == q;
    PushedOnStack(stack[..|stack| - 1], names, make, q);
  }

  lemma {:induction false} EnteredLater(fs: Fs, resolve: Path -> MaybePath, id: Path -> nat, items: seq<Path>, p: Path, k: nat)
    requires Entered(fs, resolve, id, items, k)
    ensures Entered(fs, resolve, id, items + [p], k)
  {
    var q :| q in items && StandsForDirectory(fs, resolve, q) && id(TargetOf(fs, resolve, q)) == k;
    assert q in items + [p];
  }

  lemma {:induction false} ClosingVisited(fs: Fs, listing: Listing, resolve: Path -> MaybePath, id: Path -> nat, src: Path,
                                          stack: seq<Frame>, items: seq<Path>, followed: set<nat>)
    requires Lists(fs, listing) && Resolves(fs, resolve) && stack != [] && Framed(fs, stack)
    requires Closing(fs, resolve, id, src, stack, items, followed)
    requires Follow(fs, CopyTarget, resolve, id, stack[|stack| - 1].path, followed).Visit?
    ensures var top := stack[|stack| - 1];
            var v := Follow(fs, CopyTarget, resolve, id, top.path, followed);
            Closing(fs, resolve, id, src, Advanced(fs, listing, stack, v.target), items + [top.path], v.followed)
  {
    var top := stack[|stack| - 1];
    var v := Follow(fs, CopyTarget, resolve, id, top.path, followed);
    var next, more := Advanced(fs, listing, stack, v.target), items + [top.path];
    assert v.target == TargetOf(fs, resolve, top.path);
    HandledLater(fs, listing, resolve, id, stack, items, followed, v.target, v.followed, src);
    forall p, q | p in more && ChildOf(fs, resolve, p, q)
      ensures Handled(fs, resolve, id, next, more, v.followed, q)
    {
      if p == top.path {
        ChildrenStacked(fs, listing, resolve, stack, v.target, q);
      } else {
        HandledLater(fs, listing, resolve, id, stack, items, followed, v.target, v.followed, q);
      }
    }
    forall k | k in v.followed
      ensures Entered(fs, resolve, id, more, k)
    {
      if k in followed {
        EnteredLater(fs, resolve, id, items, top.path, k);
      } else {
        assert top.path in more && StandsForDirectory(fs, resolve, top.path);
      }
    }
  }

  lemma {:induction false} ClosingDropped(fs: Fs, resolve: Path -> MaybePath, id: Path -> nat, src: Path, stack: seq<Frame>,
                                          items: seq<Path>, followed: set<nat>)
    requires stack != [] && Framed(fs, stack) && Resolves(fs, resolve)
    requires Closing(fs, resolve, id, src, stack, items, followed)
    requires Follow(fs, CopyTarget, resolve, id, stack[|stack| - 1].path, followed).Again?
    ensures Closing(fs, resolve, id, src, stack[..|stack| - 1], items, followed)
  {
    var top, rest := stack[|stack| - 1], stack[..|stack| - 1];
    forall p | OnStack(stack, p) && p != top.path
      ensures OnStack(rest, p)
    {
      var i :| 0 <= i < |stack| && stack[i].path == p;
      assert rest[i].path == p;
    }
    assert DirectoryLink(fs, resolve, top.path) && id(resolve(top.path).path) in followed;
    forall p | Handled(fs, resolve, id, stack, items, followed, p)
      ensures Handled(fs, resolve, id, rest, items, followed, p)
    {
    }
  }

  lemma {:induction false} ClosedAtLast(fs: Fs, resolve: Path -> MaybePath, id: Path -> nat, src: Path, items: seq<Path>,
                                        followed: set<nat>)
    requires Closing(fs, resolve, id, src, [], items, followed)
    ensures Closed(fs, resolve, id, src, items)
  {
    forall p | Handled(fs, resolve, id, [], items, followed, p)
      ensures p in items || Dropped(fs, resolve, id, items, p)
    {
    }
  }

  /** No link leads to a directory. */
  ghost predicate NoDirectoryLinks(fs: Fs, resolve: Path -> MaybePath) {
    forall p :: p in fs ==> !DirectoryLink(fs, resolve, p)
  }

  /** The loop invariant when links are followed and none leads to a directory: as for copied
      links, with every entry headed for its own place. */
  ghost predicate DirectProgress(fs: Fs, listing: Listing, src: Path, dst: Path, stack: seq<Frame>, items: seq<Path>,
                                 plans: map<Path, PlannedCopy>)
    requires Lists(fs, listing) && src in fs
  {
    && Framed(fs, stack) && Aligned(src, dst, stack)
    && items + Pending(fs, listing, stack) == Walk(fs, listing, false, src)
    && forall p :: p in plans ==> src <= p && plans[p].destination == Relocate(src, dst, p)
  }

  lemma {:induction false} DirectProgressKept(fs: Fs, listing: Listing, src: Path, dst: Path, stack: seq<Frame>, items: seq<Path>,
                                              plans: map<Path, PlannedCopy>, target: Path, plan: PlannedCopy)
    requires Lists(fs, listing) && src in fs && stack != [] && DirectProgress(fs, listing, src, dst, stack, items, plans)
    requires target in fs && (target == stack[|stack| - 1].path || (fs[stack[|stack| - 1].path].Link? && !fs[target].Directory?))
    requires plan.destination == stack[|stack| - 1].destination
    ensures var top := stack[|stack| - 1];
            DirectProgress(fs, listing, src, dst, Advanced(fs, listing, stack, target), items + [top.path],
                           plans[top.path := plan])
  {
    var top, rest := stack[|stack| - 1], stack[..|stack| - 1];
    if target == top.path {
      AdvancedPending(fs, listing, stack, target);
      AdvancedAligned(fs, listing, src, dst, stack);
    } else {
      assert Advanced(fs, listing, stack, target) == rest;
      assert Walk(fs, listing, false, top.path) == [top.path];
    }
    Associate(items, [top.path], Pending(fs, listing, Advanced(fs, listing, stack, target)));
  }

  lemma {:induction false} LinkProgressKept(fs: Fs, listing: Listing, src: Path, dst: Path, stack: seq<Frame>, items: seq<Path>,
                         plans: map<Path, PlannedCopy>)
    requires Lists(fs, listing) && src in fs && stack != []
    requires LinkProgress(fs, listing, src, dst, stack, items, plans)
    ensures var top := stack[|stack| - 1];
            LinkProgress(fs, listing, src, dst, Advanced(fs, listing, stack, top.path), items + [top.path],
                         plans[top.path := PlannedCopy(KindOf(fs[top.path]), top.destination, top.path, top.path == src)])
  {
    var top := stack[|stack| - 1];
    AdvancedPending(fs, listing, stack, top.path);
    AdvancedAligned(fs, listing, src, dst, stack);
    var pending := Pending(fs, listing, Advanced(fs, listing, stack, top.path));
    assert items + ([top.path] + pending) == items + [top.path] + pending;
  }

  /** The whole loop invariant. */
  ghost predicate PlanProgress(symlinks: SymlinkPolicy, fs: Fs, listing: Listing, resolve: Path -> MaybePath, id: Path -> nat,
                               src: Path, dst: Path, stack: seq<Frame>, items: seq<Path>, plans: map<Path, PlannedCopy>,
                               followed: set<nat>)
    requires Lists(fs, listing) && src in fs
  {
    match symlinks
    case CopyLink => LinkProgress(fs, listing, src, dst, stack, items, plans)
    case CopyTarget =>
      && TargetProgress(fs, resolve, id, src, items, plans, followed)
      && Covered(fs, src, stack, items)
      && Closing(fs, resolve, id, src, stack, items, followed)
      && (NoDirectoryLinks(fs, resolve) ==> DirectProgress(fs, listing, src, dst, stack, items, plans))
  }

  lemma {:induction false} PlanProgressKept(symlinks: SymlinkPolicy, fs: Fs, listing: Listing, resolve: Path -> MaybePath,
                                            id: Path -> nat, src: Path, dst: Path, stack: seq<Frame>, items: seq<Path>,
                                            plans: map<Path, PlannedCopy>, followed: set<nat>)
    requires WellFormed(fs) && Lists(fs, listing) && Resolves(fs, resolve) && src in fs && stack != [] && Framed(fs, stack)
    requires PlanProgress(symlinks, fs, listing, resolve, id, src, dst, stack, items, plans, followed)
    ensures var top := stack[|stack| - 1];
            var v := Follow(fs, symlinks, resolve, id, top.path, followed);
            && (v.Again? ==>
                  PlanProgress(symlinks, fs, listing, resolve, id, src, dst, stack[..|stack| - 1], items, plans, followed))
            && (v.Visit? ==>
                  PlanProgress(symlinks, fs, listing, resolve, id, src, dst, Advanced(fs, listing, stack, v.target),
                               items + [top.path],
                               plans[top.path := PlannedCopy(KindOf(fs[v.target]), top.destination, v.target, top.path == src)],
                               v.followed))
  {
    var top := stack[|stack| - 1];
    var v := Follow(fs, symlinks, resolve, id, top.path, followed);
    match symlinks
    case CopyLink => LinkProgressKept(fs, listing, src, dst, stack, items, plans);
    case CopyTarget =>
      CoveredKept(fs, listing, src, stack, items, if v.Visit? then v.target else top.path);
      if v.Visit? {
        ClosingVisited(fs, listing, resolve, id, src, stack, items, followed);
        TargetProgressKept(fs, resolve, id, src, items, plans, followed, top.path, top.destination);
        if NoDirectoryLinks(fs, resolve) {
          DirectProgressKept(fs, listing, src, dst, stack, items, plans, v.target,
                             PlannedCopy(KindOf(fs[v.target]), top.destination, v.target, top.path == src));
        }
      } else if v.Again? {
        ClosingDropped(fs, resolve, id, src, stack, items, followed);
        assert !NoDirectoryLinks(fs, resolve) by {
          assert DirectoryLink(fs, resolve, top.path);
        }
      }
  }

  lemma {:induction false} PlanStarts(symlinks: SymlinkPolicy, fs: Fs, listing: Listing, resolve: Path -> MaybePath,
                                      id: Path -> nat, src: Path, dst: Path)
    requires Lists(fs, listing) && src in fs
    ensures Framed(fs, [Frame(src, dst)])
    ensures PlanProgress(symlinks, fs, listing, resolve, id, src, dst, [Frame(src, dst)], [], map[], {})
  {
    var stack := [Frame(src, dst)];
    assert stack[..0] == [];
    assert src[|src|..] == [];
    forall p | src <= p
      ensures Reachable(stack, p)
    {
      assert stack[0].path <= p;
    }
    assert stack[0].path == src;
  }

  /** What a finished walk gives. */
  lemma {:induction false} PlanProgressDone(symlinks: SymlinkPolicy, fs: Fs, listing: Listing, resolve: Path -> MaybePath,
                                            id: Path -> nat, src: Path, dst: Path, items: seq<Path>,
                                            plans: map<Path, PlannedCopy>, followed: set<nat>)
    requires Lists(fs, listing) && src in fs
    requires PlanProgress(symlinks, fs, listing, resolve, id, src, dst, [], items, plans, followed)
    ensures symlinks.CopyLink? ==> LinkProgress(fs, listing, src, dst, [], items, plans)
    ensures symlinks.CopyTarget? ==>
              && LinksEnterOnce(fs, resolve, id, items) && TargetPlans(fs, resolve, src, plans) && RealEntriesIn(fs, src, items)
              && Closed(fs, resolve, id, src, items)
    ensures symlinks.CopyTarget? && NoDirectoryLinks(fs, resolve) ==> DirectPlan(fs, listing, src, dst, items, plans)
  {
    assert items + [] == items;
    if symlinks.CopyTarget? {
      ClosedAtLast(fs, resolve, id, src, items, followed);
    }
    forall p | p in fs
      ensures !Reachable([], p)
    {
    }
  }

  /** Every entry of the tree at `src` that is no link is planned. */
  ghost predicate RealEntriesIn(fs: Fs, src: Path, items: seq<Path>) {
    forall p :: p in fs && src <= p && !fs[p].Link? ==> p in items
  }

  /** The plan is the pre-order of the tree, with every entry headed for its own place. */
  ghost predicate DirectPlan(fs: Fs, listing: Listing, src: Path, dst: Path, items: seq<Path>, plans: map<Path, PlannedCopy>)
    requires Lists(fs, listing)
  {
    && src in fs && items == Walk(fs, listing, false, src)
    && forall p :: p in plans ==> src <= p && plans[p].destination == Relocate(src, dst, p)
  }

  /** Every link can be resolved. */
  ghost predicate NoDangling(fs: Fs, resolve: Path -> MaybePath) {
    forall p :: p in fs && fs[p].Link? ==> resolve(p).Some?
  }

  /** The lexicographic loop variant. */
  ghost predicate Lower(fs: Fs, listing: Listing, id: Path -> nat, stack: seq<Frame>, followed: set<nat>,
                        next: seq<Frame>, more: set<nat>)
    requires Lists(fs, listing) && Framed(fs, stack) && Framed(fs, next)
  {
    || DirectoryIds(fs, id) - more < DirectoryIds(fs, id) - followed
    || (DirectoryIds(fs, id) - more == DirectoryIds(fs, id) - followed
        && |Pending(fs, listing, next)| < |Pending(fs, listing, stack)|)
  }

  /** One iteration lowers the variant: it records a new directory id or leaves fewer real
      tree nodes to visit. */
  lemma {:induction false} PlanningAdvances(fs: Fs, listing: Listing, resolve: Path -> MaybePath, id: Path -> nat, symlinks: SymlinkPolicy,
                         stack: seq<Frame>, followed: set<nat>)
    requires Lists(fs, listing) && Resolves(fs, resolve) && stack != [] && Framed(fs, stack)
    ensures var v := Follow(fs, symlinks, resolve, id, stack[|stack| - 1].path, followed);
            && (v.Again? ==>
                  Framed(fs, stack[..|stack| - 1])
                  && Lower(fs, listing, id, stack, followed, stack[..|stack| - 1], followed))
            && (v.Visit? ==>
                  Framed(fs, Advanced(fs, listing, stack, v.target))
                  && Lower(fs, listing, id, stack, followed, Advanced(fs, listing, stack, v.target), v.followed))
  {
    var top := stack[|stack| - 1];
    var v := Follow(fs, symlinks, resolve, id, top.path, followed);
    if v.Visit? {
      AdvancedPending(fs, listing, stack, v.target);
      if v.target != top.path && fs[v.target].Directory? {
        assert id(v.target) in DirectoryIds(fs, id) - followed;
      }
    }
  }

  function Rebased(d: Path, oldRoot: Path, newRoot: Path): Path {
    if oldRoot <= d then Relocate(oldRoot, newRoot, d) else d
  }

  /** Every planned destination at or below `oldRoot` moved to `newRoot`. */
  function Rebase(planned: map<Path, PlannedCopy>, oldRoot: Path, newRoot: Path): map<Path, PlannedCopy> {
    map p | p in planned :: planned[p].(destination := Rebased(planned[p].destination, oldRoot, newRoot))
  }

  // --------------------------------------------------------------- execution

  /** What conflict handling decides: stop with an outcome, or go on to write. */
  datatype Prepared = Stop(outcome: Outcome) | Proceed(state: CopyState, destination: Path, reuse: bool)

  function Prepare(s: CopyState, plan: PlannedCopy, resolution: Resolution, fault: Fault): Prepared {
    var d := plan.destination;
    if d !in s.fs then Proceed(s, d, false)
    else if plan.source !in s.fs || fault.PrepareFault? || d == [] then Stop(Failed)
    else if KindOf(s.fs[plan.source]) != KindOf(s.fs[d]) then Stop(Failed)
    else
      match resolution
      case Undecided => Stop(Conflict)
      case Skip => Stop(Skipped)
      case Overwrite =>
        if plan.kind == SymlinkKind then Proceed(s.(fs := s.fs - {d}), d, false)
        else Proceed(s, d, plan.kind == DirectoryKind)
      case RenameNew =>
        match NextCopyDestination(s.fs, d)
        case Exhausted => Stop(Failed)
        case Found(renamed) =>
          Proceed(if plan.isRoot && plan.kind == DirectoryKind then s.(planned := Rebase(s.planned, d, renamed)) else s,
                  renamed, false)
  }

  /** The node that a completed item leaves at its destination. */
  function Payload(fs: Fs, item: Path, plan: PlannedCopy): Node
    requires item in fs && plan.source in fs
  {
    match plan.kind
    case DirectoryKind => Directory
    case SymlinkKind => fs[item]
    case FileKind => fs[plan.source]
  }

  /** The write succeeds: the parent is a directory and the place is free, or is a
      non-directory that an overwriting file copy replaces. */
  predicate Writable(fs: Fs, item: Path, plan: PlannedCopy, d: Path, overwrite: bool) {
    && item in fs && plan.source in fs
    && d != [] && Parent(d) in fs && fs[Parent(d)].Directory?
    && (d !in fs || (plan.kind == FileKind && overwrite && !fs[d].Directory?))
  }

  function ExecuteStep(s: CopyState, item: Path, resolution: Resolution, continueOnError: bool, fault: Fault): StepResult {
    if item !in s.planned then StepResult(s, Failed) else
    var plan := s.planned[item];
    match Prepare(s, plan, resolution, fault)
    case Stop(outcome) => StepResult(s, outcome)
    case Proceed(t, d, reuse) =>
      if !reuse && (fault.WriteFault? || !Writable(t.fs, item, plan, d, resolution == Overwrite)) then
        StepResult(t, if continueOnError && !plan.isRoot then Warned else Failed)
      else
        var fs := if reuse then t.fs else t.fs[d := Payload(t.fs, item, plan)];
        StepResult(CopyState(fs, t.planned, if plan.isRoot then Some(d) else t.completedRoot), Completed)
  }

  // ------------------------------------------- what one executed item may do

  /** Every entry of `before` is still there, and is the same. */
  ghost predicate Untouched(before: Fs, after: Fs) {
    forall q :: q in before ==> q in after && after[q] == before[q]
  }

  /** Both are files, or both are directories, or both are links. */
  predicate Alike(a: Node, b: Node) {
    a.File? == b.File? && a.Directory? == b.Directory?
  }

  /** `after` is `before` with a copy at `d`: an empty directory, the item's own link, or the
      content of the item's source. */
  ghost predicate Wrote(before: Fs, after: Fs, item: Path, plan: PlannedCopy, d: Path) {
    && d in after
    && (forall q :: q != d ==> (q in after <==> q in before) && (q in before ==> after[q] == before[q]))
    && match plan.kind
       case DirectoryKind => after[d] == Directory
       case SymlinkKind => item in before && after[d] == before[item]
       case FileKind => plan.source in before && after[d] == before[plan.source]
  }

  /** The provider does not fail, the item is there, and `d` has a parent directory. */
  predicate CanWrite(fs: Fs, item: Path, plan: PlannedCopy, d: Path, fault: Fault) {
    && !fault.WriteFault? && item in fs && plan.source in fs
    && d != [] && Parent(d) in fs && fs[Parent(d)].Directory?
  }

  /** The place is taken by an entry like the source, and both can be inspected. */
  predicate MeetsItsKind(fs: Fs, plan: PlannedCopy, fault: Fault) {
    && plan.destination in fs && plan.destination != [] && plan.source in fs && !fault.PrepareFault?
    && Alike(fs[plan.source], fs[plan.destination])
  }

  /** `k` is the smallest suffix whose name is free. */
  ghost predicate FreshSuffix(fs: Fs, d: Path, k: nat)
    requires d != []
  {
    1 <= k <= U32_MAX && Candidate(d, k) !in fs && forall j: nat :: 1 <= j < k ==> Candidate(d, j) in fs
  }

  ghost predicate HasFreshSuffix(fs: Fs, d: Path)
    requires d != []
  {
    exists k: nat :: 1 <= k <= U32_MAX && Candidate(d, k) !in fs
  }

  /** A failed write is a warning below the root when errors are to be continued after. */
  function WriteFailure(c: bool, plan: PlannedCopy): Outcome {
    if c && !plan.isRoot then Warned else Failed
  }

  /** The copy arrived at `d`; a root is recorded. */
  ghost predicate Arrived(s: CopyState, item: Path, plan: PlannedCopy, d: Path, r: StepResult) {
    && r.outcome == Completed && Wrote(s.fs, r.state.fs, item, plan, d)
    && r.state.completedRoot == if plan.isRoot then Some(d) else s.completedRoot
  }

  ghost predicate PlacedFreely(s: CopyState, item: Path, plan: PlannedCopy, c: bool, fault: Fault, r: StepResult) {
    if CanWrite(s.fs, item, plan, plan.destination, fault)
    then Arrived(s, item, plan, plan.destination, r) && r.state.planned == s.planned
    else r == StepResult(s, WriteFailure(c, plan))
  }

  /** Overwriting: a directory is merged into, a file is replaced in place, and a link is removed
      before the new one is written. */
  ghost predicate Replaced(s: CopyState, item: Path, plan: PlannedCopy, c: bool, fault: Fault, r: StepResult) {
    var d := plan.destination;
    match plan.kind
    case DirectoryKind =>
      r == StepResult(s.(completedRoot := if plan.isRoot then Some(d) else s.completedRoot), Completed)
    case FileKind =>
      if CanWrite(s.fs, item, plan, d, fault) && d in s.fs && !s.fs[d].Directory?
      then Arrived(s, item, plan, d, r) && r.state.planned == s.planned
      else r == StepResult(s, WriteFailure(c, plan))
    case SymlinkKind =>
      if CanWrite(s.fs - {d}, item, plan, d, fault)
      then Arrived(s, item, plan, d, r) && r.state.planned == s.planned
      else r == StepResult(s.(fs := s.fs - {d}), WriteFailure(c, plan))
  }

  /** The plans with every destination at or below `d` moved below `moved`. */
  ghost predicate PlansMoved(before: map<Path, PlannedCopy>, after: map<Path, PlannedCopy>, d: Path, moved: Path) {
    && after.Keys == before.Keys
    && forall p :: p in before ==>
         after[p] == before[p].(destination := if d <= before[p].destination then moved + before[p].destination[|d|..]
                                               else before[p].destination)
  }

  /** Renaming: the occupant stays, and the copy goes to the first free name; a directory root
      takes the plans below it along. */
  ghost predicate PlacedBeside(s: CopyState, item: Path, plan: PlannedCopy, c: bool, fault: Fault, r: StepResult)
    requires plan.destination != []
  {
    var d := plan.destination;
    if !HasFreshSuffix(s.fs, d) then r == StepResult(s, Failed)
    else
      exists k: nat :: FreshSuffix(s.fs, d, k) && PlacedAt(s, item, plan, Candidate(d, k), c, fault, r)
  }

  ghost predicate PlacedAt(s: CopyState, item: Path, plan: PlannedCopy, place: Path, c: bool, fault: Fault, r: StepResult) {
    && (if plan.isRoot && plan.kind.DirectoryKind? then PlansMoved(s.planned, r.state.planned, plan.destination, place)
        else r.state.planned == s.planned)
    && (if CanWrite(s.fs, item, plan, place, fault) then Arrived(s, item, plan, place, r)
        else r.state.fs == s.fs && r.state.completedRoot == s.completedRoot && r.outcome == WriteFailure(c, plan))
  }

  lemma {:induction false} FoundIsFresh(fs: Fs, d: Path) returns (k: nat)
    requires d != [] && NextCopyDestination(fs, d).Found?
    ensures FreshSuffix(fs, d, k) && NextCopyDestination(fs, d).destination == Candidate(d, k)
  {
    k :| 1 <= k <= U32_MAX && NextCopyDestination(fs, d).destination == Candidate(d, k) && Candidate(d, k) !in fs
         && forall j :: 1 <= j < k ==> Candidate(d, j) in fs;
  }

  lemma {:induction false} FoundIffFresh(fs: Fs, d: Path)
    requires d != []
    ensures NextCopyDestination(fs, d).Found? <==> HasFreshSuffix(fs, d)
  {
    if NextCopyDestination(fs, d).Found? {
      var k := FoundIsFresh(fs, d);
    }
  }

  /** All of this for one item, by policy and decision. */
  lemma {:induction false} OneStep(s: CopyState, item: Path, policy: ConflictPolicy, decision: Resolution, c: bool, fault: Fault)
    requires item in s.planned
    ensures var plan, r := s.planned[item], ExecuteStep(s, item, EffectiveResolution(policy, decision), c, fault);
            && (plan.destination !in s.fs ==> PlacedFreely(s, item, plan, c, fault, r))
            && (plan.destination in s.fs && !MeetsItsKind(s.fs, plan, fault) ==> r == StepResult(s, Failed))
            && (MeetsItsKind(s.fs, plan, fault) ==>
                  && (decision == Skip || (decision == Undecided && policy == SkipExisting) ==> r == StepResult(s, Skipped))
                  && (decision == Undecided && (policy == Ask || policy == KeepNewer) ==> r == StepResult(s, Conflict))
                  && (decision == Overwrite || (decision == Undecided && policy == OverwriteExisting) ==>
                        Replaced(s, item, plan, c, fault, r))
                  && (decision == RenameNew || (decision == Undecided && policy == RenameIncoming) ==>
                        PlacedBeside(s, item, plan, c, fault, r)))
  {
    var e := EffectiveResolution(policy, decision);
    if s.planned[item].destination !in s.fs {
      FreePlaceStep(s, item, e, c, fault);
    } else {
      StoppedStep(s, item, e, c, fault);
      if MeetsItsKind(s.fs, s.planned[item], fault) {
        OverwriteStep(s, item, c, fault);
        RenameStep(s, item, c, fault);
      }
    }
  }

  lemma {:induction false} FreePlaceStep(s: CopyState, item: Path, r: Resolution, c: bool, fault: Fault)
    requires item in s.planned && s.planned[item].destination !in s.fs
    ensures PlacedFreely(s, item, s.planned[item], c, fault, ExecuteStep(s, item, r, c, fault))
  {
  }

  lemma {:induction false} StoppedStep(s: CopyState, item: Path, r: Resolution, c: bool, fault: Fault)
    requires item in s.planned && s.planned[item].destination in s.fs
    ensures !MeetsItsKind(s.fs, s.planned[item], fault) ==> ExecuteStep(s, item, r, c, fault) == StepResult(s, Failed)
    ensures MeetsItsKind(s.fs, s.planned[item], fault) && r == Skip ==> ExecuteStep(s, item, r, c, fault) == StepResult(s, Skipped)
    ensures MeetsItsKind(s.fs, s.planned[item], fault) && r == Undecided ==>
              ExecuteStep(s, item, r, c, fault) == StepResult(s, Conflict)
  {
  }

  lemma {:induction false} OverwriteStep(s: CopyState, item: Path, c: bool, fault: Fault)
    requires item in s.planned && MeetsItsKind(s.fs, s.planned[item], fault)
    ensures Replaced(s, item, s.planned[item], c, fault, ExecuteStep(s, item, Overwrite, c, fault))
  {
  }

  lemma {:induction false} RenameStep(s: CopyState, item: Path, c: bool, fault: Fault)
    requires item in s.planned && MeetsItsKind(s.fs, s.planned[item], fault)
    ensures PlacedBeside(s, item, s.planned[item], c, fault, ExecuteStep(s, item, RenameNew, c, fault))
  {
    var d := s.planned[item].destination;
    FoundIffFresh(s.fs, d);
    if HasFreshSuffix(s.fs, d) {
      var k := FoundIsFresh(s.fs, d);
      FreshStep(s, item, c, fault, k);
    }
  }

  lemma {:induction false} FreshStep(s: CopyState, item: Path, c: bool, fault: Fault, k: nat)
    requires item in s.planned && MeetsItsKind(s.fs, s.planned[item], fault)
    requires FreshSuffix(s.fs, s.planned[item].destination, k)
    requires NextCopyDestination(s.fs, s.planned[item].destination) == Found(Candidate(s.planned[item].destination, k))
    ensures var plan := s.planned[item];
            PlacedAt(s, item, plan, Candidate(plan.destination, k), c, fault, ExecuteStep(s, item, RenameNew, c, fault))
  {
  }

  class CopyExecutor {
    const source: Path
    const destinationDirectory: Path
    const symlinks: SymlinkPolicy
    const continueOnError: bool
    var planned: map<Path, PlannedCopy>
    var completedRoot: MaybePath

    constructor (source: Path, destinationDirectory: Path, symlinks: SymlinkPolicy, continueOnError: bool)
      ensures this.source == source && this.destinationDirectory == destinationDirectory
      ensures this.symlinks == symlinks && this.continueOnError == continueOnError
      ensures planned == map[] && completedRoot == None
    {
      this.source, this.destinationDirectory := source, destinationDirectory;
      this.symlinks, this.continueOnError := symlinks, continueOnError;
      planned, completedRoot := map[], None;
    }

    ghost function State(fs: Fs): CopyState
      reads this
    {
      CopyState(fs, planned, completedRoot)
    }

    /** Plans the copy of `source`. The loop ends on every finite file system, whatever
        cycles its links form: each iteration records a directory id that was not
        recorded, or leaves fewer real tree nodes to visit. */
    method Plan(fs: Fs, listing: Listing, resolve: Path -> MaybePath, id: Path -> nat) returns (r: PlanResult)
      requires WellFormed(fs) && Lists(fs, listing) && Resolves(fs, resolve)
      modifies this`planned
      ensures symlinks.CopyLink? ==>
        (r.Planned? <==> source in fs && |source| >= 2 && !(source <= destinationDirectory + [LastName(source)]))
      ensures symlinks.CopyLink? && r.Planned? ==>
        && r.items == Walk(fs, listing, false, source)
        && planned == PlanFor(fs, source, destinationDirectory + [LastName(source)])
      ensures symlinks.CopyTarget? && r.Planned? ==>
        && LinksEnterOnce(fs, resolve, id, r.items)
        && (forall p :: p in planned <==> p in r.items)
        && TargetPlans(fs, resolve, source, planned) && RealEntriesIn(fs, source, r.items)
        && Closed(fs, resolve, id, source, r.items)
      ensures symlinks.CopyTarget? && r.Planned? && NoDirectoryLinks(fs, resolve) ==>
        |source| >= 2 && DirectPlan(fs, listing, source, destinationDirectory + [LastName(source)], r.items, planned)
      ensures symlinks.CopyTarget? && NoDangling(fs, resolve) ==>
        (r.Planned? <==> source in fs && |source| >= 2 && !(source <= destinationDirectory + [LastName(source)]))
      ensures r.Rejected? && r.error.Dangling? ==> r.error.link in fs && fs[r.error.link].Link? && resolve(r.error.link).None?
      ensures r.Rejected? ==> planned == old(planned)
    {
      if source !in fs {
        return Rejected(NotFound);
      }
      if |source| < 2 {
        return Rejected(NoName);
      }
      var dst := destinationDirectory + [LastName(source)];
      if source <= dst {
        return Rejected(InsideSource);
      }
      var planning := PlanTree(fs, listing, resolve, id, dst);
      if planning.Stopped? {
        return Rejected(Dangling(planning.link));
      }
      PlanProgressDone(symlinks, fs, listing, resolve, id, source, dst, planning.items, planning.plans, planning.followed);
      if symlinks.CopyLink? {
        LinkPlansComplete(fs, listing, source, dst, planning.items, planning.plans);
      }
      planned := planning.plans;
      return Planned(planning.items);
    }

    method PlanTree(fs: Fs, listing: Listing, resolve: Path -> MaybePath, id: Path -> nat, dst: Path)
        returns (r: Planning)
      requires WellFormed(fs) && Lists(fs, listing) && Resolves(fs, resolve) && source in fs
      ensures r.Done? ==>
        && PlanProgress(symlinks, fs, listing, resolve, id, source, dst, [], r.items, r.plans, r.followed)
        && forall p :: p in r.plans <==> p in r.items
      ensures r.Stopped? ==> symlinks.CopyTarget? && r.link in fs && fs[r.link].Link? && resolve(r.link).None?
    {
      var items: seq<Path>, plans: map<Path, PlannedCopy>, followed: set<nat> := [], map[], {};
      var stack := [Frame(source, dst)];
      PlanStarts(symlinks, fs, listing, resolve, id, source, dst);
      while stack != []
        invariant Framed(fs, stack)
        invariant forall p :: p in plans <==> p in items
        invariant PlanProgress(symlinks, fs, listing, resolve, id, source, dst, stack, items, plans, followed)
        decreases DirectoryIds(fs, id) - followed, |Pending(fs, listing, stack)|
      {
        var top := stack[|stack| - 1];
        var verdict := Follow(fs, symlinks, resolve, id, top.path, followed);
        PlanningAdvances(fs, listing, resolve, id, symlinks, stack, followed);
        if verdict.Broken? {
          return Stopped(top.path);
        }
        PlanProgressKept(symlinks, fs, listing, resolve, id, source, dst, stack, items, plans, followed);
        if verdict.Again? {
          stack := stack[..|stack| - 1];
          continue;
        }
        var target := verdict.target;
        stack := stack[..|stack| - 1];
        followed := verdict.followed;
        plans := plans[top.path := PlannedCopy(KindOf(fs[target]), top.destination, target, top.path == source)];
        items := items + [top.path];
        if fs[target].Directory? {
          stack := PushChildren(stack, listing(target), ChildFrame(target, top.destination));
        }
      }
      return Done(items, plans, followed);
    }

    method RebasePlannedDestinations(oldRoot: Path, newRoot: Path)
      modifies this`planned
      ensures planned == Rebase(old(planned), oldRoot, newRoot)
    {
      var before := planned;
      var todo := planned.Keys;
      while todo != {}
        invariant todo <= before.Keys && planned.Keys == before.Keys
        invariant forall p :: p in todo ==> planned[p] == before[p]
        invariant forall p :: p in before && p !in todo ==> planned[p] == Rebase(before, oldRoot, newRoot)[p]
        decreases todo
      {
        var p :| p in todo;
        var d := planned[p].destination;
        if oldRoot <= d {
          planned := planned[p := planned[p].(destination := Relocate(oldRoot, newRoot, d))];
        }
        todo := todo - {p};
      }
    }

    /** Looks at the destination and settles a conflict. */
    method PrepareItem(fs: Fs, plan: PlannedCopy, resolution: Resolution, fault: Fault) returns (r: Prepared)
      modifies this`planned
      ensures r == Prepare(old(State(fs)), plan, resolution, fault)
      ensures r.Stop? ==> planned == old(planned)
      ensures r.Proceed? ==> r.state.planned == planned
    {
      var d := plan.destination;
      if d !in fs {
        return Proceed(CopyState(fs, planned, completedRoot), d, false);
      }
      if plan.source !in fs || fault.PrepareFault? || d == [] || KindOf(fs[plan.source]) != KindOf(fs[d]) {
        return Stop(Failed);
      }
      match resolution {
        case Undecided => return Stop(Conflict);
        case Skip => return Stop(Skipped);
        case Overwrite =>
          var reuse := plan.kind == DirectoryKind;
          var after := if plan.kind != FileKind && !reuse then fs - {d} else fs;
          return Proceed(CopyState(after, planned, completedRoot), d, reuse);
        case RenameNew =>
          var renamed := SearchCopyDestination(fs, d);
          if renamed.Exhausted? {
            return Stop(Failed);
          }
          if plan.isRoot && plan.kind == DirectoryKind {
            RebasePlannedDestinations(d, renamed.destination);
          }
          return Proceed(CopyState(fs, planned, completedRoot), renamed.destination, false);
      }
    }

    method Execute(fs: Fs, item: Path, policy: ConflictPolicy, resolution: Resolution, fault: Fault)
        returns (after: Fs, outcome: Outcome)
      modifies this
      ensures StepResult(State(after), outcome)
           == ExecuteStep(old(State(fs)), item, EffectiveResolution(policy, resolution), continueOnError, fault)
      ensures item !in old(planned) ==> StepResult(State(after), outcome) == StepResult(old(State(fs)), Failed)
      ensures item in old(planned) && old(planned[item]).destination !in fs ==>
                PlacedFreely(old(State(fs)), item, old(planned[item]), continueOnError, fault, StepResult(State(after), outcome))
      ensures item in old(planned) && old(planned[item]).destination in fs && !MeetsItsKind(fs, old(planned[item]), fault) ==>
                StepResult(State(after), outcome) == StepResult(old(State(fs)), Failed)
      // the four ways to treat an occupied place: by the item's own decision, or by the policy
      ensures item in old(planned) && MeetsItsKind(fs, old(planned[item]), fault)
              && (resolution == Skip || (resolution == Undecided && policy == SkipExisting)) ==>
                StepResult(State(after), outcome) == StepResult(old(State(fs)), Skipped)
      ensures item in old(planned) && MeetsItsKind(fs, old(planned[item]), fault)
              && resolution == Undecided && (policy == Ask || policy == KeepNewer) ==>
                StepResult(State(after), outcome) == StepResult(old(State(fs)), Conflict)
      ensures item in old(planned) && MeetsItsKind(fs, old(planned[item]), fault)
              && (resolution == Overwrite || (resolution == Undecided && policy == OverwriteExisting)) ==>
                Replaced(old(State(fs)), item, old(planned[item]), continueOnError, fault, StepResult(State(after), outcome))
      ensures item in old(planned) && MeetsItsKind(fs, old(planned[item]), fault)
              && (resolution == RenameNew || (resolution == Undecided && policy == RenameIncoming)) ==>
                PlacedBeside(old(State(fs)), item, old(planned[item]), continueOnError, fault, StepResult(State(after), outcome))
    {
      ghost var s := State(fs);
      if item in planned {
        OneStep(s, item, policy, resolution, continueOnError, fault);
      }
      if item !in planned {
        return fs, Failed;
      }
      var plan := planned[item];
      var effective := EffectiveResolution(policy, resolution);
      var prepared := PrepareItem(fs, plan, effective, fault);
      if prepared.Stop? {
        return fs, prepared.outcome;
      }
      after := prepared.state.fs;
      var d := prepared.destination;
      if !prepared.reuse {
        if fault.WriteFault? || !Writable(after, item, plan, d, effective == Overwrite) {
          return after, if continueOnError && !plan.isRoot then Warned else Failed;
        }
        after := after[d := Payload(after, item, plan)];
      }
      if plan.isRoot {
        completedRoot := Some(d);
      }
      outcome := Completed;
    }
  }
}
