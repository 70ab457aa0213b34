/** The retained operation history: at most 100 finished operations, none older than 30
    days, and every operation that is still going on. */
module OperationHistory {
  const MAX_ENTRIES: nat := 100
  /** Thirty days, in milliseconds. */
  const MAX_AGE: int := 30 * 86_400_000

  type Id = nat
  datatype Option<T> = None | Some(value: T)

  datatype State =
    | Queued | Planning | Running | Paused | WaitingForConflictResolution | Cancelling
    | Cancelled | Completed | CompletedWithWarnings | Failed | Interrupted

  predicate IsTerminal(s: State) {
    s.Cancelled? || s.Completed? || s.CompletedWithWarnings? || s.Failed? || s.Interrupted?
  }

  /** An operation snapshot; times are milliseconds and `details` stands for the rest. */
  datatype Operation = Operation(id: Id, state: State, completedAt: Option<int>, details: int)

  predicate Terminal(o: Operation) {
    IsTerminal(o.state)
  }

  /** An absent completion time sorts first. */
  predicate NotLater(a: Option<int>, b: Option<int>) {
    a.None? || (b.Some? && a.value <= b.value)
  }

  // ---------------------------------------------------------------- retention

  predicate Unexpired(o: Operation, cutoff: int) {
    !Terminal(o) || o.completedAt.None? || o.completedAt.value >= cutoff
  }

  function Retain(s: seq<Operation>, cutoff: int): seq<Operation> {
    if s == [] then []
    else Retain(s[..|s| - 1], cutoff) + if Unexpired(s[|s| - 1], cutoff) then [s[|s| - 1]] else []
  }

  /** The positions of finished operations among the first `n`. */
  function TerminalPositions(s: seq<Operation>, n: nat): (r: seq<nat>)
    requires n <= |s|
    ensures forall k :: 0 <= k < |r| ==> r[k] < n && Terminal(s[r[k]])
    ensures forall i: nat :: i < n && Terminal(s[i]) ==> i in r
    ensures forall j, k :: 0 <= j < k < |r| ==> r[j] < r[k]
  {
    if n == 0 then []
    else
      var before := TerminalPositions(s, n - 1);
      if Terminal(s[n - 1]) then before + [n - 1] else before
  }

  ghost predicate Positions(s: seq<Operation>, r: seq<nat>) {
    forall k :: 0 <= k < |r| ==> r[k] < |s|
  }

  ghost predicate ByCompletion(s: seq<Operation>, r: seq<nat>)
    requires Positions(s, r)
  {
    forall i, j :: 0 <= i < j < |r| ==> NotLater(s[r[i]].completedAt, s[r[j]].completedAt)
  }

  /** A stable insertion by completion time. */
  function Insert(s: seq<Operation>, r: seq<nat>, x: nat): (t: seq<nat>)
    requires Positions(s, r) && x < |s|
    ensures Positions(s, t) && |t| == |r| + 1
    ensures multiset(t) == multiset(r) + multiset{x}
  {
    if r != [] && !NotLater(s[r[|r| - 1]].completedAt, s[x].completedAt) then
      assert r == r[..|r| - 1] + [r[|r| - 1]];
      Insert(s, r[..|r| - 1], x) + [r[|r| - 1]]
    else r + [x]
  }

  function SortByCompletion(s: seq<Operation>, r: seq<nat>): (t: seq<nat>)
    requires Positions(s, r)
    ensures Positions(s, t) && |t| == |r| && multiset(t) == multiset(r)
  {
    if r == [] then []
    else
      assert r == r[..|r| - 1] + [r[|r| - 1]];
      Insert(s, SortByCompletion(s, r[..|r| - 1]), r[|r| - 1])
  }

  lemma {:induction false} InsertSorts(s: seq<Operation>, r: seq<nat>, x: nat)
    requires Positions(s, r) && x < |s| && ByCompletion(s, r)
    ensures ByCompletion(s, Insert(s, r, x))
  {
    if r != [] && !NotLater(s[r[|r| - 1]].completedAt, s[x].completedAt) {
      var init, last := r[..|r| - 1], r[|r| - 1];
      InsertSorts(s, init, x);
      var t := Insert(s, init, x);
      forall i | 0 <= i < |t|
        ensures NotLater(s[t[i]].completedAt, s[last].completedAt)
      {
        assert t[i] in multiset(t);
        assert t[i] == x || t[i] in multiset(init);
      }
    }
  }

  lemma {:induction false} SortSorts(s: seq<Operation>, r: seq<nat>)
    requires Positions(s, r)
    ensures ByCompletion(s, SortByCompletion(s, r))
  {
    if r != [] {
      SortSorts(s, r[..|r| - 1]);
      InsertSorts(s, SortByCompletion(s, r[..|r| - 1]), r[|r| - 1]);
    }
  }

  function Elements(r: seq<nat>): set<nat> {
    set i | i in r
  }

  /** The first `n` operations without those at the removed positions. */
  function Without(s: seq<Operation>, removed: set<nat>, n: nat): seq<Operation>
    requires n <= |s|
  {
    if n == 0 then [] else Without(s, removed, n - 1) + if n - 1 in removed then [] else [s[n - 1]]
  }

  function CountTerminal(s: seq<Operation>): nat {
    if s == [] then 0 else CountTerminal(s[..|s| - 1]) + if Terminal(s[|s| - 1]) then 1 else 0
  }

  /** The positions of the finished operations, the earliest completed first. */
  function Finished(s: seq<Operation>): (r: seq<nat>)
    ensures Positions(s, r)
  {
    SortByCompletion(s, TerminalPositions(s, |s|))
  }

  function Surplus(n: nat): nat {
    if n > MAX_ENTRIES then n - MAX_ENTRIES else 0
  }

  /** The finished operations beyond the limit that completed first. */
  function Excess(s: seq<Operation>): set<nat> {
    var sorted := Finished(s);
    Elements(sorted[..Surplus(|sorted|)])
  }

  function Pruned(s: seq<Operation>, cutoff: int): seq<Operation> {
    var retained := Retain(s, cutoff);
    Without(retained, Excess(retained), |retained|)
  }

  // --------------------------------------------------------------- properties

  ghost predicate UniqueIds(s: seq<Operation>) {
    forall i, j :: 0 <= i < j < |s| ==> s[i].id != s[j].id
  }

  /** `t` is `s` without some elements, in the same order. */
  ghost predicate Subsequence<T>(t: seq<T>, s: seq<T>) {
    if t == [] then true
    else if s == [] then false
    else if t[|t| - 1] == s[|s| - 1] && Subsequence(t[..|t| - 1], s[..|s| - 1]) then true
    else Subsequence(t, s[..|s| - 1])
  }

  lemma {:induction false} RetainIsSubsequence(s: seq<Operation>, cutoff: int)
    ensures Subsequence(Retain(s, cutoff), s)
  {
    if s != [] {
      RetainIsSubsequence(s[..|s| - 1], cutoff);
      var t := Retain(s, cutoff);
      if Unexpired(s[|s| - 1], cutoff) {
        assert t[..|t| - 1] == Retain(s[..|s| - 1], cutoff);
      } else {
        assert t == Retain(s[..|s| - 1], cutoff);
      }
    }
  }

  lemma {:induction false} WithoutIsSubsequence(s: seq<Operation>, removed: set<nat>, n: nat)
    requires n <= |s|
    ensures Subsequence(Without(s, removed, n), s[..n])
  {
    if n > 0 {
      WithoutIsSubsequence(s, removed, n - 1);
      var t := Without(s, removed, n);
      assert s[..n][..n - 1] == s[..n - 1];
      if n - 1 !in removed {
        assert t[..|t| - 1] == Without(s, removed, n - 1);
      } else {
        assert t == Without(s, removed, n - 1);
      }
    }
  }

  lemma {:induction false} SubsequenceTransitive<T>(u: seq<T>, t: seq<T>, s: seq<T>)
    requires Subsequence(u, t) && Subsequence(t, s)
    ensures Subsequence(u, s)
    decreases |s|
  {
    if u != [] && s != [] && t != [] {
      if t[|t| - 1] == s[|s| - 1] && Subsequence(t[..|t| - 1], s[..|s| - 1]) {
        if u[|u| - 1] == t[|t| - 1] && Subsequence(u[..|u| - 1], t[..|t| - 1]) {
          SubsequenceTransitive(u[..|u| - 1], t[..|t| - 1], s[..|s| - 1]);
        } else {
          SubsequenceTransitive(u, t[..|t| - 1], s[..|s| - 1]);
        }
      } else {
        SubsequenceTransitive(u, t, s[..|s| - 1]);
      }
    }
  }

  function Ids(s: seq<Operation>): (r: seq<Id>)
    ensures |r| == |s| && forall i :: 0 <= i < |s| ==> r[i] == s[i].id
  {
    seq(|s|, i requires 0 <= i < |s| => s[i].id)
  }

  lemma {:induction false} SubsequenceMembers<T>(t: seq<T>, s: seq<T>)
    requires Subsequence(t, s)
    ensures forall o :: o in t ==> o in s
  {
    if t != [] {
      assert t == t[..|t| - 1] + [t[|t| - 1]];
      if t[|t| - 1] == s[|s| - 1] && Subsequence(t[..|t| - 1], s[..|s| - 1]) {
        SubsequenceMembers(t[..|t| - 1], s[..|s| - 1]);
      } else {
        SubsequenceMembers(t, s[..|s| - 1]);
      }
    }
  }

  lemma {:induction false} SubsequenceOfIds(t: seq<Operation>, s: seq<Operation>)
    requires Subsequence(t, s)
    ensures Subsequence(Ids(t), Ids(s))
  {
    if t != [] {
      var init, head := s[..|s| - 1], t[..|t| - 1];
      assert Ids(s)[..|s| - 1] == Ids(init) && Ids(t)[..|t| - 1] == Ids(head);
      if t[|t| - 1] == s[|s| - 1] && Subsequence(head, init) {
        SubsequenceOfIds(head, init);
      } else {
        SubsequenceOfIds(t, init);
      }
    }
  }

  lemma {:induction false} SubsequenceKeepsUnique(t: seq<Operation>, s: seq<Operation>)
    requires Subsequence(t, s) && UniqueIds(s)
    ensures UniqueIds(t)
  {
    if t != [] {
      var init, head := s[..|s| - 1], t[..|t| - 1];
      if t[|t| - 1] == s[|s| - 1] && Subsequence(head, init) {
        SubsequenceKeepsUnique(head, init);
        SubsequenceMembers(head, init);
        forall i | 0 <= i < |head|
          ensures head[i].id != t[|t| - 1].id
        {
          assert head[i] in init;
          var k :| 0 <= k < |init| && init[k] == head[i];
          assert s[k].id != s[|s| - 1].id;
        }
      } else {
        SubsequenceKeepsUnique(t, init);
      }
    }
  }

  /** Pruning keeps the order in which operations were inserted. */
  lemma {:induction false} PrunedIsSubsequence(s: seq<Operation>, cutoff: int)
    ensures Subsequence(Pruned(s, cutoff), s)
  {
    var retained := Retain(s, cutoff);
    RetainIsSubsequence(s, cutoff);
    WithoutIsSubsequence(retained, Excess(retained), |retained|);
    assert retained[..|retained|] == retained;
    SubsequenceTransitive(Pruned(s, cutoff), retained, s);
  }

  lemma {:induction false} RetainMembers(s: seq<Operation>, cutoff: int)
    ensures forall o :: o in Retain(s, cutoff) <==> o in s && Unexpired(o, cutoff)
  {
    if s != [] {
      RetainMembers(s[..|s| - 1], cutoff);
      assert s == s[..|s| - 1] + [s[|s| - 1]];
    }
  }

  lemma {:induction false} WithoutMembers(s: seq<Operation>, removed: set<nat>, n: nat)
    requires n <= |s|
    ensures forall o :: o in Without(s, removed, n) <==> exists i :: 0 <= i < n && i !in removed && s[i] == o
  {
    if n > 0 {
      WithoutMembers(s, removed, n - 1);
    }
  }

  lemma {:induction false} CountAppend(s: seq<Operation>, o: Operation)
    ensures CountTerminal(s + [o]) == CountTerminal(s) + if Terminal(o) then 1 else 0
  {
    assert (s + [o])[..|s|] == s;
  }

  ghost function KeptTerminals(s: seq<Operation>, removed: set<nat>, n: nat): set<nat>
    requires n <= |s|
  {
    set i | 0 <= i < n && Terminal(s[i]) && i !in removed
  }

  lemma {:induction false} KeptTerminalsNext(s: seq<Operation>, removed: set<nat>, n: nat)
    requires n < |s|
    ensures |KeptTerminals(s, removed, n + 1)|
         == |KeptTerminals(s, removed, n)| + if Terminal(s[n]) && n !in removed then 1 else 0
  {
    var before, now := KeptTerminals(s, removed, n), KeptTerminals(s, removed, n + 1);
    assert now == if Terminal(s[n]) && n !in removed then before + {n} else before;
  }

  lemma {:induction false} CountWithout(s: seq<Operation>, removed: set<nat>, n: nat)
    requires n <= |s|
    ensures CountTerminal(Without(s, removed, n)) == |KeptTerminals(s, removed, n)|
  {
    if n > 0 {
      CountWithout(s, removed, n - 1);
      KeptTerminalsNext(s, removed, n - 1);
      var before := Without(s, removed, n - 1);
      if n - 1 in removed {
        assert Without(s, removed, n) == before;
      } else {
        CountAppend(before, s[n - 1]);
      }
    } else {
      assert KeptTerminals(s, removed, 0) == {};
    }
  }

  ghost predicate NoRepeats(r: seq<nat>) {
    forall i, j :: 0 <= i < j < |r| ==> r[i] != r[j]
  }

  lemma {:induction false} ElementsCount(r: seq<nat>)
    requires NoRepeats(r)
    ensures |Elements(r)| == |r|
  {
    if r != [] {
      var init, last := r[..|r| - 1], r[|r| - 1];
      ElementsCount(init);
      assert last !in init;
      assert Elements(r) == Elements(init) + {last} by {
        assert r == init + [last];
      }
    }
  }

  lemma {:induction false} PermutationNoRepeats(r: seq<nat>, t: seq<nat>)
    requires NoRepeats(r) && multiset(r) == multiset(t)
    ensures NoRepeats(t) && Elements(t) == Elements(r)
  {
    forall i, j | 0 <= i < j < |t|
      ensures t[i] != t[j]
    {
      if t[i] == t[j] {
        OccursTwice(t, i, j);
        assert t[i] in multiset(r);
        var k :| 0 <= k < |r| && r[k] == t[i];
        OccursOnce(r, k);
      }
    }
    SameElements(r, t);
  }

  lemma {:induction false} OccursTwice(t: seq<nat>, i: nat, j: nat)
    requires i < j < |t| && t[i] == t[j]
    ensures multiset(t)[t[i]] >= 2
  {
    assert t == t[..i] + [t[i]] + t[i + 1..j] + [t[j]] + t[j + 1..];
  }

  lemma {:induction false} OccursOnce(r: seq<nat>, k: nat)
    requires NoRepeats(r) && k < |r|
    ensures multiset(r)[r[k]] == 1
  {
    assert r == r[..k] + [r[k]] + r[k + 1..];
    assert r[k] !in r[..k] && r[k] !in r[k + 1..];
  }

  lemma {:induction false} SameElements(r: seq<nat>, t: seq<nat>)
    requires multiset(r) == multiset(t)
    ensures Elements(t) == Elements(r)
  {
    forall x
      ensures x in Elements(t) <==> x in Elements(r)
    {
      assert x in t <==> x in multiset(t);
      assert x in r <==> x in multiset(r);
    }
  }

  // ------------------------------------------------------------ what pruning does

  ghost predicate ListsTerminals(s: seq<Operation>, r: seq<nat>) {
    forall i: nat :: i in r <==> i < |s| && Terminal(s[i])
  }

  lemma {:induction false} FinishedShape(s: seq<Operation>)
    ensures var r := Finished(s);
            Positions(s, r) && ByCompletion(s, r) && NoRepeats(r) && ListsTerminals(s, r)
  {
    var all := TerminalPositions(s, |s|);
    var sorted := SortByCompletion(s, all);
    SortSorts(s, all);
    PermutationNoRepeats(all, sorted);
    forall i: nat
      ensures i in sorted <==> i < |s| && Terminal(s[i])
    {
      assert i in sorted <==> i in Elements(sorted);
      assert i in all <==> i in Elements(all);
    }
  }

  /** No element of the head completed later than one that is not in the head. */
  lemma {:induction false} HeadIsEarliest(s: seq<Operation>, r: seq<nat>, n: nat, i: nat, j: nat)
    requires Positions(s, r) && ByCompletion(s, r) && n <= |r|
    requires i in r[..n] && j in r && j !in r[..n]
    ensures i < |s| && j < |s| && NotLater(s[i].completedAt, s[j].completedAt)
  {
    var a :| 0 <= a < n && r[a] == i;
    var b :| 0 <= b < |r| && r[b] == j;
    assert b >= n;
  }

  ghost predicate TerminalPositionsOnly(s: seq<Operation>, removed: set<nat>) {
    forall i :: i in removed ==> i < |s| && Terminal(s[i])
  }

  ghost predicate Earliest(s: seq<Operation>, removed: set<nat>)
    requires TerminalPositionsOnly(s, removed)
  {
    forall i, j: nat :: i in removed && j < |s| && Terminal(s[j]) && j !in removed ==>
      NotLater(s[i].completedAt, s[j].completedAt)
  }

  /** The excess holds finished operations, none of which completed later than a finished
      one that stays. */
  lemma {:induction false} ExcessShape(s: seq<Operation>)
    ensures TerminalPositionsOnly(s, Excess(s)) && Earliest(s, Excess(s))
  {
    FinishedShape(s);
    var r := Finished(s);
    var n := Surplus(|r|);
    assert Excess(s) == Elements(r[..n]);
    forall i | i in Elements(r[..n])
      ensures i in r
    {}
    forall i, j: nat | i in Elements(r[..n]) && j < |s| && Terminal(s[j]) && j !in Elements(r[..n])
      ensures NotLater(s[i].completedAt, s[j].completedAt)
    {
      HeadIsEarliest(s, r, n, i, j);
    }
  }

  lemma {:induction false} ExcessCount(s: seq<Operation>)
    ensures |Finished(s)| == |KeptTerminals(s, {}, |s|)|
    ensures |Excess(s)| == Surplus(|Finished(s)|)
  {
    FinishedShape(s);
    var r := Finished(s);
    ElementsCount(r);
    assert Elements(r) == KeptTerminals(s, {}, |s|);
    ElementsCount(r[..Surplus(|r|)]);
  }

  /** At most 100 finished operations remain: all of them if the limit is not exceeded. */
  lemma {:induction false} PrunedCount(s: seq<Operation>, cutoff: int)
    ensures var n := CountTerminal(Retain(s, cutoff));
            CountTerminal(Pruned(s, cutoff)) == n - Surplus(n)
  {
    var t := Retain(s, cutoff);
    var removed := Excess(t);
    ExcessShape(t);
    ExcessCount(t);
    CountWithout(t, removed, |t|);
    CountWithout(t, {}, |t|);
    NothingRemoved(t, |t|);
    assert t[..|t|] == t;
    RemovalSplits(t, removed);
  }

  lemma {:induction false} RemovalSplits(s: seq<Operation>, removed: set<nat>)
    requires TerminalPositionsOnly(s, removed)
    ensures |KeptTerminals(s, removed, |s|)| == |KeptTerminals(s, {}, |s|)| - |removed|
  {
    var all := KeptTerminals(s, {}, |s|);
    assert KeptTerminals(s, removed, |s|) == all - removed;
    assert removed <= all;
    SubsetDifference(all, removed);
  }

  lemma {:induction false} SubsetDifference(a: set<nat>, b: set<nat>)
    requires b <= a
    ensures |a - b| == |a| - |b|
  {
    assert a == (a - b) + b;
  }

  lemma {:induction false} NothingRemoved(s: seq<Operation>, n: nat)
    requires n <= |s|
    ensures Without(s, {}, n) == s[..n]
  {
    if n > 0 {
      NothingRemoved(s, n - 1);
      assert s[..n] == s[..n - 1] + [s[n - 1]];
    }
  }

  /** Operations that are still going on stay. */
  lemma {:induction false} PrunedKeepsOngoing(s: seq<Operation>, cutoff: int)
    ensures forall o :: o in s && !Terminal(o) ==> o in Pruned(s, cutoff)
  {
    var t := Retain(s, cutoff);
    var removed := Excess(t);
    RetainMembers(s, cutoff);
    WithoutMembers(t, removed, |t|);
    ExcessShape(t);
    forall o | o in s && !Terminal(o)
      ensures o in Pruned(s, cutoff)
    {
      var i :| 0 <= i < |t| && t[i] == o;
      assert i !in removed;
    }
  }

  /** Nothing expired stays, and an unexpired operation goes only if no finished one that
      stays completed before it. */
  lemma {:induction false} PrunedDropsEarliest(s: seq<Operation>, cutoff: int)
    ensures forall o :: o in Pruned(s, cutoff) ==> o in s && Unexpired(o, cutoff)
    ensures forall o, k :: o in s && Unexpired(o, cutoff) && o !in Pruned(s, cutoff) && k in Pruned(s, cutoff) && Terminal(k)
              ==> NotLater(o.completedAt, k.completedAt)
  {
    var t := Retain(s, cutoff);
    var removed := Excess(t);
    RetainMembers(s, cutoff);
    WithoutMembers(t, removed, |t|);
    ExcessShape(t);
    forall o, k | o in s && Unexpired(o, cutoff) && o !in Pruned(s, cutoff) && k in Pruned(s, cutoff) && Terminal(k)
      ensures NotLater(o.completedAt, k.completedAt)
    {
      var i :| 0 <= i < |t| && t[i] == o;
      var j :| 0 <= j < |t| && j !in removed && t[j] == k;
      assert i in removed;
    }
  }

  /** The operation has come to an end, one way or another. */
  predicate Ended(o: Operation) {
    o.state in {State.Cancelled, State.Completed, State.CompletedWithWarnings, State.Failed, State.Interrupted}
  }

  /** An ended operation that is older than the cutoff goes; whatever else goes has ended and
      does so only because of the limit. */
  lemma {:induction false} RetentionByTime(s: seq<Operation>, cutoff: int)
    ensures forall o :: o in Pruned(s, cutoff) ==>
              o in s && (Ended(o) && o.completedAt.Some? ==> o.completedAt.value >= cutoff)
    ensures forall o :: o in s && (!Ended(o) || (CountTerminal(Retain(s, cutoff)) <= 100
                                                 && (o.completedAt.None? || o.completedAt.value >= cutoff))) ==>
              o in Pruned(s, cutoff)
  {
    RetainMembers(s, cutoff);
    PrunedDropsEarliest(s, cutoff);
    PrunedKeepsOngoing(s, cutoff);
    if CountTerminal(Retain(s, cutoff)) <= 100 {
      WithinLimit(Retain(s, cutoff));
    }
  }

  lemma {:induction false} WithinLimit(s: seq<Operation>)
    requires CountTerminal(s) <= 100
    ensures Without(s, Excess(s), |s|) == s
  {
    CountWithout(s, {}, |s|);
    NothingRemoved(s, |s|);
    assert s[..|s|] == s;
    ExcessCount(s);
    assert Excess(s) == {};
  }

  // -------------------------------------------------------------- the history

  function Interrupted(o: Operation, now: int): Operation {
    if Terminal(o) then o else o.(state := State.Interrupted, completedAt := Some(now))
  }

  function InterruptAll(s: seq<Operation>, now: int): (t: seq<Operation>)
    ensures |t| == |s| && forall i :: 0 <= i < |s| ==> t[i] == Interrupted(s[i], now)
  {
    seq(|s|, i requires 0 <= i < |s| => Interrupted(s[i], now))
  }

  /** The list with the latest snapshot of each operation ever seen, and the ids in the
      order in which operations were appended. */
  datatype Ledger = Ledger(operations: seq<Operation>, latest: map<Id, Operation>, appended: seq<Id>)

  ghost predicate OnlyLatest(s: seq<Operation>, latest: map<Id, Operation>) {
    forall o :: o in s ==> o.id in latest && latest[o.id] == o
  }

  ghost predicate NoneMissing(s: seq<Operation>, latest: map<Id, Operation>) {
    forall id :: id in latest ==> latest[id].id == id && (!Terminal(latest[id]) ==> latest[id] in s)
  }

  ghost predicate Tracks(l: Ledger) {
    && UniqueIds(l.operations) && OnlyLatest(l.operations, l.latest)
    && NoneMissing(l.operations, l.latest) && Subsequence(Ids(l.operations), l.appended)
  }

  /** Only latest snapshots are stored, each operation once and in the order of insertion,
      none that is going on is missing, and at most 100 are finished. */
  ghost predicate Retained(l: Ledger) {
    Tracks(l) && CountTerminal(l.operations) <= 100
  }

  function Prune(l: Ledger, cutoff: int): Ledger {
    l.(operations := Pruned(l.operations, cutoff))
  }

  lemma {:induction false} PruneRetains(l: Ledger, cutoff: int)
    requires Tracks(l)
    ensures Retained(Prune(l, cutoff))
  {
    var s, t := l.operations, Pruned(l.operations, cutoff);
    PrunedIsSubsequence(s, cutoff);
    SubsequenceKeepsUnique(t, s);
    SubsequenceMembers(t, s);
    SubsequenceOfIds(t, s);
    SubsequenceTransitive(Ids(t), Ids(s), l.appended);
    PrunedCount(s, cutoff);
    PrunedKeepsOngoing(s, cutoff);
  }

  function Position(s: seq<Operation>, id: Id): (k: nat)
    ensures k <= |s| && (k < |s| ==> s[k].id == id)
    ensures forall i :: 0 <= i < k ==> s[i].id != id
  {
    if s == [] then 0
    else
      var before := Position(s[..|s| - 1], id);
      if before < |s| - 1 then before else if s[|s| - 1].id == id then |s| - 1 else |s|
  }

  /** The snapshot replaces the one with its id, or is appended. */
  function Record(l: Ledger, o: Operation): Ledger {
    var k := Position(l.operations, o.id);
    var latest := l.latest[o.id := o];
    if k < |l.operations| then Ledger(l.operations[k := o], latest, l.appended)
    else Ledger(l.operations + [o], latest, l.appended + [o.id])
  }

  lemma {:induction false} RecordOrder(l: Ledger, o: Operation)
    requires Subsequence(Ids(l.operations), l.appended)
    ensures var r := Record(l, o); Subsequence(Ids(r.operations), r.appended)
  {
    var s, t := l.operations, Record(l, o).operations;
    if Position(s, o.id) < |s| {
      assert Ids(t) == Ids(s);
    } else {
      var ids, more := Ids(s) + [o.id], l.appended + [o.id];
      assert Ids(t) == ids;
      assert ids[..|ids| - 1] == Ids(s) && more[..|more| - 1] == l.appended;
    }
  }

  /** Where the recorded list holds each operation. */
  lemma {:induction false} RecordMembers(s: seq<Operation>, t: seq<Operation>, k: nat, o: Operation, p: Operation)
    requires UniqueIds(s) && k <= |s| && if k < |s| then s[k].id == o.id && t == s[k := o] else t == s + [o]
    requires k == |s| ==> forall i :: 0 <= i < |s| ==> s[i].id != o.id
    ensures p in t <==> p == o || (p in s && p.id != o.id)
  {
    if p in t {
      var i :| 0 <= i < |t| && t[i] == p;
      assert i != k ==> s[i] == p;
    }
    assert t[k] == o;
    if p in s && p.id != o.id {
      var i :| 0 <= i < |s| && s[i] == p;
      assert t[i] == p;
    }
  }

  lemma {:induction false} RecordTracks(l: Ledger, o: Operation)
    requires Tracks(l)
    ensures Tracks(Record(l, o))
  {
    RecordOrder(l, o);
    var s, k := l.operations, Position(l.operations, o.id);
    var t := Record(l, o).operations;
    forall p
      ensures p in t <==> p == o || (p in s && p.id != o.id)
    {
      RecordMembers(s, t, k, o, p);
    }
    assert UniqueIds(t) by {
      assert forall i :: 0 <= i < |t| ==> t[i].id == if i == k then o.id else s[i].id;
    }
  }

  function Observed(l: Ledger, o: Operation, cutoff: int): Ledger {
    Prune(Record(l, o), cutoff)
  }

  lemma {:induction false} ObserveRetains(l: Ledger, o: Operation, cutoff: int)
    requires Tracks(l)
    ensures Retained(Observed(l, o, cutoff))
  {
    RecordTracks(l, o);
    PruneRetains(Record(l, o), cutoff);
  }

  function LatestOf(s: seq<Operation>): map<Id, Operation> {
    if s == [] then map[] else LatestOf(s[..|s| - 1])[s[|s| - 1].id := s[|s| - 1]]
  }

  function Start(stored: seq<Operation>, now: int): Ledger {
    var s := InterruptAll(stored, now);
    Ledger(s, LatestOf(s), Ids(s))
  }

  lemma {:induction false} LatestTracks(s: seq<Operation>)
    requires UniqueIds(s)
    ensures OnlyLatest(s, LatestOf(s))
  {
    if s != [] {
      var init, last := s[..|s| - 1], s[|s| - 1];
      LatestTracks(init);
      assert s == init + [last];
      forall o | o in init
        ensures o.id != last.id
      {
        var i :| 0 <= i < |init| && init[i] == o;
        assert s[i].id != s[|init|].id;
      }
    }
  }

  lemma {:induction false} LatestStored(s: seq<Operation>)
    ensures forall id :: id in LatestOf(s) ==> LatestOf(s)[id] in s && LatestOf(s)[id].id == id
  {
    if s != [] {
      LatestStored(s[..|s| - 1]);
      assert s == s[..|s| - 1] + [s[|s| - 1]];
    }
  }

  lemma {:induction false} SubsequenceReflexive<T>(s: seq<T>)
    ensures Subsequence(s, s)
  {
    if s != [] {
      SubsequenceReflexive(s[..|s| - 1]);
    }
  }

  lemma {:induction false} StartTracks(stored: seq<Operation>, now: int)
    requires UniqueIds(stored)
    ensures Tracks(Start(stored, now))
  {
    var s := InterruptAll(stored, now);
    assert UniqueIds(s);
    LatestTracks(s);
    LatestStored(s);
    SubsequenceReflexive(Ids(s));
  }

  /** A run: the history is loaded, then snapshots arrive, each at its own time. */
  function Run(stored: seq<Operation>, now: int, events: seq<(Operation, int)>): Ledger {
    if events == [] then Prune(Start(stored, now), now - MAX_AGE)
    else
      Observed(Run(stored, now, events[..|events| - 1]), events[|events| - 1].0, events[|events| - 1].1 - MAX_AGE)
  }

  lemma {:induction false} LoadRetains(stored: seq<Operation>, now: int)
    requires UniqueIds(stored)
    ensures Retained(Run(stored, now, []))
  {
    StartTracks(stored, now);
    PruneRetains(Start(stored, now), now - MAX_AGE);
  }

  /** Retention holds after every run. */
  lemma {:induction false} RunRetains(stored: seq<Operation>, now: int, events: seq<(Operation, int)>)
    requires UniqueIds(stored)
    ensures Retained(Run(stored, now, events))
  {
    if events == [] {
      LoadRetains(stored, now);
    } else {
      RunRetains(stored, now, events[..|events| - 1]);
      ObserveRetains(Run(stored, now, events[..|events| - 1]), events[|events| - 1].0, events[|events| - 1].1 - MAX_AGE);
    }
  }

  /** The limit needs no uniqueness, and nothing is unfinished after loading. */
  lemma {:induction false} LoadedIsFinished(stored: seq<Operation>, now: int)
    ensures forall o :: o in Run(stored, now, []).operations ==> Terminal(o)
    ensures CountTerminal(Run(stored, now, []).operations) <= MAX_ENTRIES
  {
    var s := InterruptAll(stored, now);
    PrunedCount(s, now - MAX_AGE);
    PrunedIsSubsequence(s, now - MAX_AGE);
    SubsequenceMembers(Pruned(s, now - MAX_AGE), s);
  }

  /** What loading makes of a stored operation: one that had not ended is interrupted now. */
  lemma {:induction false} LoadedFromStored(stored: seq<Operation>, now: int, o: Operation) returns (p: Operation)
    requires o in Run(stored, now, []).operations
    ensures p in stored && o == if Ended(p) then p else p.(state := State.Interrupted, completedAt := Some(now))
  {
    var s := InterruptAll(stored, now);
    PrunedIsSubsequence(s, now - MAX_AGE);
    SubsequenceMembers(Pruned(s, now - MAX_AGE), s);
    var i :| 0 <= i < |s| && s[i] == o;
    p := stored[i];
  }

  class History {
    var operations: seq<Operation>
    ghost var latest: map<Id, Operation>
    ghost var appended: seq<Id>

    ghost function View(): Ledger
      reads this
    {
      Ledger(operations, latest, appended)
    }

    ghost predicate Valid()
      reads this
    {
      Retained(View())
    }

    method PruneOperations(now: int)
      modifies this`operations
      ensures View() == Prune(old(View()), now - 30 * 86_400_000)
    {
      operations := Retain(operations, now - MAX_AGE);
      var sorted := Finished(operations);
      var excess := Surplus(|sorted|);
      var remove := Elements(sorted[..excess]);
      if remove != {} {
        operations := Without(operations, remove, |operations|);
      } else {
        NothingRemoved(operations, |operations|);
        assert operations[..|operations|] == operations;
      }
    }

    constructor Load(stored: seq<Operation>, now: int)
      ensures View() == Run(stored, now, [])
      ensures UniqueIds(stored) ==> Valid()
      ensures CountTerminal(operations) <= 100 && forall o :: o in operations ==> Ended(o)
    {
      var loaded := InterruptAll(stored, now);
      operations := loaded;
      latest := LatestOf(loaded);
      appended := Ids(loaded);
      new;
      PruneOperations(now);
      if UniqueIds(stored) {
        RunRetains(stored, now, []);
      }
      LoadedIsFinished(stored, now);
    }

    method Observe(operation: Operation, now: int)
      requires Valid()
      modifies this
      ensures Valid()
      ensures View() == Observed(old(View()), operation, now - 30 * 86_400_000)
    {
      ghost var before := View();
      var k := 0;
      while k < |operations| && operations[k].id != operation.id
        invariant k <= |operations| && View() == before
        invariant forall i :: 0 <= i < k ==> operations[i].id != operation.id
      {
        k := k + 1;
      }
      latest := latest[operation.id := operation];
      if k < |operations| {
        operations := operations[k := operation];
      } else {
        operations := operations + [operation];
        appended := appended + [operation.id];
      }
      assert View() == Record(before, operation);
      PruneOperations(now);
      ObserveRetains(before, operation, now - MAX_AGE);
    }
  }
}
