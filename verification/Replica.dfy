/** The client's copy of a pane, kept up to date by deltas that may arrive late, twice, out
    of order or not at all. Revisions decide what the client does with each. */
module Replica {
  import opened Listing
  import opened Deltas

  datatype Client = Client(revision: nat, entries: seq<Entry>, refetch: bool)

  function Find(s: seq<Entry>, id: nat): (r: Option<nat>)
    ensures r.Some? ==> r.value < |s| && s[r.value].id == id
    ensures r.None? ==> forall i :: 0 <= i < |s| ==> s[i].id != id
  {
    if s == [] then None
    else if s[|s| - 1].id == id then Some(|s| - 1)
    else Find(s[..|s| - 1], id)
  }

  /** Replaces the entry with this id in place, or appends it. */
  function Upsert(s: seq<Entry>, e: Entry): seq<Entry> {
    var at := Find(s, e.id);
    if at.Some? then s[at.value := e] else s + [e]
  }

  function UpsertAll(s: seq<Entry>, entries: seq<Entry>): seq<Entry> {
    if entries == [] then s else Upsert(UpsertAll(s, entries[..|entries| - 1]), entries[|entries| - 1])
  }

  function NotListed(ids: seq<nat>): Entry -> bool {
    (e: Entry) => e.id !in ids
  }

  function ApplyToEntries(s: seq<Entry>, d: Delta): seq<Entry> {
    match d
    case Added(_, entries) => UpsertAll(s, entries)
    case Updated(_, entries) => UpsertAll(s, entries)
    case Removed(_, ids) => Select(s, NotListed(ids))
    case Reset(_, entries) => entries
  }

  /** A delta that is not newer is ignored, a reset is taken as it is, a gap asks for a
      fresh listing, and the next revision is applied. */
  function Receive(c: Client, d: Delta): Client {
    if d.revision <= c.revision then c
    else if !d.Reset? && d.revision != c.revision + 1 then c.(refetch := true)
    else Client(d.revision, ApplyToEntries(c.entries, d), c.refetch)
  }

  function ReceiveAll(c: Client, log: seq<Delta>, order: seq<nat>): Client
    requires forall k :: 0 <= k < |order| ==> order[k] < |log|
  {
    if order == [] then c
    else Receive(ReceiveAll(c, log, order[..|order| - 1]), log[order[|order| - 1]])
  }

  // ---------------------------------------------------------------- the pane

  /** A pane's revision and stored listing, and everything it has emitted. */
  datatype Pane = Pane(revision: nat, entries: seq<Entry>, log: seq<Delta>)
  datatype Change = Change(reset: bool, listing: seq<Entry>)

  /** The deltas of one publish. */
  function Emitted(p: Pane, c: Change): seq<Delta> {
    if c.reset then [Reset(p.revision + 1, c.listing)] else DiffEntries(p.entries, c.listing, p.revision + 1)
  }

  function Publish(p: Pane, c: Change): Pane {
    var deltas := Emitted(p, c);
    Pane(if deltas == [] then p.revision + 1 else deltas[|deltas| - 1].revision, c.listing, p.log + deltas)
  }

  function PublishAll(p: Pane, changes: seq<Change>): Pane {
    if changes == [] then p else Publish(PublishAll(p, changes[..|changes| - 1]), changes[|changes| - 1])
  }

  /** The revision that the first `i` deltas lead to. */
  function RevisionAt(base: nat, log: seq<Delta>, i: nat): nat
    requires i <= |log|
  {
    if i == 0 then base else log[i - 1].revision
  }

  ghost predicate Increasing(base: nat, log: seq<Delta>) {
    forall i, j :: 0 <= i < j <= |log| ==> RevisionAt(base, log, i) < RevisionAt(base, log, j)
  }

  ghost predicate PaneInvariant(base: nat, first: seq<Entry>, p: Pane) {
    && UniqueIds(p.entries)
    && Increasing(base, p.log) && RevisionAt(base, p.log, |p.log|) <= p.revision
    && ReplayMap(ById(first), p.log) == ById(p.entries)
    && forall i :: 0 <= i < |p.log| && p.log[i].Reset? ==> UniqueIds(p.log[i].entries)
  }

  /** The deltas of one publish carry consecutive revisions from `revision` on. */
  lemma {:induction false} DiffRevisions(previous: seq<Entry>, current: seq<Entry>, revision: nat)
    ensures var d := DiffEntries(previous, current, revision);
            forall i :: 0 <= i < |d| ==> d[i].revision == revision + i && !d[i].Reset?
  {
  }

  ghost predicate Consecutive(log: seq<Delta>, revision: nat) {
    forall i :: 0 <= i < |log| ==> log[i].revision == revision + i
  }

  lemma {:induction false} EmittedRevisions(p: Pane, c: Change)
    ensures Consecutive(Emitted(p, c), p.revision + 1)
    ensures forall i :: 0 <= i < |Emitted(p, c)| ==> Emitted(p, c)[i].Reset? == c.reset
    ensures c.reset ==> Emitted(p, c) == [Reset(p.revision + 1, c.listing)]
  {
    if !c.reset {
      DiffRevisions(p.entries, c.listing, p.revision + 1);
    }
  }

  lemma {:induction false} EmittedReplay(p: Pane, c: Change)
    requires UniqueIds(c.listing)
    ensures ReplayMap(ById(p.entries), Emitted(p, c)) == ById(c.listing)
  {
    if c.reset {
      EmittedReset(p, c);
    } else {
      EmittedDiff(p, c);
    }
  }

  lemma {:induction false} EmittedReset(p: Pane, c: Change)
    requires c.reset
    ensures ReplayMap(ById(p.entries), Emitted(p, c)) == ById(c.listing)
  {
    ReplayOne(ById(p.entries), [Reset(p.revision + 1, c.listing)]);
  }

  lemma {:induction false} EmittedDiff(p: Pane, c: Change)
    requires UniqueIds(c.listing) && !c.reset
    ensures ReplayMap(ById(p.entries), Emitted(p, c)) == ById(c.listing)
  {
    var d := DiffEntries(p.entries, c.listing, p.revision + 1);
    assert ReplayMap(ById(p.entries), d) == ById(c.listing) by {
      ReplayDiff(p.entries, c.listing, p.revision + 1);
    }
    assert Emitted(p, c) == d;
  }

  lemma {:induction false} IncreasingConcat(base: nat, log: seq<Delta>, more: seq<Delta>, revision: nat)
    requires Increasing(base, log) && RevisionAt(base, log, |log|) < revision && Consecutive(more, revision)
    ensures Increasing(base, log + more)
    ensures RevisionAt(base, log + more, |log + more|)
         == if more == [] then RevisionAt(base, log, |log|) else revision + |more| - 1
  {
    var all := log + more;
    forall i | 0 <= i <= |all|
      ensures RevisionAt(base, all, i) == if i <= |log| then RevisionAt(base, log, i) else revision + (i - |log| - 1)
    {
    }
  }

  lemma {:induction false} PublishKeepsInvariant(base: nat, first: seq<Entry>, p: Pane, c: Change)
    requires PaneInvariant(base, first, p) && UniqueIds(c.listing)
    ensures PaneInvariant(base, first, Publish(p, c)) && p.revision < Publish(p, c).revision
  {
    EmittedRevisions(p, c);
    EmittedReplay(p, c);
    IncreasingConcat(base, p.log, Emitted(p, c), p.revision + 1);
    ReplayMapConcat(ById(first), p.log, Emitted(p, c));
    var log := Publish(p, c).log;
    forall i | 0 <= i < |log| && log[i].Reset?
      ensures UniqueIds(log[i].entries)
    {
      if i >= |p.log| {
        assert log[i] == Emitted(p, c)[i - |p.log|];
      }
    }
  }

  lemma {:induction false} PublishAllKeepsInvariant(base: nat, first: seq<Entry>, changes: seq<Change>)
    requires UniqueIds(first) && forall i :: 0 <= i < |changes| ==> UniqueIds(changes[i].listing)
    ensures PaneInvariant(base, first, PublishAll(Pane(base, first, []), changes))
  {
    if changes != [] {
      PublishAllKeepsInvariant(base, first, changes[..|changes| - 1]);
      PublishKeepsInvariant(base, first, PublishAll(Pane(base, first, []), changes[..|changes| - 1]), changes[|changes| - 1]);
    }
  }

  // -------------------------------------------------------------- the client

  lemma {:induction false} ReplacedById(s: seq<Entry>, i: nat, e: Entry)
    requires UniqueIds(s) && i < |s| && s[i].id == e.id
    ensures ById(s[i := e]) == ById(s)[e.id := e]
  {
    var init, last := s[..|s| - 1], s[|s| - 1];
    var t := s[i := e];
    if i == |init| {
      assert t[..|t| - 1] == init;
    } else {
      ReplacedById(init, i, e);
      assert t[..|t| - 1] == init[i := e];
      assert last.id != e.id;
    }
  }

  lemma {:induction false} UpsertById(s: seq<Entry>, e: Entry)
    requires UniqueIds(s)
    ensures UniqueIds(Upsert(s, e)) && ById(Upsert(s, e)) == ById(s)[e.id := e]
  {
    var at := Find(s, e.id);
    if at.Some? {
      ReplacedById(s, at.value, e);
    } else {
      assert (s + [e])[..|s|] == s;
    }
  }

  lemma {:induction false} ExtendMap(m: map<nat, Entry>, n: map<nat, Entry>, e: Entry)
    ensures (m + n)[e.id := e] == m + n[e.id := e]
  {
  }

  lemma {:induction false} UpsertAllById(s: seq<Entry>, entries: seq<Entry>)
    requires UniqueIds(s)
    ensures UniqueIds(UpsertAll(s, entries)) && ById(UpsertAll(s, entries)) == ById(s) + ById(entries)
  {
    if entries == [] {
      assert ById(s) + map[] == ById(s);
    } else {
      var init, last := entries[..|entries| - 1], entries[|entries| - 1];
      UpsertAllById(s, init);
      UpsertById(UpsertAll(s, init), last);
      ExtendMap(ById(s), ById(init), last);
    }
  }

  lemma {:induction false} DropById(s: seq<Entry>, ids: seq<nat>)
    requires UniqueIds(s)
    ensures UniqueIds(Select(s, NotListed(ids)))
    ensures ById(Select(s, NotListed(ids))) == ById(s) - (set id | id in ids)
  {
    SelectMembers(s, NotListed(ids));
    ByIdMembers(s);
    var t := ById(Select(s, NotListed(ids)));
    forall id
      ensures id in t <==> id in ById(s) - (set k | k in ids)
      ensures id in t ==> t[id] == ById(s)[id]
    {
      SelectedAt(s, NotListed(ids), id);
    }
  }

  /** The list the client shows and the map of its entries change alike. */
  lemma {:induction false} ApplyById(s: seq<Entry>, d: Delta)
    requires UniqueIds(s) && (d.Reset? ==> UniqueIds(d.entries))
    ensures UniqueIds(ApplyToEntries(s, d)) && ById(ApplyToEntries(s, d)) == ApplyToMap(ById(s), d)
  {
    match d
    case Added(_, entries) => UpsertAllById(s, entries);
    case Updated(_, entries) => UpsertAllById(s, entries);
    case Removed(_, ids) => DropById(s, ids);
    case Reset(_, _) =>
  }

  /** The client holds what the first `i` deltas make of the snapshot it started from. */
  ghost predicate InStep(base: nat, first: seq<Entry>, log: seq<Delta>, c: Client, i: nat) {
    && i <= |log| && c.revision == RevisionAt(base, log, i)
    && UniqueIds(c.entries) && ById(c.entries) == ReplayMap(ById(first), log[..i])
  }

  lemma {:induction false} ReceiveKeepsStep(base: nat, first: seq<Entry>, log: seq<Delta>, c: Client, i: nat, k: nat) returns (j: nat)
    requires Increasing(base, log) && k < |log| && InStep(base, first, log, c, i)
    requires forall m :: 0 <= m < |log| && log[m].Reset? ==> UniqueIds(log[m].entries)
    ensures InStep(base, first, log, Receive(c, log[k]), j) && i <= j
  {
    var d := log[k];
    assert RevisionAt(base, log, k + 1) == d.revision;
    j := i;
    if d.revision > c.revision && (d.Reset? || d.revision == c.revision + 1) {
      j := k + 1;
      assert log[..k + 1][..k] == log[..k];
      if i < k {
        assert RevisionAt(base, log, i) < RevisionAt(base, log, i + 1) < RevisionAt(base, log, k + 1);
      } else {
        assert i == k;
      }
      ApplyById(c.entries, d);
      if d.Reset? {
        assert ReplayMap(ById(first), log[..k + 1]) == ById(d.entries);
      }
    }
  }

  /** Whatever order the deltas arrive in, and whichever are lost or repeated, the client
      holds exactly the state of the revision it claims. In particular, at the pane's
      revision it holds the pane's listing. */
  lemma {:induction false} ClientNeverDiverges(base: nat, first: seq<Entry>, changes: seq<Change>, order: seq<nat>)
      returns (i: nat)
    requires UniqueIds(first) && forall i :: 0 <= i < |changes| ==> UniqueIds(changes[i].listing)
    requires forall k :: 0 <= k < |order| ==> order[k] < |PublishAll(Pane(base, first, []), changes).log|
    ensures var p := PublishAll(Pane(base, first, []), changes);
            var c := ReceiveAll(Client(base, first, false), p.log, order);
            && InStep(base, first, p.log, c, i)
            && (c.revision == p.revision ==> ById(c.entries) == ById(p.entries))
  {
    PublishAllKeepsInvariant(base, first, changes);
    i := ClientHoldsItsRevision(base, first, PublishAll(Pane(base, first, []), changes), order);
  }

  lemma {:induction false} ClientHoldsItsRevision(base: nat, first: seq<Entry>, p: Pane, order: seq<nat>) returns (i: nat)
    requires PaneInvariant(base, first, p) && UniqueIds(first)
    requires forall k :: 0 <= k < |order| ==> order[k] < |p.log|
    ensures var c := ReceiveAll(Client(base, first, false), p.log, order);
            && InStep(base, first, p.log, c, i)
            && (c.revision == p.revision ==> ById(c.entries) == ById(p.entries))
  {
    i := StepReached(base, first, p, order);
    var c := ReceiveAll(Client(base, first, false), p.log, order);
    LastStep(base, first, p, c, i);
  }

  lemma {:induction false} LastStep(base: nat, first: seq<Entry>, p: Pane, c: Client, i: nat)
    requires PaneInvariant(base, first, p) && InStep(base, first, p.log, c, i)
    ensures c.revision == p.revision ==> ById(c.entries) == ById(p.entries)
  {
    if i < |p.log| {
      assert RevisionAt(base, p.log, i) < RevisionAt(base, p.log, |p.log|);
    } else {
      assert p.log[..i] == p.log;
    }
  }

  lemma {:induction false} StepReached(base: nat, first: seq<Entry>, p: Pane, order: seq<nat>) returns (i: nat)
    requires PaneInvariant(base, first, p) && UniqueIds(first)
    requires forall k :: 0 <= k < |order| ==> order[k] < |p.log|
    ensures InStep(base, first, p.log, ReceiveAll(Client(base, first, false), p.log, order), i)
  {
    if order == [] {
      i := 0;
      assert p.log[..0] == [];
    } else {
      i := StepReached(base, first, p, order[..|order| - 1]);
      var c := ReceiveAll(Client(base, first, false), p.log, order[..|order| - 1]);
      i := ReceiveKeepsStep(base, first, p.log, c, i, order[|order| - 1]);
    }
  }

  // ------------------------------------------------------- in-order delivery

  function ReceiveInOrder(c: Client, log: seq<Delta>): Client {
    if log == [] then c else Receive(ReceiveInOrder(c, log[..|log| - 1]), log[|log| - 1])
  }

  lemma {:induction false} ConsecutiveReceived(c: Client, log: seq<Delta>)
    requires UniqueIds(c.entries)
    requires forall i :: 0 <= i < |log| ==> log[i].revision == c.revision + 1 + i && !log[i].Reset?
    ensures var after := ReceiveInOrder(c, log);
            && after.revision == c.revision + |log| && after.refetch == c.refetch
            && UniqueIds(after.entries) && ById(after.entries) == ReplayMap(ById(c.entries), log)
  {
    if log != [] {
      ConsecutiveReceived(c, log[..|log| - 1]);
      ApplyById(ReceiveInOrder(c, log[..|log| - 1]).entries, log[|log| - 1]);
    }
  }

  /** A client that is up to date and receives the deltas of the next publish in order
      shows the new listing. It keeps the pane's revision too, unless the publish found
      no difference: then the pane moves on silently and the next delta finds a gap. */
  lemma {:induction false} PublishTracked(p: Pane, c: Client, change: Change)
    requires UniqueIds(c.entries) && ById(c.entries) == ById(p.entries) && c.revision == p.revision
    requires UniqueIds(change.listing)
    ensures var next := Publish(p, change);
            var after := ReceiveInOrder(c, next.log[|p.log|..]);
            && ById(after.entries) == ById(next.entries) && after.refetch == c.refetch
            && (after.revision == next.revision <==> change.reset || ById(change.listing) != ById(p.entries))
  {
    PublishMovesOn(p, change);
    assert (p.log + Emitted(p, change))[|p.log|..] == Emitted(p, change);
    if change.reset {
      ResetTracked(p, c, change);
    } else {
      DiffTracked(p, c, change);
    }
  }

  lemma {:induction false} ResetTracked(p: Pane, c: Client, change: Change)
    requires c.revision == p.revision && change.reset
    ensures ReceiveInOrder(c, Emitted(p, change)) == Client(p.revision + 1, change.listing, c.refetch)
  {
    var d := Reset(p.revision + 1, change.listing);
    assert [d][..0] == [];
    assert ReceiveInOrder(c, [d]) == Receive(ReceiveInOrder(c, [d][..0]), d);
  }

  lemma {:induction false} DiffTracked(p: Pane, c: Client, change: Change)
    requires UniqueIds(c.entries) && ById(c.entries) == ById(p.entries) && c.revision == p.revision
    requires UniqueIds(change.listing) && !change.reset
    ensures var after := ReceiveInOrder(c, Emitted(p, change));
            && ById(after.entries) == ById(change.listing) && after.refetch == c.refetch
            && after.revision == p.revision + |Emitted(p, change)|
            && (Emitted(p, change) != [] <==> ById(change.listing) != ById(p.entries))
  {
    EmittedRevisions(p, change);
    EmittedReplay(p, change);
    ConsecutiveReceived(c, Emitted(p, change));
    if Emitted(p, change) != [] {
      DiffIsChange(p.entries, change.listing, p.revision + 1);
    } else {
      ReplayOne(ById(p.entries), Emitted(p, change));
    }
  }

  /** A diff is empty only when nothing changed. */
  lemma {:induction false} DiffIsChange(previous: seq<Entry>, current: seq<Entry>, revision: nat)
    requires UniqueIds(current) && DiffEntries(previous, current, revision) != []
    ensures ById(previous) != ById(current)
  {
    var d := DiffEntries(previous, current, revision)[0];
    assert d in DiffEntries(previous, current, revision);
    ByIdMembers(current);
    DeltaIsChange(previous, current, revision, d);
  }

  lemma {:induction false} DeltaIsChange(previous: seq<Entry>, current: seq<Entry>, revision: nat, d: Delta)
    requires UniqueIds(current) && d in DiffEntries(previous, current, revision)
    ensures ById(previous) != ById(current)
  {
    var before, now := ById(previous), ById(current);
    BatchContents(Select(current, NewIn(before)), Select(current, ChangedFrom(before)), IdsOf(Select(previous, NewIn(now))),
                  revision, d);
    ByIdMembers(current);
    match d
    case Added(_, entries) =>
      SelectIn(current, NewIn(before));
      assert entries[0] in entries;
    case Updated(_, entries) =>
      SelectIn(current, ChangedFrom(before));
      assert entries[0] in entries;
    case Removed(_, ids) =>
      RemovedIds(previous, now, ids[0]);
    case Reset(_, _) =>
  }

  // --------------------------------------------------------- what one delta does

  /** An old delta changes nothing, the next one is applied, a gap leaves the list alone and asks
      for a fresh listing, and a newer reset is taken whatever was missed. */
  lemma {:induction false} ReceiveCases(c: Client, d: Delta)
    ensures d.revision <= c.revision ==> Receive(c, d) == c
    ensures d.revision > c.revision && d.Reset? ==> Receive(c, d) == Client(d.revision, d.entries, c.refetch)
    ensures d.revision == c.revision + 1 ==>
              Receive(c, d).revision == d.revision && Receive(c, d).refetch == c.refetch
              && Receive(c, d).entries == ApplyToEntries(c.entries, d)
    ensures d.revision > c.revision + 1 && !d.Reset? ==> Receive(c, d) == Client(c.revision, c.entries, true)
  {
  }

  /** The delta leaves a gap behind the client's revision. */
  predicate Gap(c: Client, d: Delta) {
    !d.Reset? && d.revision > c.revision + 1
  }

  /** Some delta met a gap when it arrived. */
  ghost predicate MetGap(c: Client, log: seq<Delta>, order: seq<nat>)
    requires forall k :: 0 <= k < |order| ==> order[k] < |log|
  {
    exists k: nat :: k < |order| && GapAt(c, log, order, k)
  }

  ghost predicate GapAt(c: Client, log: seq<Delta>, order: seq<nat>, k: nat)
    requires k < |order| && forall k :: 0 <= k < |order| ==> order[k] < |log|
  {
    Gap(ReceiveAll(c, log, order[..k]), log[order[k]])
  }

  lemma {:induction false} MetGapNext(c: Client, log: seq<Delta>, order: seq<nat>)
    requires order != [] && forall k :: 0 <= k < |order| ==> order[k] < |log|
    ensures var init := order[..|order| - 1];
            MetGap(c, log, order) <==> MetGap(c, log, init) || Gap(ReceiveAll(c, log, init), log[order[|order| - 1]])
  {
    var init, last: nat := order[..|order| - 1], |order| - 1;
    forall k: nat | k < last
      ensures GapAt(c, log, order, k) == GapAt(c, log, init, k)
    {
      assert order[..k] == init[..k] && order[k] == init[k];
    }
    assert GapAt(c, log, order, last) == Gap(ReceiveAll(c, log, init), log[order[last]]);
    if MetGap(c, log, init) {
      var k: nat :| k < |init| && GapAt(c, log, init, k);
      assert GapAt(c, log, order, k);
    }
  }

  /** A client asks for a fresh listing exactly if some delta met a gap. */
  lemma {:induction false} RefetchIffGap(c: Client, log: seq<Delta>, order: seq<nat>)
    requires !c.refetch && forall k :: 0 <= k < |order| ==> order[k] < |log|
    ensures ReceiveAll(c, log, order).refetch <==> MetGap(c, log, order)
  {
    if order != [] {
      var init := order[..|order| - 1];
      RefetchIffGap(c, log, init);
      MetGapNext(c, log, order);
      ReceiveCases(ReceiveAll(c, log, init), log[order[|order| - 1]]);
    }
  }

  /** One publish moves the pane on by the number of its deltas, and by one if there are none. */
  lemma {:induction false} PublishMovesOn(p: Pane, c: Change)
    ensures Publish(p, c).revision == p.revision + (if Emitted(p, c) == [] then 1 else |Emitted(p, c)|)
    ensures Publish(p, c).entries == c.listing && Publish(p, c).log == p.log + Emitted(p, c)
  {
    EmittedRevisions(p, c);
  }

  /** Entries that stay keep their places in the client's list, and new ones go to its end. */
  lemma {:induction false} UpsertKeepsPlaces(s: seq<Entry>, e: Entry)
    ensures (exists i :: 0 <= i < |s| && s[i].id == e.id) ==> IdsOf(Upsert(s, e)) == IdsOf(s)
    ensures !(exists i :: 0 <= i < |s| && s[i].id == e.id) ==> Upsert(s, e) == s + [e]
  {
    var at := Find(s, e.id);
    if at.Some? {
      assert s[at.value].id == e.id;
    }
  }
}
