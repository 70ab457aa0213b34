/** Delta publication and the client replica that follows it. */
module Deltas {
  import opened Listing

  datatype Delta =
    | Added(revision: nat, entries: seq<Entry>)
    | Updated(revision: nat, entries: seq<Entry>)
    | Removed(revision: nat, ids: seq<nat>)
    | Reset(revision: nat, entries: seq<Entry>)

  /** The entries by id, a later one replacing an earlier one. */
  function ById(s: seq<Entry>): map<nat, Entry> {
    if s == [] then map[] else ById(s[..|s| - 1])[s[|s| - 1].id := s[|s| - 1]]
  }

  ghost predicate UniqueIds(s: seq<Entry>) {
    forall i, j :: 0 <= i < j < |s| ==> s[i].id != s[j].id
  }

  function Select(s: seq<Entry>, keep: Entry -> bool): seq<Entry> {
    if s == [] then []
    else Select(s[..|s| - 1], keep) + if keep(s[|s| - 1]) then [s[|s| - 1]] else []
  }

  function IdsOf(s: seq<Entry>): (ids: seq<nat>)
    ensures |ids| == |s|
  {
    seq(|s|, i requires 0 <= i < |s| => s[i].id)
  }

  function NewIn(previous: map<nat, Entry>): Entry -> bool {
    (e: Entry) => e.id !in previous
  }

  function ChangedFrom(previous: map<nat, Entry>): Entry -> bool {
    (e: Entry) => e.id in previous && previous[e.id] != e
  }

  function AddedBatch(revision: nat, entries: seq<Entry>): seq<Delta> {
    if entries != [] then [Added(revision, entries)] else []
  }

  function UpdatedBatch(revision: nat, entries: seq<Entry>): seq<Delta> {
    if entries != [] then [Updated(revision, entries)] else []
  }

  function RemovedBatch(revision: nat, ids: seq<nat>): seq<Delta> {
    if ids != [] then [Removed(revision, ids)] else []
  }

  /** Up to three batches with consecutive revisions; an empty batch is not sent. */
  function Batches(added: seq<Entry>, updated: seq<Entry>, removed: seq<nat>, revision: nat): seq<Delta> {
    var first := AddedBatch(revision, added);
    var second := UpdatedBatch(revision + |first|, updated);
    first + second + RemovedBatch(revision + |first| + |second|, removed)
  }

  function DiffEntries(previous: seq<Entry>, current: seq<Entry>, revision: nat): seq<Delta> {
    var before, after := ById(previous), ById(current);
    Batches(Select(current, NewIn(before)), Select(current, ChangedFrom(before)), IdsOf(Select(previous, NewIn(after))),
            revision)
  }

  // ------------------------------------------------------------ replay on maps

  function ApplyToMap(m: map<nat, Entry>, d: Delta): map<nat, Entry> {
    match d
    case Added(_, entries) => m + ById(entries)
    case Updated(_, entries) => m + ById(entries)
    case Removed(_, ids) => m - (set id | id in ids)
    case Reset(_, entries) => ById(entries)
  }

  function ReplayMap(m: map<nat, Entry>, log: seq<Delta>): map<nat, Entry> {
    if log == [] then m else ApplyToMap(ReplayMap(m, log[..|log| - 1]), log[|log| - 1])
  }

  lemma {:induction false} ReplayMapConcat(m: map<nat, Entry>, a: seq<Delta>, b: seq<Delta>)
    ensures ReplayMap(m, a + b) == ReplayMap(ReplayMap(m, a), b)
  {
    if b == [] {
      assert a + b == a;
    } else {
      assert (a + b)[..|a + b| - 1] == a + b[..|b| - 1];
      ReplayMapConcat(m, a, b[..|b| - 1]);
    }
  }

  lemma {:induction false} ByIdValues(s: seq<Entry>)
    ensures forall id :: id in ById(s) ==> ById(s)[id] in s && ById(s)[id].id == id
    ensures forall e :: e in s ==> e.id in ById(s)
  {
    if s != [] {
      ByIdValues(s[..|s| - 1]);
      assert s == s[..|s| - 1] + [s[|s| - 1]];
    }
  }

  lemma {:induction false} ByIdUnique(s: seq<Entry>)
    requires UniqueIds(s)
    ensures forall e :: e in s ==> e.id in ById(s) && ById(s)[e.id] == e
  {
    if s != [] {
      var init, last := s[..|s| - 1], s[|s| - 1];
      ByIdUnique(init);
      assert s == init + [last];
      forall e | e in init
        ensures e.id != last.id
      {
        var i :| 0 <= i < |init| && init[i] == e;
        assert s[i].id != s[|init|].id;
      }
    }
  }

  lemma {:induction false} ByIdMembers(s: seq<Entry>)
    ensures forall id :: id in ById(s) <==> exists i :: 0 <= i < |s| && s[i].id == id
    ensures forall id :: id in ById(s) ==> ById(s)[id] in s && ById(s)[id].id == id
    ensures UniqueIds(s) ==> forall e :: e in s ==> e.id in ById(s) && ById(s)[e.id] == e
  {
    ByIdValues(s);
    if UniqueIds(s) {
      ByIdUnique(s);
    }
  }

  lemma {:induction false} SelectIn(s: seq<Entry>, keep: Entry -> bool)
    ensures forall e :: e in Select(s, keep) <==> e in s && keep(e)
  {
    if s != [] {
      SelectIn(s[..|s| - 1], keep);
      assert s == s[..|s| - 1] + [s[|s| - 1]];
    }
  }

  lemma {:induction false} SelectUnique(s: seq<Entry>, keep: Entry -> bool)
    requires UniqueIds(s)
    ensures UniqueIds(Select(s, keep))
  {
    if s != [] {
      var init, last := s[..|s| - 1], s[|s| - 1];
      SelectUnique(init, keep);
      SelectIn(init, keep);
      forall e | e in Select(init, keep)
        ensures e.id != last.id
      {
        var i :| 0 <= i < |init| && init[i] == e;
        assert s[i].id != s[|init|].id;
      }
    }
  }

  lemma {:induction false} SelectMembers(s: seq<Entry>, keep: Entry -> bool)
    ensures forall e :: e in Select(s, keep) <==> e in s && keep(e)
    ensures UniqueIds(s) ==> UniqueIds(Select(s, keep))
  {
    SelectIn(s, keep);
    if UniqueIds(s) {
      SelectUnique(s, keep);
    }
  }

  /** The entries that a batch carries, looked up by id. */
  lemma {:induction false} SelectedAt(s: seq<Entry>, keep: Entry -> bool, id: nat)
    requires UniqueIds(s)
    ensures var all, m := ById(s), ById(Select(s, keep));
            && (id in m <==> id in all && keep(all[id]))
            && (id in m ==> m[id] == all[id])
  {
    var all, picked := ById(s), Select(s, keep);
    SelectMembers(s, keep);
    ByIdMembers(s);
    ByIdMembers(picked);
    if id in ById(picked) {
      var e := ById(picked)[id];
      assert e in s && all[e.id] == e;
    }
    if id in all && keep(all[id]) {
      assert all[id] in picked;
    }
  }

  /** The ids that a removal batch carries: those of `previous` that `after` lacks. */
  lemma {:induction false} RemovedIds(previous: seq<Entry>, after: map<nat, Entry>, id: nat)
    ensures id in IdsOf(Select(previous, NewIn(after))) <==> id in ById(previous) && id !in after
  {
    var gone := Select(previous, NewIn(after));
    SelectMembers(previous, NewIn(after));
    ByIdMembers(previous);
    if id in IdsOf(gone) {
      var i :| 0 <= i < |gone| && gone[i].id == id;
      assert gone[i] in previous;
      var j :| 0 <= j < |previous| && previous[j] == gone[i];
      assert previous[j].id == id;
    }
    if id in ById(previous) && id !in after {
      var e := ById(previous)[id];
      assert e in gone;
      var i :| 0 <= i < |gone| && gone[i] == e;
      assert IdsOf(gone)[i] == id;
    }
  }

  /** What the batches do to any replica that holds at least the stored snapshot. */
  lemma {:induction false} ReplayDiffPoint(held: map<nat, Entry>, previous: seq<Entry>, current: seq<Entry>, revision: nat, id: nat)
    requires UniqueIds(current)
    requires forall k :: k in ById(previous) ==> k in held && held[k] == ById(previous)[k]
    ensures var after := ReplayMap(held, DiffEntries(previous, current, revision));
            && (id in after <==> id in ById(current) || (id in held && id !in ById(previous)))
            && (id in after ==> after[id] == if id in ById(current) then ById(current)[id] else held[id])
  {
    var before, now := ById(previous), ById(current);
    var added, updated := ById(Select(current, NewIn(before))), ById(Select(current, ChangedFrom(before)));
    var removed := IdsOf(Select(previous, NewIn(now)));
    SelectedAt(current, NewIn(before), id);
    SelectedAt(current, ChangedFrom(before), id);
    ByIdMembers(current);
    RemovedIds(previous, now, id);
    BatchesReplayed(held, Select(current, NewIn(before)), Select(current, ChangedFrom(before)), removed, revision);
    assert id in added <==> id in now && id !in before;
    assert id in updated <==> id in now && id in before && before[id] != now[id];
  }

  lemma {:induction false} BatchesReplayed(held: map<nat, Entry>, added: seq<Entry>, updated: seq<Entry>, removed: seq<nat>, revision: nat)
    ensures ReplayMap(held, Batches(added, updated, removed, revision))
         == (held + ById(added) + ById(updated)) - (set id | id in removed)
  {
    var a := AddedBatch(revision, added);
    var b := UpdatedBatch(revision + |a|, updated);
    var c := RemovedBatch(revision + |a| + |b|, removed);
    assert Batches(added, updated, removed, revision) == a + b + c;
    ReplayMapConcat(held, a + b, c);
    ReplayMapConcat(held, a, b);
    ReplayAdded(held, revision, added);
    ReplayUpdated(ReplayMap(held, a), revision + |a|, updated);
    ReplayRemoved(ReplayMap(held, a + b), revision + |a| + |b|, removed);
  }

  lemma {:induction false} ReplayAdded(m: map<nat, Entry>, revision: nat, entries: seq<Entry>)
    ensures ReplayMap(m, AddedBatch(revision, entries)) == m + ById(entries)
  {
    ReplayOne(m, AddedBatch(revision, entries));
  }

  lemma {:induction false} ReplayUpdated(m: map<nat, Entry>, revision: nat, entries: seq<Entry>)
    ensures ReplayMap(m, UpdatedBatch(revision, entries)) == m + ById(entries)
  {
    ReplayOne(m, UpdatedBatch(revision, entries));
  }

  lemma {:induction false} ReplayRemoved(m: map<nat, Entry>, revision: nat, ids: seq<nat>)
    ensures ReplayMap(m, RemovedBatch(revision, ids)) == m - (set id | id in ids)
  {
    ReplayOne(m, RemovedBatch(revision, ids));
  }

  lemma {:induction false} ReplayOne(m: map<nat, Entry>, log: seq<Delta>)
    requires |log| <= 1
    ensures ReplayMap(m, log) == if log == [] then m else ApplyToMap(m, log[0])
  {
    if log != [] {
      assert log[..0] == [];
      assert ReplayMap(m, log[..0]) == m;
    }
  }

  /** Replaying a diff on the stored snapshot gives the new listing. */
  lemma {:induction false} ReplayDiff(previous: seq<Entry>, current: seq<Entry>, revision: nat)
    requires UniqueIds(current)
    ensures ReplayMap(ById(previous), DiffEntries(previous, current, revision)) == ById(current)
  {
    forall id
      ensures var after := ReplayMap(ById(previous), DiffEntries(previous, current, revision));
              (id in after <==> id in ById(current)) && (id in after ==> after[id] == ById(current)[id])
    {
      ReplayDiffPoint(ById(previous), previous, current, revision, id);
    }
  }

  /** A client that has fetched later pages holds more than the stored snapshot, which is
      the last page served. A diff brings it to the new listing exactly when every entry
      it holds beyond that page is still listed. */
  lemma {:induction false} PagedReplayIff(held: map<nat, Entry>, previous: seq<Entry>, current: seq<Entry>, revision: nat)
    requires UniqueIds(current)
    requires forall k :: k in ById(previous) ==> k in held && held[k] == ById(previous)[k]
    ensures ReplayMap(held, DiffEntries(previous, current, revision)) == ById(current)
            <==> held.Keys - ById(previous).Keys <= ById(current).Keys
  {
    var after := ReplayMap(held, DiffEntries(previous, current, revision));
    forall id
      ensures && (id in after <==> id in ById(current) || (id in held && id !in ById(previous)))
              && (id in after ==> after[id] == if id in ById(current) then ById(current)[id] else held[id])
    {
      ReplayDiffPoint(held, previous, current, revision, id);
    }
    if held.Keys - ById(previous).Keys <= ById(current).Keys {
      assert after == ById(current);
    } else {
      var id :| id in held.Keys - ById(previous).Keys && id !in ById(current);
      assert id in after;
    }
  }

  // ----------------------------------------------------------- what a diff says

  ghost predicate HasId(s: seq<Entry>, id: nat) {
    exists i :: 0 <= i < |s| && s[i].id == id
  }

  lemma {:induction false} BatchContents(added: seq<Entry>, updated: seq<Entry>, removed: seq<nat>, revision: nat, d: Delta)
    requires d in Batches(added, updated, removed, revision)
    ensures !d.Reset? && (d.Added? ==> d.entries == added != []) && (d.Updated? ==> d.entries == updated != [])
            && (d.Removed? ==> d.ids == removed != [])
  {
  }

  lemma {:induction false} NewEntries(previous: seq<Entry>, e: Entry)
    ensures e.id in ById(previous) <==> HasId(previous, e.id)
    ensures UniqueIds(previous) && e.id in ById(previous) ==> (ById(previous)[e.id] != e <==> e !in previous)
  {
    ByIdMembers(previous);
  }

  /** The entries of a listing that the other one lacks are added, those that differ are updated,
      and the ids that are gone are removed; no batch is empty. */
  lemma {:induction false} DiffSaysWhatChanged(previous: seq<Entry>, current: seq<Entry>, revision: nat, d: Delta)
    requires UniqueIds(previous) && UniqueIds(current) && d in DiffEntries(previous, current, revision)
    ensures !d.Reset?
    ensures d.Added? ==> d.entries != [] && forall e :: e in d.entries <==> e in current && !HasId(previous, e.id)
    ensures d.Updated? ==>
              d.entries != [] && forall e :: e in d.entries <==> e in current && HasId(previous, e.id) && e !in previous
    ensures d.Removed? ==> d.ids != [] && forall id :: id in d.ids <==> HasId(previous, id) && !HasId(current, id)
  {
    var before := ById(previous);
    var added, updated := Select(current, NewIn(before)), Select(current, ChangedFrom(before));
    BatchContents(added, updated, IdsOf(Select(previous, NewIn(ById(current)))), revision, d);
    SelectIn(current, NewIn(before));
    SelectIn(current, ChangedFrom(before));
    forall e
      ensures e in added <==> e in current && !HasId(previous, e.id)
      ensures e in updated <==> e in current && HasId(previous, e.id) && e !in previous
    {
      NewEntries(previous, e);
    }
    forall id
      ensures id in IdsOf(Select(previous, NewIn(ById(current)))) <==> HasId(previous, id) && !HasId(current, id)
    {
      RemovedHas(previous, current, id);
    }
  }

  lemma {:induction false} RemovedHas(previous: seq<Entry>, current: seq<Entry>, id: nat)
    ensures id in IdsOf(Select(previous, NewIn(ById(current)))) <==> HasId(previous, id) && !HasId(current, id)
  {
    ByIdMembers(previous);
    ByIdMembers(current);
    RemovedIds(previous, ById(current), id);
  }

  /** Each of the three batches is sent if it has something to say. */
  lemma {:induction false} AddedIsSent(previous: seq<Entry>, current: seq<Entry>, revision: nat, e: Entry)
    requires e in current && !HasId(previous, e.id)
    ensures SendsAdded(DiffEntries(previous, current, revision))
  {
    var before := ById(previous);
    ByIdMembers(previous);
    SelectMembers(current, NewIn(before));
    assert e in Select(current, NewIn(before));
    BatchesSent(Select(current, NewIn(before)), Select(current, ChangedFrom(before)),
                IdsOf(Select(previous, NewIn(ById(current)))), revision);
  }

  lemma {:induction false} UpdatedIsSent(previous: seq<Entry>, current: seq<Entry>, revision: nat, e: Entry)
    requires e in current && HasId(previous, e.id) && e !in previous
    ensures SendsUpdated(DiffEntries(previous, current, revision))
  {
    var before := ById(previous);
    ByIdMembers(previous);
    SelectMembers(current, ChangedFrom(before));
    assert e in Select(current, ChangedFrom(before));
    BatchesSent(Select(current, NewIn(before)), Select(current, ChangedFrom(before)),
                IdsOf(Select(previous, NewIn(ById(current)))), revision);
  }

  lemma {:induction false} RemovedIsSent(previous: seq<Entry>, current: seq<Entry>, revision: nat, id: nat)
    requires HasId(previous, id) && !HasId(current, id)
    ensures SendsRemoved(DiffEntries(previous, current, revision))
  {
    var before, gone := ById(previous), IdsOf(Select(previous, NewIn(ById(current))));
    ByIdMembers(previous);
    ByIdMembers(current);
    RemovedIds(previous, ById(current), id);
    assert id in gone;
    BatchesSent(Select(current, NewIn(before)), Select(current, ChangedFrom(before)), gone, revision);
  }

  ghost predicate SendsAdded(log: seq<Delta>) {
    exists d :: d in log && d.Added?
  }

  ghost predicate SendsUpdated(log: seq<Delta>) {
    exists d :: d in log && d.Updated?
  }

  ghost predicate SendsRemoved(log: seq<Delta>) {
    exists d :: d in log && d.Removed?
  }

  lemma {:induction false} BatchesSent(added: seq<Entry>, updated: seq<Entry>, removed: seq<nat>, revision: nat)
    ensures var log := Batches(added, updated, removed, revision);
            && (SendsAdded(log) <==> added != []) && (SendsUpdated(log) <==> updated != [])
            && (SendsRemoved(log) <==> removed != [])
  {
    var first := AddedBatch(revision, added);
    var second := UpdatedBatch(revision + |first|, updated);
    var third := RemovedBatch(revision + |first| + |second|, removed);
    var log := Batches(added, updated, removed, revision);
    assert log == first + second + third;
    if added != [] {
      assert first[0] in log;
    }
    if updated != [] {
      assert second[0] in log;
    }
    if removed != [] {
      assert third[0] in log;
    }
  }
}
