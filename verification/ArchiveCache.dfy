/** The session cache of extracted archive entries: bounded in bytes and in entries, the
    least recently used going first. */
module ArchiveCache {
  const CACHE_MAX_BYTES: nat := 512 * 1024 * 1024
  const CACHE_MAX_ENTRIES: nat := 512
  const U64_MAX: nat := 0xFFFF_FFFF_FFFF_FFFF

  type Key = string
  type Bytes = seq<int>
  type FileId = nat

  datatype Option<T> = None | Some(value: T)
  datatype CachedEntry = CachedEntry(file: FileId, size: nat, lastUsed: nat)

  type Entries = map<Key, CachedEntry>

  ghost function TotalSize(m: Entries): nat {
    if m == map[] then 0 else var k :| k in m; m[k].size + TotalSize(m - {k})
  }

  /** The sum does not depend on the order in which entries are taken. */
  lemma {:induction false} TotalWithout(m: Entries, k: Key)
    requires k in m
    ensures TotalSize(m) == m[k].size + TotalSize(m - {k})
    decreases |m|
  {
    var j :| j in m && TotalSize(m) == m[j].size + TotalSize(m - {j});
    if j != k {
      TotalWithout(m - {j}, k);
      TotalWithout(m - {k}, j);
      assert m - {j} - {k} == m - {k} - {j};
    }
  }

  lemma {:induction false} TotalWith(m: Entries, k: Key, e: CachedEntry)
    requires k !in m
    ensures TotalSize(m[k := e]) == TotalSize(m) + e.size
  {
    TotalWithout(m[k := e], k);
    assert m[k := e] - {k} == m;
  }

  /** Using an entry changes its clock and nothing else, so the sum stays. */
  lemma {:induction false} TotalTouched(m: Entries, k: Key, e: CachedEntry)
    requires k in m && e.size == m[k].size
    ensures TotalSize(m[k := e]) == TotalSize(m)
  {
    TotalWithout(m, k);
    TotalWithout(m[k := e], k);
    assert m[k := e] - {k} == m - {k};
  }

  lemma {:induction false} OldestExists(m: Entries) returns (k: Key)
    requires m != map[]
    ensures k in m && forall j :: j in m ==> m[k].lastUsed <= m[j].lastUsed
    decreases |m|
  {
    k :| k in m;
    assert forall j :: j in m ==> j == k || j in m - {k};
    if m - {k} != map[] {
      var j := OldestExists(m - {k});
      if m[j].lastUsed < m[k].lastUsed {
        k := j;
      }
    }
  }

  /** The new entry does not fit beside `m`. */
  predicate Full(count: nat, bytes: nat, size: nat) {
    count >= CACHE_MAX_ENTRIES || bytes + size > CACHE_MAX_BYTES
  }

  /** `after` is what eviction leaves of `before`: entries are kept as they were, and none
      that went was used more recently than one that stayed. */
  ghost predicate EvictsOldest(before: Entries, after: Entries) {
    && (forall k :: k in after ==> k in before && after[k] == before[k])
    && (forall e, k :: e in before && e !in after && k in after ==> before[e].lastUsed <= after[k].lastUsed)
  }

  /** No eviction was one too many: putting the last victim back, the new entry would not fit. */
  ghost predicate EvictsNoMore(before: Entries, after: Entries, size: nat) {
    before != after ==>
      exists e :: e in before && e !in after && Full(|after| + 1, TotalSize(after) + before[e].size, size)
  }

  /** The bounds hold, and the byte count is exact. */
  ghost predicate Bounded(m: Entries, totalBytes: nat) {
    totalBytes == TotalSize(m) <= CACHE_MAX_BYTES && |m| <= CACHE_MAX_ENTRIES
  }

  /** An entry's file, as long as it is there, holds the bytes accepted for its key. */
  ghost predicate EntrySound(k: Key, e: CachedEntry, clock: nat, nextFile: FileId, files: map<FileId, Bytes>,
                             accepted: map<Key, Bytes>) {
    && e.lastUsed <= clock && e.file < nextFile
    && k in accepted && e.size == |accepted[k]| && (e.file in files ==> files[e.file] == accepted[k])
  }

  ghost predicate Sound(m: Entries, clock: nat, nextFile: FileId, files: map<FileId, Bytes>, accepted: map<Key, Bytes>) {
    forall k :: k in m ==> EntrySound(k, m[k], clock, nextFile, files, accepted)
  }

  /** No two entries share a file. */
  ghost predicate DistinctFiles(m: Entries) {
    forall j, k :: j in m && k in m && j != k ==> m[j].file != m[k].file
  }

  lemma {:induction false} RemovedBound(m: Entries, totalBytes: nat, key: Key)
    requires Bounded(m, totalBytes) && key in m
    ensures m[key].size <= totalBytes && Bounded(m - {key}, totalBytes - m[key].size)
  {
    TotalWithout(m, key);
    RemovedCount(m, key);
  }

  lemma {:induction false} RemovedCount(m: Entries, key: Key)
    requires key in m
    ensures |m - {key}| == |m| - 1
  {
    assert m.Keys == (m - {key}).Keys + {key};
  }

  lemma {:induction false} RemovedSound(m: Entries, clock: nat, nextFile: FileId, files: map<FileId, Bytes>,
                                        accepted: map<Key, Bytes>, key: Key)
    requires Sound(m, clock, nextFile, files, accepted) && DistinctFiles(m)
    ensures Sound(m - {key}, clock, nextFile, files, accepted) && DistinctFiles(m - {key})
  {
  }

  lemma {:induction false} TouchedBound(m: Entries, totalBytes: nat, key: Key, clock: nat)
    requires Bounded(m, totalBytes) && key in m
    ensures Bounded(m[key := m[key].(lastUsed := clock)], totalBytes)
  {
    var n := m[key := m[key].(lastUsed := clock)];
    TotalTouched(m, key, m[key].(lastUsed := clock));
    assert n.Keys == m.Keys;
    assert |n| == |n.Keys| == |m.Keys| == |m|;
  }

  lemma {:induction false} TouchedSound(m: Entries, clock: nat, nextFile: FileId, files: map<FileId, Bytes>,
                                        accepted: map<Key, Bytes>, key: Key)
    requires Sound(m, clock, nextFile, files, accepted) && DistinctFiles(m) && key in m
    ensures var n := m[key := m[key].(lastUsed := clock)];
            && Sound(n, clock, nextFile, files, accepted) && DistinctFiles(n)
            && forall k :: k in n ==> n[k].lastUsed <= n[key].lastUsed
  {
    forall k | k in m
      ensures EntrySound(k, m[k], clock, nextFile, files, accepted)
    {
    }
  }

  lemma {:induction false} StoredBound(m: Entries, totalBytes: nat, key: Key, e: CachedEntry)
    requires Bounded(m, totalBytes) && key !in m && !Full(|m|, totalBytes, e.size)
    ensures Bounded(m[key := e], totalBytes + e.size) && m[key := e] - {key} == m
  {
    TotalWith(m, key, e);
  }

  lemma {:induction false} StoredSound(m: Entries, clock: nat, nextFile: FileId, files: map<FileId, Bytes>,
                                       accepted: map<Key, Bytes>, key: Key, bytes: Bytes)
    requires Sound(m, clock, nextFile, files, accepted) && DistinctFiles(m) && key !in m
    ensures var n := m[key := CachedEntry(nextFile, |bytes|, clock)];
            && Sound(n, clock, nextFile + 1, files[nextFile := bytes], accepted[key := bytes]) && DistinctFiles(n)
            && forall k :: k in n ==> n[k].lastUsed <= n[key].lastUsed
  {
    forall k | k in m
      ensures EntrySound(k, m[k], clock, nextFile, files, accepted)
    {
    }
  }

  /** Beside `key`, an insert of `size` bytes evicts the oldest entries, and no more than it must. */
  ghost predicate Evicts(before: Entries, after: Entries, key: Key, size: nat) {
    EvictsOldest(before - {key}, after - {key}) && EvictsNoMore(before - {key}, after - {key}, size)
  }

  /** `key` is cached, its file is there, and nothing was used more recently. */
  ghost predicate HoldsNewest(m: Entries, files: map<FileId, Bytes>, key: Key) {
    key in m && m[key].file in files && forall k :: k in m ==> m[k].lastUsed <= m[key].lastUsed
  }

  class SessionExtractionCache {
    var entries: Entries
    var totalBytes: nat
    var clock: nat
    /** The files of the session directory. */
    var files: map<FileId, Bytes>
    var nextFile: FileId
    /** The bytes of the last accepted insert of each key. */
    ghost var accepted: map<Key, Bytes>

    ghost predicate Valid()
      reads this
    {
      && Bounded(entries, totalBytes) && clock <= U64_MAX
      && Sound(entries, clock, nextFile, files, accepted) && DistinctFiles(entries)
    }

    constructor ()
      ensures Valid() && entries == map[] && accepted == map[]
    {
      entries, totalBytes, clock, files, nextFile, accepted := map[], 0, 0, map[], 0, map[];
    }

    method Tick()
      requires Valid()
      modifies this`clock
      ensures Valid()
      ensures clock == if old(clock) < U64_MAX then old(clock) + 1 else old(clock)
    {
      if clock < U64_MAX {
        clock := clock + 1;
      }
    }

    /** A hit returns the bytes of the last accepted insert and makes the entry the most
        recently used; an entry whose file is gone is dropped. */
    method Read(key: Key) returns (r: Option<Bytes>)
      requires Valid()
      modifies this`entries, this`totalBytes, this`clock
      ensures Valid()
      ensures r.Some? <==> key in old(entries) && old(entries)[key].file in files
      ensures r.Some? ==> r.value == accepted[key]
      ensures r.Some? ==> entries == old(entries)[key := old(entries)[key].(lastUsed := clock)]
                          && forall k :: k in entries ==> entries[k].lastUsed <= entries[key].lastUsed
      ensures r.None? ==> entries == old(entries) - {key}
    {
      if key !in entries {
        assert entries - {key} == entries;
        return None;
      }
      var entry := entries[key];
      if entry.file in files {
        Tick();
        Touch(key);
        return Some(files[entry.file]);
      }
      Discard(key);
      return None;
    }

    /** Marks an entry as the most recently used. */
    method Touch(key: Key)
      requires Valid() && key in entries
      modifies this`entries
      ensures Valid() && entries == old(entries)[key := old(entries)[key].(lastUsed := clock)]
      ensures forall k :: k in entries ==> entries[k].lastUsed <= entries[key].lastUsed
    {
      TouchedBound(entries, totalBytes, key, clock);
      TouchedSound(entries, clock, nextFile, files, accepted, key);
      entries := entries[key := entries[key].(lastUsed := clock)];
    }

    /** Forgets an entry, but not its file. */
    method Discard(key: Key)
      requires Valid() && key in entries
      modifies this`entries, this`totalBytes
      ensures Valid()
      ensures entries == old(entries) - {key}
    {
      RemovedBound(entries, totalBytes, key);
      RemovedSound(entries, clock, nextFile, files, accepted, key);
      totalBytes := totalBytes - entries[key].size;
      entries := entries - {key};
    }

    method Drop(key: Key)
      requires Valid() && key in entries
      modifies this`entries, this`totalBytes, this`files
      ensures Valid()
      ensures entries == old(entries) - {key}
      ensures files == old(files) - {old(entries)[key].file}
    {
      var file := entries[key].file;
      Discard(key);
      files := files - {file};
    }

    /** Removes the entry of a key, if there is one. */
    method Forget(key: Key)
      requires Valid()
      modifies this`entries, this`totalBytes, this`files
      ensures Valid() && entries == old(entries) - {key}
      ensures accepted == old(accepted)
    {
      if key in entries {
        Drop(key);
      } else {
        assert entries - {key} == entries;
      }
    }

    /** Evicts until an entry of `size` bytes fits. */
    method MakeRoom(size: nat)
      requires Valid() && size <= CACHE_MAX_BYTES
      modifies this`entries, this`totalBytes, this`files
      ensures Valid() && !Full(|entries|, totalBytes, size)
      ensures |entries| < 512 && totalBytes + size <= 536_870_912
      ensures EvictsOldest(old(entries), entries) && EvictsNoMore(old(entries), entries, size)
      ensures old(|entries|) < 512 && old(totalBytes) + size <= 536_870_912 ==> entries == old(entries)
      ensures accepted == old(accepted)
    {
      ghost var before := entries;
      while Full(|entries|, totalBytes, size)
        invariant Valid() && EvictsOldest(before, entries) && EvictsNoMore(before, entries, size)
        invariant old(|entries|) < 512 && old(totalBytes) + size <= 536_870_912 ==>
                    entries == before && totalBytes == old(totalBytes)
        decreases |entries|
      {
        assert entries != map[];
        ghost var _ := OldestExists(entries);
        var oldest :| oldest in entries && forall j :: j in entries ==> entries[oldest].lastUsed <= entries[j].lastUsed;
        ghost var previous := entries;
        Drop(oldest);
        RemovedCount(previous, oldest);
        EvictionStep(before, previous, oldest, size);
      }
    }

    /** A larger entry than the whole cache is not cached and changes nothing. */
    method Insert(key: Key, bytes: Bytes, writeFails: bool) returns (ok: bool)
      requires Valid()
      modifies this
      ensures Valid()
      ensures |bytes| > CACHE_MAX_BYTES ==> ok && entries == old(entries) && files == old(files) && accepted == old(accepted)
      ensures |bytes| <= CACHE_MAX_BYTES ==>
        && ok == !writeFails
        && Evicts(old(entries), entries, key, |bytes|)
        && (ok ==> HoldsNewest(entries, files, key))
        && (!ok ==> key !in entries)
        && accepted == if ok then old(accepted)[key := bytes] else old(accepted)
    {
      if |bytes| > CACHE_MAX_BYTES {
        return true;
      }
      ok := InsertFitting(key, bytes, writeFails);
    }

    /** The old entry of the key goes, room is made, and the new file is written, unless the
        write fails. */
    method InsertFitting(key: Key, bytes: Bytes, writeFails: bool) returns (ok: bool)
      requires Valid() && |bytes| <= CACHE_MAX_BYTES
      modifies this
      ensures Valid() && ok == !writeFails
      ensures Evicts(old(entries), entries, key, |bytes|)
      ensures ok ==> HoldsNewest(entries, files, key)
      ensures !ok ==> key !in entries
      ensures accepted == if ok then old(accepted)[key := bytes] else old(accepted)
    {
      Forget(key);
      MakeRoom(|bytes|);
      ghost var room := entries;
      Tick();
      if !writeFails {
        Store(key, bytes);
      }
      InsertEvicts(old(entries), room, entries, key, |bytes|);
      return !writeFails;
    }

    /** Writes a new file and records the entry. */
    method Store(key: Key, bytes: Bytes)
      requires Valid() && key !in entries && !Full(|entries|, totalBytes, |bytes|)
      modifies this`entries, this`totalBytes, this`files, this`nextFile, this`accepted
      ensures Valid() && accepted == old(accepted)[key := bytes]
      ensures entries - {key} == old(entries) && HoldsNewest(entries, files, key)
    {
      StoredBound(entries, totalBytes, key, CachedEntry(nextFile, |bytes|, clock));
      StoredSound(entries, clock, nextFile, files, accepted, key, bytes);
      var file := nextFile;
      nextFile := nextFile + 1;
      files := files[file := bytes];
      totalBytes := totalBytes + |bytes|;
      entries := entries[key := CachedEntry(file, |bytes|, clock)];
      accepted := accepted[key := bytes];
    }

    /** A file of the session directory disappears from outside. */
    method Vanish(file: FileId)
      requires Valid()
      modifies this`files
      ensures Valid() && files == old(files) - {file}
    {
      files := files - {file};
    }
  }

  lemma {:induction false} InsertEvicts(before: Entries, room: Entries, after: Entries, key: Key, size: nat)
    requires EvictsOldest(before - {key}, room) && EvictsNoMore(before - {key}, room, size)
    requires key !in room && (after == room || after - {key} == room)
    ensures Evicts(before, after, key, size)
  {
    assert room - {key} == room;
  }

  lemma {:induction false} EvictionStep(before: Entries, now: Entries, oldest: Key, size: nat)
    requires EvictsOldest(before, now) && oldest in now && Full(|now|, TotalSize(now), size)
    requires forall j :: j in now ==> now[oldest].lastUsed <= now[j].lastUsed
    ensures EvictsOldest(before, now - {oldest}) && EvictsNoMore(before, now - {oldest}, size)
  {
    var after := now - {oldest};
    TotalWithout(now, oldest);
    assert |after| + 1 == |now| by {
      assert now.Keys == after.Keys + {oldest};
    }
    assert oldest in before && oldest !in after
        && Full(|after| + 1, TotalSize(after) + before[oldest].size, size);
  }

  // -------------------------------------------------------------- whole runs

  datatype Operation = DoRead(key: Key) | DoInsert(key: Key, bytes: Bytes, writeFails: bool) | DoVanish(file: FileId)

  /** The bytes last accepted for a key by a sequence of operations. */
  function LastAccepted(operations: seq<Operation>, key: Key): Option<Bytes> {
    if operations == [] then None
    else
      match operations[|operations| - 1]
      case DoInsert(k, bytes, writeFails) =>
        if k == key && !writeFails && |bytes| <= CACHE_MAX_BYTES then Some(bytes)
        else LastAccepted(operations[..|operations| - 1], key)
      case _ => LastAccepted(operations[..|operations| - 1], key)
  }

  /** `accepted` is the record that `operations` leave. */
  ghost predicate Records(accepted: map<Key, Bytes>, operations: seq<Operation>) {
    forall k :: LastAccepted(operations, k) == if k in accepted then Some(accepted[k]) else None
  }

  function Accepts(operation: Operation): bool {
    operation.DoInsert? && !operation.writeFails && |operation.bytes| <= CACHE_MAX_BYTES
  }

  lemma {:induction false} RecordsNext(accepted: map<Key, Bytes>, operations: seq<Operation>, operation: Operation)
    requires Records(accepted, operations)
    ensures Records(if Accepts(operation) then accepted[operation.key := operation.bytes] else accepted,
                    operations + [operation])
  {
    assert (operations + [operation])[..|operations|] == operations;
  }

  ghost predicate HitsCorrect(operations: seq<Operation>, hits: seq<Option<Bytes>>) {
    && |hits| <= |operations|
    && forall i :: 0 <= i < |hits| && hits[i].Some? ==>
         operations[i].DoRead? && LastAccepted(operations[..i], operations[i].key) == hits[i]
  }

  lemma {:induction false} HitsAppend(operations: seq<Operation>, hits: seq<Option<Bytes>>, hit: Option<Bytes>)
    requires HitsCorrect(operations, hits) && |hits| < |operations|
    requires hit.Some? ==> operations[|hits|].DoRead? && LastAccepted(operations[..|hits|], operations[|hits|].key) == hit
    ensures HitsCorrect(operations, hits + [hit])
  {
  }

  method Perform(cache: SessionExtractionCache, operation: Operation) returns (hit: Option<Bytes>)
    requires cache.Valid()
    modifies cache
    ensures cache.Valid()
    ensures cache.accepted == if Accepts(operation) then old(cache.accepted)[operation.key := operation.bytes]
                              else old(cache.accepted)
    ensures hit.Some? ==> operation.DoRead? && operation.key in cache.accepted && hit.value == cache.accepted[operation.key]
  {
    hit := None;
    match operation {
      case DoRead(key) => hit := cache.Read(key);
      case DoInsert(key, bytes, writeFails) => var _ := cache.Insert(key, bytes, writeFails);
      case DoVanish(file) => cache.Vanish(file);
    }
  }

  /** Any run of reads, inserts and disappearing files keeps the bounds, and every hit
      returns what was last accepted for its key. */
  method RunOperations(operations: seq<Operation>) returns (hits: seq<Option<Bytes>>)
    ensures |hits| == |operations| && HitsCorrect(operations, hits)
  {
    var cache := new SessionExtractionCache();
    hits := [];
    for i := 0 to |operations|
      invariant fresh(cache) && cache.Valid() && |hits| == i
      invariant Records(cache.accepted, operations[..i]) && HitsCorrect(operations, hits)
    {
      RecordsNext(cache.accepted, operations[..i], operations[i]);
      assert operations[..i + 1] == operations[..i] + [operations[i]];
      var hit := Perform(cache, operations[i]);
      HitsAppend(operations, hits, hit);
      hits := hits + [hit];
    }
  }

  // ---------------------------------------------------------- reading through

  /** Everything accepted is what extraction gives: a key names one state of one archive. */
  ghost predicate Faithful(accepted: map<Key, Bytes>, extract: Key -> Option<Bytes>) {
    forall k :: k in accepted ==> extract(k) == Some(accepted[k])
  }

  /** Reading through the cache is the same as extracting, hit or miss, whether or not the
      extracted bytes could be stored. */
  method ReadThrough(cache: SessionExtractionCache, key: Key, extract: Key -> Option<Bytes>, writeFails: bool)
      returns (r: Option<Bytes>)
    requires cache.Valid() && Faithful(cache.accepted, extract)
    modifies cache
    ensures r == extract(key)
    ensures cache.Valid() && Faithful(cache.accepted, extract)
  {
    r := cache.Read(key);
    if r.Some? {
      return;
    }
    r := extract(key);
    if r.Some? {
      var _ := cache.Insert(key, r.value, writeFails);
    }
  }
}
