/** Rewriting a ZIP archive: copy every entry that stays to a replacement, add what is new,
    then put the replacement in place. */
module ArchiveRewrite {
  /** A stored entry. A name with a trailing slash is a directory; `safe` tells whether the
      name stays inside the archive. */
  datatype StoredEntry = StoredEntry(raw: string, data: seq<int>, safe: bool)

  datatype Rewrite =
    | AddFile(inner: string, data: seq<int>, overwrite: bool)
    | AddDirectory(inner: string)
    | Remove(inner: string, recursive: bool)

  datatype Error = Unsafe | AlreadyExists | NotEmpty | NotFound | Cancelled
  datatype Outcome = Done | Rejected(error: Error)

  type Archive = seq<StoredEntry>

  function Trim(s: string): (t: string)
    ensures t <= s && (t != [] ==> t[|t| - 1] != '/') && forall i :: |t| <= i < |s| ==> s[i] == '/'
  {
    if s != [] && s[|s| - 1] == '/' then Trim(s[..|s| - 1]) else s
  }

  predicate IsDirectory(e: StoredEntry) {
    e.raw != [] && e.raw[|e.raw| - 1] == '/'
  }

  function SafeName(e: StoredEntry): string {
    if IsDirectory(e) then Trim(e.raw) else e.raw
  }

  predicate Exact(name: string, inner: string) {
    Trim(name) == Trim(inner)
  }

  predicate Below(name: string, inner: string) {
    Trim(inner) + "/" <= name
  }

  /** The entries that the rewrite leaves out of the replacement. */
  predicate Skips(rewrite: Rewrite, e: StoredEntry) {
    match rewrite
    case AddFile(inner, _, _) => SafeName(e) == inner
    case AddDirectory(_) => false
    case Remove(inner, _) => Exact(SafeName(e), inner) || Below(SafeName(e), inner)
  }

  /** The entries that the rewrite cannot pass. */
  predicate Blocks(rewrite: Rewrite, e: StoredEntry) {
    || !e.safe
    || match rewrite
       case AddFile(inner, _, overwrite) => SafeName(e) == inner && !overwrite
       case AddDirectory(inner) => Exact(SafeName(e), inner)
       case Remove(inner, recursive) => Below(SafeName(e), inner) && !recursive
  }

  function Filter(a: Archive, stays: StoredEntry -> bool): Archive {
    if a == [] then [] else Filter(a[..|a| - 1], stays) + if stays(a[|a| - 1]) then [a[|a| - 1]] else []
  }

  function Stays(rewrite: Rewrite): StoredEntry -> bool {
    (e: StoredEntry) => !Skips(rewrite, e)
  }

  function Kept(a: Archive, rewrite: Rewrite): Archive {
    Filter(a, Stays(rewrite))
  }

  function Added(rewrite: Rewrite): Archive {
    match rewrite
    case AddFile(inner, data, _) => [StoredEntry(inner, data, true)]
    case AddDirectory(inner) =>
      [StoredEntry(if inner != [] && inner[|inner| - 1] == '/' then inner else inner + "/", [], true)]
    case Remove(_, _) => []
  }

  /** A successful rewrite keeps every other entry, in order, and appends what is new. */
  function Rewritten(a: Archive, rewrite: Rewrite): Archive {
    Kept(a, rewrite) + Added(rewrite)
  }

  /** The rewrite meets no obstacle, and a removal has something to remove. */
  ghost predicate Permitted(a: Archive, rewrite: Rewrite) {
    Passes(a, rewrite) && (rewrite.Remove? ==> Matches(a, rewrite))
  }

  ghost predicate Passes(a: Archive, rewrite: Rewrite) {
    forall e :: e in a ==> !Blocks(rewrite, e)
  }

  ghost predicate Matches(a: Archive, rewrite: Rewrite) {
    exists e :: e in a && Skips(rewrite, e)
  }

  lemma {:induction false} FilterNext(a: Archive, e: StoredEntry, stays: StoredEntry -> bool)
    ensures Filter(a + [e], stays) == Filter(a, stays) + if stays(e) then [e] else []
  {
    assert (a + [e])[..|a|] == a;
  }

  lemma {:induction false} OneMore(a: Archive, e: StoredEntry, rewrite: Rewrite)
    ensures Passes(a + [e], rewrite) <==> Passes(a, rewrite) && !Blocks(rewrite, e)
    ensures Matches(a + [e], rewrite) <==> Matches(a, rewrite) || Skips(rewrite, e)
    ensures Kept(a + [e], rewrite) == Kept(a, rewrite) + if Skips(rewrite, e) then [] else [e]
  {
    FilterNext(a, e, Stays(rewrite));
    assert e in a + [e];
  }

  lemma {:induction false} NextEntry(s: Archive, i: nat, rewrite: Rewrite)
    requires i < |s|
    ensures Passes(s[..i + 1], rewrite) <==> Passes(s[..i], rewrite) && !Blocks(rewrite, s[i])
    ensures Matches(s[..i + 1], rewrite) <==> Matches(s[..i], rewrite) || Skips(rewrite, s[i])
    ensures Kept(s[..i + 1], rewrite) == if Skips(rewrite, s[i]) then Kept(s[..i], rewrite) else Kept(s[..i], rewrite) + [s[i]]
  {
    OneMore(s[..i], s[i], rewrite);
    assert s[..i + 1] == s[..i] + [s[i]];
  }

  // ------------------------------------------------ what a caller can rely on

  ghost predicate Increasing(at: seq<nat>, limit: nat) {
    && (forall i, j :: 0 <= i < j < |at| ==> at[i] < at[j])
    && (forall i :: 0 <= i < |at| ==> at[i] < limit)
  }

  /** `kept` holds the entries of `all` for which `stays` holds, each once and in order; `at`
      tells where they were. */
  ghost predicate Selects(kept: Archive, all: Archive, stays: StoredEntry -> bool, at: seq<nat>) {
    && |at| == |kept| && Increasing(at, |all|)
    && (forall i :: 0 <= i < |kept| ==> kept[i] == all[at[i]])
    && (forall j: nat :: j < |all| ==> (j in at <==> stays(all[j])))
  }

  function NotNamed(inner: string): StoredEntry -> bool {
    (e: StoredEntry) => SafeName(e) != inner
  }

  function Outside(inner: string): StoredEntry -> bool {
    (e: StoredEntry) => !AtOrBelow(e, inner)
  }

  ghost predicate KeepsOthers(kept: Archive, all: Archive, inner: string) {
    exists at :: Selects(kept, all, NotNamed(inner), at)
  }

  /** The archive ends with the new file and its bytes, behind everything else that was there. */
  ghost predicate FileAdded(before: Archive, after: Archive, inner: string, data: seq<int>) {
    && after != [] && after[|after| - 1] == StoredEntry(inner, data, true)
    && KeepsOthers(after[..|after| - 1], before, inner)
  }

  /** No other entry has the name of the new file. */
  ghost predicate OnlyNamed(after: Archive, inner: string) {
    && after != [] && SafeName(after[|after| - 1]) == inner
    && forall i :: 0 <= i < |after| - 1 ==> SafeName(after[i]) != inner
  }

  ghost predicate DirectoryAdded(before: Archive, after: Archive, inner: string) {
    && |after| == |before| + 1 && after[..|before|] == before
    && var e := after[|before|];
       e.raw != [] && e.raw[|e.raw| - 1] == '/' && Trim(e.raw) == Trim(inner) && e.safe && e.data == []
  }

  /** `e` is the named entry, or lies in the directory of that name. */
  predicate AtOrBelow(e: StoredEntry, inner: string) {
    Trim(SafeName(e)) == Trim(inner) || Trim(inner) + "/" <= SafeName(e)
  }

  ghost predicate SubtreeRemoved(before: Archive, after: Archive, inner: string) {
    exists at :: Selects(after, before, Outside(inner), at)
  }

  ghost predicate AllSafe(a: Archive) {
    forall e :: e in a ==> e.safe
  }

  ghost predicate HasFile(a: Archive, inner: string) {
    exists e :: e in a && SafeName(e) == inner
  }

  ghost predicate HasEntry(a: Archive, inner: string) {
    exists e :: e in a && Trim(SafeName(e)) == Trim(inner)
  }

  ghost predicate HasBelow(a: Archive, inner: string) {
    exists e :: e in a && Trim(inner) + "/" <= SafeName(e)
  }

  /** When a rewrite is possible, in terms of the names that are stored. */
  ghost predicate Possible(a: Archive, rewrite: Rewrite) {
    AllSafe(a)
    && match rewrite
       case AddFile(inner, _, overwrite) => overwrite || !HasFile(a, inner)
       case AddDirectory(inner) => !HasEntry(a, inner)
       case Remove(inner, recursive) => (HasEntry(a, inner) || HasBelow(a, inner)) && (recursive || !HasBelow(a, inner))
  }

  /** The error of an impossible rewrite of an archive whose names are safe. */
  function Refusal(rewrite: Rewrite, hasBelow: bool): Error {
    match rewrite
    case AddFile(_, _, _) => AlreadyExists
    case AddDirectory(_) => AlreadyExists
    case Remove(_, recursive) => if hasBelow && !recursive then NotEmpty else NotFound
  }

  lemma {:induction false} FilterSelects(a: Archive, stays: StoredEntry -> bool) returns (at: seq<nat>)
    ensures Selects(Filter(a, stays), a, stays, at)
  {
    if a == [] {
      at := [];
    } else {
      var init, last := a[..|a| - 1], a[|a| - 1];
      at := FilterSelects(init, stays);
      assert a == init + [last];
      if stays(last) {
        at := at + [|init|];
        assert at[|at| - 1] == |init|;
      }
    }
  }

  lemma {:induction false} SelectsAlike(kept: Archive, all: Archive, f: StoredEntry -> bool, g: StoredEntry -> bool, at: seq<nat>)
    requires Selects(kept, all, f, at) && forall e :: f(e) == g(e)
    ensures Selects(kept, all, g, at)
  {
  }

  lemma {:induction false} AddedFileIsLast(a: Archive, inner: string, data: seq<int>, overwrite: bool)
    ensures FileAdded(a, Rewritten(a, AddFile(inner, data, overwrite)), inner, data)
  {
    var rewrite := AddFile(inner, data, overwrite);
    var after := Rewritten(a, rewrite);
    var at := FilterSelects(a, Stays(rewrite));
    assert after[..|after| - 1] == Kept(a, rewrite);
    SelectsAlike(Kept(a, rewrite), a, Stays(rewrite), NotNamed(inner), at);
  }

  lemma {:induction false} AddedNameIsUnique(a: Archive, inner: string, data: seq<int>, overwrite: bool)
    requires inner != [] && inner[|inner| - 1] != '/'
    ensures OnlyNamed(Rewritten(a, AddFile(inner, data, overwrite)), inner)
  {
    var kept := Kept(a, AddFile(inner, data, overwrite));
    KeptMembers(a, AddFile(inner, data, overwrite));
    forall i | 0 <= i < |kept|
      ensures SafeName(kept[i]) != inner
    {
      assert kept[i] in kept;
    }
  }

  lemma {:induction false} AddedDirectoryIsLast(a: Archive, inner: string)
    ensures DirectoryAdded(a, Rewritten(a, AddDirectory(inner)), inner)
  {
    KeptAll(a, AddDirectory(inner));
    TrimSlash(inner);
  }

  lemma {:induction false} TrimSlash(inner: string)
    ensures Trim(inner + "/") == Trim(inner)
  {
    assert (inner + "/")[..|inner|] == inner;
  }

  lemma {:induction false} RemovedIsSelection(a: Archive, inner: string, recursive: bool)
    ensures SubtreeRemoved(a, Rewritten(a, Remove(inner, recursive)), inner)
  {
    var rewrite := Remove(inner, recursive);
    var at := FilterSelects(a, Stays(rewrite));
    assert Rewritten(a, rewrite) == Kept(a, rewrite);
    SelectsAlike(Kept(a, rewrite), a, Stays(rewrite), Outside(inner), at);
  }

  lemma {:induction false} PermittedMeansPossible(a: Archive, rewrite: Rewrite)
    ensures Permitted(a, rewrite) <==> Possible(a, rewrite)
  {
    match rewrite
    case AddFile(inner, _, overwrite) =>
    case AddDirectory(inner) =>
    case Remove(inner, recursive) =>
  }

  function BlockError(rewrite: Rewrite, e: StoredEntry): Error {
    if !e.safe then Unsafe else if rewrite.Remove? then NotEmpty else AlreadyExists
  }

  ghost predicate BlockedWith(a: Archive, rewrite: Rewrite, error: Error) {
    exists e :: e in a && Blocks(rewrite, e) && error == BlockError(rewrite, e)
  }

  lemma {:induction false} BlockedPrefix(s: Archive, i: nat, rewrite: Rewrite)
    requires i < |s| && Blocks(rewrite, s[i])
    ensures !Passes(s, rewrite) && BlockedWith(s, rewrite, BlockError(rewrite, s[i]))
    ensures BlockError(rewrite, s[i]) != Cancelled
  {
    assert s[i] in s;
  }

  lemma {:induction false} BlockedRefusal(a: Archive, rewrite: Rewrite, error: Error)
    requires BlockedWith(a, rewrite, error)
    ensures AllSafe(a) ==> error == Refusal(rewrite, rewrite.Remove? && HasBelow(a, rewrite.inner))
  {
  }

  lemma {:induction false} RewrittenMeans(a: Archive, rewrite: Rewrite)
    ensures var after := Rewritten(a, rewrite);
            && (rewrite.AddFile? ==> FileAdded(a, after, rewrite.inner, rewrite.data))
            && (rewrite.AddFile? && rewrite.inner != [] && rewrite.inner[|rewrite.inner| - 1] != '/' ==>
                  OnlyNamed(after, rewrite.inner))
            && (rewrite.AddDirectory? ==> DirectoryAdded(a, after, rewrite.inner))
            && (rewrite.Remove? ==> SubtreeRemoved(a, after, rewrite.inner))
  {
    match rewrite
    case AddFile(inner, data, overwrite) =>
      AddedFileIsLast(a, inner, data, overwrite);
      if inner != [] && inner[|inner| - 1] != '/' {
        AddedNameIsUnique(a, inner, data, overwrite);
      }
    case AddDirectory(inner) => AddedDirectoryIsLast(a, inner);
    case Remove(inner, recursive) => RemovedIsSelection(a, inner, recursive);
  }

  class ZipFile {
    var entries: Archive

    constructor (entries: Archive)
      ensures this.entries == entries
    {
      this.entries := entries;
    }

    /** Copies what stays to the replacement. `cancelled(i)` is the token read before entry `i`. */
    method CopyEntries(rewrite: Rewrite, cancelled: nat -> bool) returns (r: Outcome, replacement: Archive, matched: bool)
      ensures r.Done? ==> Passes(entries, rewrite) && replacement == Kept(entries, rewrite)
                          && (matched <==> Matches(entries, rewrite))
      ensures r.Rejected? && r.error == Cancelled ==> exists i: nat :: cancelled(i)
      ensures r.Rejected? && r.error != Cancelled ==> !Passes(entries, rewrite) && BlockedWith(entries, rewrite, r.error)
    {
      replacement, matched := [], false;
      assert entries[..0] == [];
      for i := 0 to |entries|
        invariant Passes(entries[..i], rewrite) && replacement == Kept(entries[..i], rewrite)
        invariant matched <==> Matches(entries[..i], rewrite)
      {
        if cancelled(i) {
          return Rejected(Cancelled), replacement, matched;
        }
        var e := entries[i];
        NextEntry(entries, i, rewrite);
        if Blocks(rewrite, e) {
          BlockedPrefix(entries, i, rewrite);
          return Rejected(BlockError(rewrite, e)), replacement, matched;
        }
        if Skips(rewrite, e) {
          matched := true;
        } else {
          replacement := replacement + [e];
        }
      }
      assert entries[..|entries|] == entries;
      return Done, replacement, matched;
    }

    /** Either the whole rewrite takes place, or the archive stays as it was. The token is read
        once more before the replacement is put in place. */
    method Apply(rewrite: Rewrite, cancelled: nat -> bool) returns (r: Outcome)
      modifies this
      ensures r.Rejected? ==> entries == old(entries)
      ensures r.Done? ==> Possible(old(entries), rewrite) && entries == Rewritten(old(entries), rewrite)
      ensures r.Rejected? && r.error != Cancelled ==> !Possible(entries, rewrite)
      ensures r.Rejected? && r.error == Cancelled ==> exists i: nat :: cancelled(i)
      ensures r.Rejected? && r.error != Cancelled && AllSafe(entries) ==>
                r.error == Refusal(rewrite, rewrite.Remove? && HasBelow(entries, rewrite.inner))
      ensures r.Done? && rewrite.AddFile? ==> FileAdded(old(entries), entries, rewrite.inner, rewrite.data)
      ensures r.Done? && rewrite.AddFile? && rewrite.inner != [] && rewrite.inner[|rewrite.inner| - 1] != '/' ==>
                OnlyNamed(entries, rewrite.inner)
      ensures r.Done? && rewrite.AddDirectory? ==> DirectoryAdded(old(entries), entries, rewrite.inner)
      ensures r.Done? && rewrite.Remove? ==> SubtreeRemoved(old(entries), entries, rewrite.inner)
    {
      ghost var before := entries;
      PermittedMeansPossible(entries, rewrite);
      var replacement, matched;
      r, replacement, matched := CopyEntries(rewrite, cancelled);
      if r.Rejected? {
        if r.error != Cancelled {
          BlockedRefusal(entries, rewrite, r.error);
        }
        return;
      }
      if rewrite.Remove? && !matched {
        return Rejected(NotFound);
      }
      if cancelled(|entries|) {
        return Rejected(Cancelled);
      }
      entries := replacement + Added(rewrite);
      RewrittenMeans(before, rewrite);
    }
  }

  lemma {:induction false} FilterMembers(a: Archive, stays: StoredEntry -> bool)
    ensures forall e :: e in Filter(a, stays) <==> e in a && stays(e)
  {
    if a != [] {
      FilterMembers(a[..|a| - 1], stays);
      assert a == a[..|a| - 1] + [a[|a| - 1]];
    }
  }

  lemma {:induction false} KeptMembers(a: Archive, rewrite: Rewrite)
    ensures forall e :: e in Kept(a, rewrite) <==> e in a && !Skips(rewrite, e)
  {
    FilterMembers(a, Stays(rewrite));
  }

  lemma {:induction false} KeptAll(a: Archive, rewrite: Rewrite)
    requires !Matches(a, rewrite)
    ensures Kept(a, rewrite) == a
  {
    if a != [] {
      var init, last := a[..|a| - 1], a[|a| - 1];
      assert a == init + [last];
      OneMore(init, last, rewrite);
      KeptAll(init, rewrite);
    }
  }

  lemma {:induction false} FilterConcat(a: Archive, b: Archive, stays: StoredEntry -> bool)
    ensures Filter(a + b, stays) == Filter(a, stays) + Filter(b, stays)
  {
    if b == [] {
      assert a + b == a;
    } else {
      var init, last := b[..|b| - 1], b[|b| - 1];
      FilterConcat(a, init, stays);
      FilterNext(a + init, last, stays);
      assert a + b == a + init + [last];
    }
  }

  lemma {:induction false} KeptConcat(a: Archive, b: Archive, rewrite: Rewrite)
    ensures Kept(a + b, rewrite) == Kept(a, rewrite) + Kept(b, rewrite)
  {
    FilterConcat(a, b, Stays(rewrite));
  }

  /** Nothing is stored at or below `inner`. */
  ghost predicate Vacant(a: Archive, inner: string) {
    forall e :: e in a ==> !Exact(SafeName(e), inner) && !Below(SafeName(e), inner)
  }

  /** A file name as callers give it: without a trailing slash. */
  predicate FileName(inner: string) {
    inner != [] && inner[|inner| - 1] != '/'
  }

  lemma {:induction false} NameNotBelowItself(inner: string)
    requires FileName(inner)
    ensures Trim(inner) == inner && !Below(inner, inner) && Exact(inner, inner)
  {
  }

  lemma {:induction false} TrimOfName(e: StoredEntry)
    ensures Trim(SafeName(e)) == SafeName(e)
  {
    var n := SafeName(e);
    assert n == [] || n[|n| - 1] != '/';
  }

  /** Adding a file and removing it again, not recursively, gives back the archive exactly
      when nothing was stored at or below its name. */
  lemma {:induction false} AddThenRemoveIff(a: Archive, inner: string, data: seq<int>, overwrite: bool)
    requires FileName(inner) && forall e :: e in a ==> e.safe
    ensures var add, remove := AddFile(inner, data, overwrite), Remove(inner, false);
            Permitted(a, add) && Permitted(Rewritten(a, add), remove) && Rewritten(Rewritten(a, add), remove) == a
            <==> Vacant(a, inner)
  {
    if Vacant(a, inner) {
      VacantRoundTrip(a, inner, data, overwrite);
    } else {
      OccupiedNoRoundTrip(a, inner, data, overwrite);
    }
  }

  lemma {:induction false} AddThenRemove(a: Archive, inner: string, data: seq<int>, overwrite: bool)
    requires FileName(inner)
    ensures var add, remove := AddFile(inner, data, overwrite), Remove(inner, false);
            && Rewritten(Rewritten(a, add), remove) == Kept(Kept(a, add), remove)
            && Matches(Rewritten(a, add), remove)
            && (Passes(Kept(a, add), remove) ==> Passes(Rewritten(a, add), remove))
  {
    var add, remove := AddFile(inner, data, overwrite), Remove(inner, false);
    var file := StoredEntry(inner, data, true);
    NameNotBelowItself(inner);
    OneMore(Kept(a, add), file, remove);
    assert Skips(remove, file);
  }

  lemma {:induction false} VacantRoundTrip(a: Archive, inner: string, data: seq<int>, overwrite: bool)
    requires FileName(inner) && Vacant(a, inner) && forall e :: e in a ==> e.safe
    ensures var add, remove := AddFile(inner, data, overwrite), Remove(inner, false);
            Permitted(a, add) && Permitted(Rewritten(a, add), remove) && Rewritten(Rewritten(a, add), remove) == a
  {
    var add, remove := AddFile(inner, data, overwrite), Remove(inner, false);
    forall e | e in a
      ensures !Skips(add, e) && !Skips(remove, e) && !Blocks(add, e) && !Blocks(remove, e)
    {
      VacantEntry(e, inner, data, overwrite);
    }
    KeptAll(a, add);
    KeptAll(a, remove);
    AddThenRemove(a, inner, data, overwrite);
  }

  lemma {:induction false} VacantEntry(e: StoredEntry, inner: string, data: seq<int>, overwrite: bool)
    requires FileName(inner) && e.safe && !Exact(SafeName(e), inner) && !Below(SafeName(e), inner)
    ensures var add, remove := AddFile(inner, data, overwrite), Remove(inner, false);
            !Skips(add, e) && !Skips(remove, e) && !Blocks(add, e) && !Blocks(remove, e)
  {
    NameNotBelowItself(inner);
    TrimOfName(e);
  }

  lemma {:induction false} OccupiedNoRoundTrip(a: Archive, inner: string, data: seq<int>, overwrite: bool)
    requires FileName(inner) && !Vacant(a, inner)
    ensures var add, remove := AddFile(inner, data, overwrite), Remove(inner, false);
            !(Permitted(a, add) && Permitted(Rewritten(a, add), remove) && Rewritten(Rewritten(a, add), remove) == a)
  {
    var add, remove := AddFile(inner, data, overwrite), Remove(inner, false);
    AddThenRemove(a, inner, data, overwrite);
    NameNotBelowItself(inner);
    KeptMembers(a, add);
    KeptMembers(Kept(a, add), remove);
    var e :| e in a && (Exact(SafeName(e), inner) || Below(SafeName(e), inner));
    TrimOfName(e);
    if SafeName(e) == inner {
      assert e !in Kept(Kept(a, add), remove);
    } else {
      assert e in Rewritten(a, add) && Blocks(remove, e);
    }
  }

  /** A rewrite touches no entry that it does not name. */
  lemma {:induction false} OthersUntouched(a: Archive, rewrite: Rewrite, e: StoredEntry)
    requires Permitted(a, rewrite) && e in a
    ensures e !in Added(rewrite) ==> (e in Rewritten(a, rewrite) <==> !Skips(rewrite, e))
  {
    KeptMembers(a, rewrite);
  }

  /** Only the entry that is named goes; what is before and after it stays where it was. */
  lemma {:induction false} OnlyTheNamedGoes(before: Archive, e: StoredEntry, after: Archive, rewrite: Rewrite)
    requires !Matches(before, rewrite) && !Matches(after, rewrite)
    ensures Rewritten(before + [e] + after, rewrite)
         == before + (if Skips(rewrite, e) then [] else [e]) + after + Added(rewrite)
  {
    KeptConcat(before + [e], after, rewrite);
    KeptConcat(before, [e], rewrite);
    KeptAll(before, rewrite);
    KeptAll(after, rewrite);
    OneMore([], e, rewrite);
    assert [] + [e] == [e];
  }
}
