/** What the order of a listing means to the person who looks at it. */
module ListingOrder {
  import opened Listing

  /** `a` is a prefix of `b`, or has the smaller character where they first differ. */
  ghost predicate TextAtMost(a: string, b: string) {
    a <= b || exists k :: FirstDifference(a, b, k) && a[k] < b[k]
  }

  ghost predicate FirstDifference(a: string, b: string, k: int) {
    0 <= k < |a| && k < |b| && a[..k] == b[..k] && a[k] != b[k]
  }

  lemma {:induction false} CompareMeansText(a: string, b: string)
    ensures CompareString(a, b) <= 0 <==> TextAtMost(a, b)
    ensures CompareString(a, b) == 0 <==> a == b
  {
    if a != [] && b != [] {
      if a[0] == b[0] {
        CompareMeansText(a[1..], b[1..]);
        SharedFirst(a, b);
      } else {
        FirstCharacterDiffers(a, b);
      }
    }
  }

  lemma {:induction false} FirstCharacterDiffers(a: string, b: string)
    requires a != [] && b != [] && a[0] != b[0]
    ensures TextAtMost(a, b) <==> a[0] < b[0]
  {
    assert FirstDifference(a, b, 0);
    forall k | 0 < k <= |a| && k <= |b|
      ensures a[..k] != b[..k]
    {
      assert a[..k][0] == a[0] && b[..k][0] == b[0];
    }
  }

  lemma {:induction false} DifferenceMoves(a: string, b: string, k: int)
    requires a != [] && b != [] && a[0] == b[0] && k > 0
    ensures FirstDifference(a, b, k) <==> FirstDifference(a[1..], b[1..], k - 1)
  {
    if k < |a| && k < |b| {
      assert a[..k] == [a[0]] + a[1..][..k - 1] && b[..k] == [b[0]] + b[1..][..k - 1];
      assert a[..k][1..] == a[1..][..k - 1] && b[..k][1..] == b[1..][..k - 1];
    }
  }

  lemma {:induction false} SharedFirst(a: string, b: string)
    requires a != [] && b != [] && a[0] == b[0]
    ensures TextAtMost(a, b) <==> TextAtMost(a[1..], b[1..])
    ensures a == b <==> a[1..] == b[1..]
  {
    assert a == [a[0]] + a[1..] && b == [b[0]] + b[1..];
    assert a <= b <==> a[1..] <= b[1..];
    if k :| FirstDifference(a, b, k) && a[k] < b[k] {
      DifferenceMoves(a, b, k);
      var j := k - 1;
      assert FirstDifference(a[1..], b[1..], j) && a[1..][j] < b[1..][j];
    }
    if j :| FirstDifference(a[1..], b[1..], j) && a[1..][j] < b[1..][j] {
      var k := j + 1;
      DifferenceMoves(a, b, k);
      assert FirstDifference(a, b, k) && a[k] < b[k];
    }
  }

  /** In one column `a` comes no later than `b`: an absent value is lowest, numbers and times
      count, and names are compared folded. */
  ghost predicate ColumnAtMost(lower: string -> string, column: Column, a: Entry, b: Entry) {
    match column
    case Extension => a.extension.None? || (b.extension.Some? && TextAtMost(a.extension.value, b.extension.value))
    case Size => a.size.None? || (b.size.Some? && a.size.value <= b.size.value)
    case Modified => a.modified.None? || (b.modified.Some? && a.modified.value <= b.modified.value)
    case Name => TextAtMost(lower(a.name), lower(b.name))
  }

  ghost predicate SameInColumn(lower: string -> string, column: Column, a: Entry, b: Entry) {
    match column
    case Extension => a.extension == b.extension
    case Size => a.size == b.size
    case Modified => a.modified == b.modified
    case Name => lower(a.name) == lower(b.name)
  }

  ghost predicate SameUpTo(lower: string -> string, sort: seq<Descriptor>, m: nat, a: Entry, b: Entry)
    requires m <= |sort|
  {
    forall k :: 0 <= k < m ==> SameInColumn(lower, sort[k].column, a, b)
  }

  /** Descriptor `m` puts `a` before `b`, or does not tell them apart. */
  ghost predicate DescriptorAllows(lower: string -> string, d: Descriptor, a: Entry, b: Entry) {
    if d.descending then ColumnAtMost(lower, d.column, b, a) else ColumnAtMost(lower, d.column, a, b)
  }

  /** The first descriptor that tells `a` and `b` apart puts `a` first; if none does, the plain
      name decides. */
  ghost predicate InOrder(lower: string -> string, sort: seq<Descriptor>, a: Entry, b: Entry) {
    && (forall m :: 0 <= m < |sort| && SameUpTo(lower, sort, m, a, b) ==> DescriptorAllows(lower, sort[m], a, b))
    && (SameUpTo(lower, sort, |sort|, a, b) ==> TextAtMost(a.name, b.name))
  }

  lemma {:induction false} CompareMeansColumn(lower: string -> string, column: Column, a: Entry, b: Entry)
    ensures CompareColumn(lower, column, a, b) <= 0 <==> ColumnAtMost(lower, column, a, b)
    ensures CompareColumn(lower, column, a, b) >= 0 <==> ColumnAtMost(lower, column, b, a)
    ensures CompareColumn(lower, column, a, b) == 0 <==> SameInColumn(lower, column, a, b)
  {
    ColumnOrder(lower, column, a, b, a);
    match column
    case Extension =>
      if a.extension.Some? && b.extension.Some? {
        CompareMeansText(a.extension.value, b.extension.value);
        CompareMeansText(b.extension.value, a.extension.value);
        StringOrder(a.extension.value, b.extension.value, a.extension.value);
      }
    case Size =>
    case Modified =>
    case Name =>
      CompareMeansText(lower(a.name), lower(b.name));
      CompareMeansText(lower(b.name), lower(a.name));
      StringOrder(lower(a.name), lower(b.name), lower(a.name));
  }

  lemma {:induction false} DescriptorsMeanOrder(lower: string -> string, sort: seq<Descriptor>, a: Entry, b: Entry)
    requires CompareDescriptors(lower, sort, a, b) <= 0
    ensures InOrder(lower, sort, a, b)
  {
    if sort == [] {
      CompareMeansText(a.name, b.name);
    } else {
      CompareMeansColumn(lower, sort[0].column, a, b);
      if CompareColumn(lower, sort[0].column, a, b) == 0 {
        DescriptorsMeanOrder(lower, sort[1..], a, b);
        LaterDescriptors(lower, sort, a, b);
      } else {
        FirstDecides(lower, sort, a, b);
      }
    }
  }

  lemma {:induction false} FirstDecides(lower: string -> string, sort: seq<Descriptor>, a: Entry, b: Entry)
    requires sort != [] && !SameInColumn(lower, sort[0].column, a, b) && DescriptorAllows(lower, sort[0], a, b)
    ensures InOrder(lower, sort, a, b)
  {
    forall m | 0 < m <= |sort|
      ensures !SameUpTo(lower, sort, m, a, b)
    {
      assert !SameInColumn(lower, sort[0].column, a, b);
    }
  }

  lemma {:induction false} LaterDescriptors(lower: string -> string, sort: seq<Descriptor>, a: Entry, b: Entry)
    requires sort != [] && SameInColumn(lower, sort[0].column, a, b) && DescriptorAllows(lower, sort[0], a, b)
    requires InOrder(lower, sort[1..], a, b)
    ensures InOrder(lower, sort, a, b)
  {
    forall m | 0 < m <= |sort| && SameUpTo(lower, sort, m, a, b)
      ensures SameUpTo(lower, sort[1..], m - 1, a, b)
    {
      forall k | 0 <= k < m - 1
        ensures SameInColumn(lower, sort[1..][k].column, a, b)
      {
        var j := k + 1;
        assert SameInColumn(lower, sort[j].column, a, b);
      }
    }
    forall m | 0 <= m < |sort| && SameUpTo(lower, sort, m, a, b)
      ensures DescriptorAllows(lower, sort[m], a, b)
    {
      if m > 0 {
        assert sort[1..][m - 1] == sort[m];
      }
    }
  }

  /** The rule that puts folders first tells `a` and `b` apart. */
  ghost predicate FoldersDiffer(view: View, a: Entry, b: Entry) {
    view.foldersFirst && a.kind.Directory? != b.kind.Directory?
  }

  /** With folders first no directory stands behind anything else; among the entries that this
      rule does not tell apart, the descriptors decide in turn, and at last the plain name. */
  lemma {:induction false} ListingIsOrdered(view: View, enumerated: seq<Entry>, i: nat, j: nat)
    requires i < j < |FullListing(view, enumerated)|
    ensures var a, b := FullListing(view, enumerated)[i], FullListing(view, enumerated)[j];
            if FoldersDiffer(view, a, b) then a.kind.Directory? && !b.kind.Directory?
            else InOrder(view.lower, view.sort, a, b)
  {
    var s := FullListing(view, enumerated);
    SortSorts(view, Visible(view, enumerated));
    assert Compare(view, s[i], s[j]) <= 0;
    if !FoldersDiffer(view, s[i], s[j]) {
      DescriptorsMeanOrder(view.lower, view.sort, s[i], s[j]);
    }
  }

  /** A single ascending or descending descriptor sorts the whole of what folders-first leaves
      together. */
  lemma {:induction false} FirstColumnIsMonotone(view: View, enumerated: seq<Entry>, i: nat, j: nat)
    requires i < j < |FullListing(view, enumerated)| && view.sort != []
    requires !FoldersDiffer(view, FullListing(view, enumerated)[i], FullListing(view, enumerated)[j])
    ensures var a, b, d := FullListing(view, enumerated)[i], FullListing(view, enumerated)[j], view.sort[0];
            if d.descending then ColumnAtMost(view.lower, d.column, b, a) else ColumnAtMost(view.lower, d.column, a, b)
  {
    ListingIsOrdered(view, enumerated, i, j);
    assert SameUpTo(view.lower, view.sort, 0, FullListing(view, enumerated)[i], FullListing(view, enumerated)[j]);
  }
}
