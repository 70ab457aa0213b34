/** A pane's listing: enumerate everything, filter, sort, then serve slices. */
module Listing {
  import Decimal

  datatype Option<T> = None | Some(value: T)
  datatype EntryKind = File | Directory | Symlink

  /** An entry summary. `details` stands for the fields that take no part in listing. */
  datatype Entry = Entry(id: nat, name: string, kind: EntryKind, size: Option<nat>, modified: Option<int>,
                         extension: Option<string>, hidden: bool, details: int)

  datatype Column = Extension | Size | Modified | Name
  datatype Descriptor = Descriptor(column: Column, descending: bool)

  /** The view options of a pane; `lower` is the case folding used for names. */
  datatype View = View(showHidden: bool, foldersFirst: bool, sort: seq<Descriptor>, lower: string -> string)

  // ------------------------------------------------------------- comparison

  function CompareInt(a: int, b: int): int {
    if a < b then -1 else if a == b then 0 else 1
  }

  function CompareString(a: string, b: string): int {
    if a == [] && b == [] then 0
    else if a == [] then -1
    else if b == [] then 1
    else if a[0] != b[0] then CompareInt(a[0] as int, b[0] as int)
    else CompareString(a[1..], b[1..])
  }

  /** An absent value sorts before every present one. */
  function CompareOption<T>(a: Option<T>, b: Option<T>, compare: (T, T) -> int): int {
    match (a, b)
    case (None, None) => 0
    case (None, Some(_)) => -1
    case (Some(_), None) => 1
    case (Some(x), Some(y)) => compare(x, y)
  }

  function CompareColumn(lower: string -> string, column: Column, a: Entry, b: Entry): int {
    match column
    case Extension => CompareOption(a.extension, b.extension, CompareString)
    case Size => CompareOption(a.size, b.size, (x: nat, y: nat) => CompareInt(x, y))
    case Modified => CompareOption(a.modified, b.modified, CompareInt)
    case Name => CompareString(lower(a.name), lower(b.name))
  }

  function CompareDescriptors(lower: string -> string, sort: seq<Descriptor>, a: Entry, b: Entry): int {
    if sort == [] then CompareString(a.name, b.name)
    else
      var c := CompareColumn(lower, sort[0].column, a, b);
      if c != 0 then (if sort[0].descending then -c else c)
      else CompareDescriptors(lower, sort[1..], a, b)
  }

  function Compare(view: View, a: Entry, b: Entry): int {
    if view.foldersFirst && a.kind.Directory? != b.kind.Directory? then (if a.kind.Directory? then -1 else 1)
    else CompareDescriptors(view.lower, view.sort, a, b)
  }

  /** The laws of a comparator, at one triple of results. */
  predicate Consistent(ab: int, ba: int, bc: int, ac: int) {
    ba == -ab && (ab <= 0 && bc <= 0 ==> ac <= 0 && (ac == 0 ==> ab == 0 && bc == 0))
  }

  lemma {:induction false} StringOrder(a: string, b: string, c: string)
    ensures Consistent(CompareString(a, b), CompareString(b, a), CompareString(b, c), CompareString(a, c))
    ensures CompareString(a, b) == 0 ==> a == b
    decreases |a| + |b| + |c|
  {
    if a != [] && b != [] && a[0] == b[0] {
      if c != [] && c[0] == b[0] {
        StringOrder(a[1..], b[1..], c[1..]);
      } else {
        StringOrder(a[1..], b[1..], []);
      }
      assert CompareString(a, b) == 0 ==> a == [a[0]] + a[1..] == b;
    }
  }

  lemma {:induction false} ColumnOrder(lower: string -> string, column: Column, a: Entry, b: Entry, c: Entry)
    ensures Consistent(CompareColumn(lower, column, a, b), CompareColumn(lower, column, b, a),
                       CompareColumn(lower, column, b, c), CompareColumn(lower, column, a, c))
  {
    match column
    case Extension =>
      if a.extension.Some? && b.extension.Some? {
        StringOrder(a.extension.value, b.extension.value, if c.extension.Some? then c.extension.value else "");
      }
    case Size =>
    case Modified =>
    case Name => StringOrder(lower(a.name), lower(b.name), lower(c.name));
  }

  lemma {:induction false} DescriptorOrder(lower: string -> string, sort: seq<Descriptor>, a: Entry, b: Entry, c: Entry)
    ensures Consistent(CompareDescriptors(lower, sort, a, b), CompareDescriptors(lower, sort, b, a),
                       CompareDescriptors(lower, sort, b, c), CompareDescriptors(lower, sort, a, c))
    ensures CompareDescriptors(lower, sort, a, b) == 0 ==> a.name == b.name
  {
    if sort == [] {
      StringOrder(a.name, b.name, c.name);
    } else {
      var column := sort[0].column;
      ColumnOrder(lower, column, a, b, c);
      ColumnOrder(lower, column, c, b, a);
      ColumnOrder(lower, column, b, a, c);
      ColumnOrder(lower, column, a, c, b);
      DescriptorOrder(lower, sort[1..], a, b, c);
    }
  }

  /** For every list of sort descriptors the comparator is a total order up to names. */
  lemma {:induction false} CompareIsTotalOrder(view: View, a: Entry, b: Entry, c: Entry)
    ensures Compare(view, b, a) == -Compare(view, a, b)
    ensures Compare(view, a, b) <= 0 && Compare(view, b, c) <= 0 ==> Compare(view, a, c) <= 0
    ensures Compare(view, a, b) == 0 ==> a.name == b.name
  {
    DescriptorOrder(view.lower, view.sort, a, b, c);
  }

  // ---------------------------------------------------------------- sorting

  ghost predicate Sorted(view: View, s: seq<Entry>) {
    forall i, j :: 0 <= i < j < |s| ==> Compare(view, s[i], s[j]) <= 0
  }

  ghost predicate DistinctNames(s: seq<Entry>) {
    forall i, j :: 0 <= i < j < |s| ==> s[i].name != s[j].name
  }

  /** `x` placed behind every entry that does not come after it. */
  function Insert(view: View, s: seq<Entry>, x: Entry): seq<Entry> {
    if s != [] && Compare(view, s[|s| - 1], x) > 0 then Insert(view, s[..|s| - 1], x) + [s[|s| - 1]]
    else s + [x]
  }

  function Sort(view: View, s: seq<Entry>): seq<Entry> {
    if s == [] then [] else Insert(view, Sort(view, s[..|s| - 1]), s[|s| - 1])
  }

  lemma {:induction false} InsertPermutes(view: View, s: seq<Entry>, x: Entry)
    ensures multiset(Insert(view, s, x)) == multiset(s) + multiset{x}
  {
    if s != [] && Compare(view, s[|s| - 1], x) > 0 {
      InsertPermutes(view, s[..|s| - 1], x);
      assert s == s[..|s| - 1] + [s[|s| - 1]];
    }
  }

  lemma {:induction false} SortedAppend(view: View, s: seq<Entry>, x: Entry)
    requires Sorted(view, s) && forall e :: e in s ==> Compare(view, e, x) <= 0
    ensures Sorted(view, s + [x])
  {
  }

  lemma {:induction false} InsertSorts(view: View, s: seq<Entry>, x: Entry)
    requires Sorted(view, s)
    ensures Sorted(view, Insert(view, s, x))
  {
    if s != [] {
      var init, last := s[..|s| - 1], s[|s| - 1];
      if Compare(view, last, x) > 0 {
        InsertSorts(view, init, x);
        InsertPermutes(view, init, x);
        CompareIsTotalOrder(view, last, x, last);
        var r := Insert(view, init, x);
        forall e | e in r
          ensures Compare(view, e, last) <= 0
        {
          assert e in multiset(r);
          assert e == x || e in multiset(init);
        }
        SortedAppend(view, r, last);
      } else {
        forall e | e in s
          ensures Compare(view, e, x) <= 0
        {
          CompareIsTotalOrder(view, e, last, x);
        }
        SortedAppend(view, s, x);
      }
    }
  }

  lemma {:induction false} SortSorts(view: View, s: seq<Entry>)
    ensures Sorted(view, Sort(view, s)) && multiset(Sort(view, s)) == multiset(s)
  {
    if s != [] {
      var init, last := s[..|s| - 1], s[|s| - 1];
      SortSorts(view, init);
      InsertSorts(view, Sort(view, init), last);
      InsertPermutes(view, Sort(view, init), last);
      assert s == init + [last];
    }
  }

  lemma {:induction false} HeadsEqual(view: View, s: seq<Entry>, t: seq<Entry>)
    requires s != [] && t != [] && multiset(s) == multiset(t) && DistinctNames(t) && Sorted(view, s) && Sorted(view, t)
    ensures s[0] == t[0]
  {
    assert s[0] in multiset(t) && t[0] in multiset(s);
    var i :| 0 <= i < |t| && t[i] == s[0];
    var j :| 0 <= j < |s| && s[j] == t[0];
    CompareIsTotalOrder(view, s[0], t[0], s[0]);
    assert Compare(view, s[0], t[0]) == 0 || i == 0 || j == 0;
  }

  lemma {:induction false} TailMultiset(s: seq<Entry>)
    requires s != []
    ensures multiset(s[1..]) == multiset(s) - multiset{s[0]}
  {
    assert s == [s[0]] + s[1..];
  }

  /** A set of entries with distinct names has one sorted arrangement. */
  lemma {:induction false} SortedUnique(view: View, s: seq<Entry>, t: seq<Entry>)
    requires multiset(s) == multiset(t) && DistinctNames(t) && Sorted(view, s) && Sorted(view, t)
    ensures s == t
  {
    assert |s| == |multiset(s)| == |multiset(t)| == |t|;
    if s != [] {
      HeadsEqual(view, s, t);
      TailMultiset(s);
      TailMultiset(t);
      SortedUnique(view, s[1..], t[1..]);
      assert s == [s[0]] + s[1..] == [t[0]] + t[1..] == t;
    }
  }

  // ------------------------------------------------------------ enumeration

  function Flatten(pages: seq<seq<Entry>>): seq<Entry> {
    if pages == [] then [] else Flatten(pages[..|pages| - 1]) + pages[|pages| - 1]
  }

  /** Follows the provider's pages to the last one. */
  method ListAll(pages: seq<seq<Entry>>) returns (entries: seq<Entry>)
    requires pages != []
    ensures entries == Flatten(pages)
  {
    entries := [];
    var token := 0;
    while true
      invariant token < |pages| && entries == Flatten(pages[..token])
      decreases |pages| - token
    {
      assert pages[..token + 1][..token] == pages[..token];
      entries := entries + pages[token];
      if token + 1 == |pages| {
        assert pages[..token + 1] == pages;
        return;
      }
      token := token + 1;
    }
  }

  function Visible(view: View, s: seq<Entry>): seq<Entry> {
    if s == [] then []
    else Visible(view, s[..|s| - 1])
           + if view.showHidden || !s[|s| - 1].hidden then [s[|s| - 1]] else []
  }

  function FullListing(view: View, enumerated: seq<Entry>): seq<Entry> {
    Sort(view, Visible(view, enumerated))
  }

  lemma {:induction false} VisibleMultiset(view: View, s: seq<Entry>)
    ensures forall e :: multiset(Visible(view, s))[e] == if view.showHidden || !e.hidden then multiset(s)[e] else 0
  {
    if s != [] {
      VisibleMultiset(view, s[..|s| - 1]);
      assert s == s[..|s| - 1] + [s[|s| - 1]];
    }
  }

  lemma {:induction false} VisibleDistinct(view: View, s: seq<Entry>)
    requires DistinctNames(s)
    ensures DistinctNames(Visible(view, s)) && forall e :: e in Visible(view, s) ==> e in s
  {
    if s != [] {
      var init, last := s[..|s| - 1], s[|s| - 1];
      VisibleDistinct(view, init);
      forall e | e in Visible(view, init)
        ensures e.name != last.name
      {
        var i :| 0 <= i < |init| && init[i] == e;
        assert s[i] == e;
      }
    }
  }

  lemma {:induction false} PermutedDistinct(s: seq<Entry>, t: seq<Entry>)
    requires multiset(s) == multiset(t) && DistinctNames(s)
    ensures DistinctNames(t)
  {
    forall i, j | 0 <= i < j < |t|
      ensures t[i].name != t[j].name
    {
      assert t[i] in multiset(s) && t[j] in multiset(s);
      var a :| 0 <= a < |s| && s[a] == t[i];
      var b :| 0 <= b < |s| && s[b] == t[j];
      if a == b {
        assert multiset(t)[t[i]] >= 2 by {
          assert t == t[..i] + [t[i]] + t[i + 1..j] + [t[j]] + t[j + 1..];
        }
        OccursOnce(s, a);
      }
    }
  }

  lemma {:induction false} OccursOnce(s: seq<Entry>, a: nat)
    requires DistinctNames(s) && a < |s|
    ensures multiset(s)[s[a]] == 1
  {
    assert s == s[..a] + [s[a]] + s[a + 1..];
    assert s[a] !in s[..a] && s[a] !in s[a + 1..];
  }

  /** The listing is the same for every enumeration order and every split into pages. */
  lemma {:induction false} CanonicalListing(view: View, pages: seq<seq<Entry>>, others: seq<seq<Entry>>)
    requires multiset(Flatten(pages)) == multiset(Flatten(others)) && DistinctNames(Flatten(pages))
    ensures FullListing(view, Flatten(pages)) == FullListing(view, Flatten(others))
    ensures Sorted(view, FullListing(view, Flatten(pages)))
    ensures forall e :: multiset(FullListing(view, Flatten(pages)))[e]
                          == if view.showHidden || !e.hidden then multiset(Flatten(pages))[e] else 0
  {
    var s, t := Visible(view, Flatten(pages)), Visible(view, Flatten(others));
    VisibleMultiset(view, Flatten(pages));
    VisibleMultiset(view, Flatten(others));
    assert multiset(s) == multiset(t);
    SortSorts(view, s);
    SortSorts(view, t);
    PermutedDistinct(Flatten(pages), Flatten(others));
    VisibleDistinct(view, Flatten(others));
    PermutedDistinct(t, Sort(view, t));
    SortedUnique(view, Sort(view, s), Sort(view, t));
  }

  // ----------------------------------------------------------------- paging

  datatype Page<T> = Page(entries: seq<T>, next: Option<string>) | BadToken

  /** One slice of `full`; the token is the decimal offset of the next slice. */
  function PageOf<T>(full: seq<T>, token: Option<string>, size: nat): Page<T> {
    var offset := if token.None? then Decimal.Value(0) else Decimal.Parse(token.value);
    if offset.Malformed? || offset.n > |full| then BadToken
    else
      var end := if offset.n + size < |full| then offset.n + size else |full|;
      Page(full[offset.n..end], if end < |full| then Some(Decimal.Print(end)) else None)
  }

  const LIST_PAGE_SIZE := 256

  /** Following the tokens from the first page gives back the whole listing, in order. */
  method FollowTokens<T>(full: seq<T>, size: nat) returns (all: seq<T>)
    requires size > 0 && |full| <= Decimal.USIZE_MAX
    ensures all == full
  {
    var page := PageOf(full, None, size);
    all := page.entries;
    ghost var end := |page.entries|;
    while page.next.Some?
      invariant page.Page? && end <= |full| && all == full[..end]
      invariant if page.next.Some? then end < |full| && page.next.value == Decimal.Print(end) else end == |full|
      decreases |full| - end
    {
      Decimal.ParsePrint(end);
      page := PageOf(full, page.next, size);
      all := all + page.entries;
      end := end + |page.entries|;
    }
  }
}
