/** The directory tree of an archive, derived from the flat list of its stored paths. */
module ArchiveTree {
  datatype Option<T> = None | Some(value: T)

  datatype StoredPath = StoredPath(path: string, directory: bool, size: nat)
  datatype RawEntry = RawEntry(directory: bool, size: Option<nat>)
  datatype Child = Child(name: string, directory: bool)
  datatype Collected = Children(children: map<string, RawEntry>) | Conflicting

  // ------------------------------------------------------- slash-separated text

  predicate HasSlash(s: string) {
    '/' in s
  }

  /** The text before the first slash. */
  function Head(s: string): string {
    if s == [] || s[0] == '/' then [] else [s[0]] + Head(s[1..])
  }

  /** The text after the first slash. */
  function Tail(s: string): string {
    if s == [] then [] else if s[0] == '/' then s[1..] else Tail(s[1..])
  }

  predicate Segment(s: string) {
    s != [] && '/' !in s
  }

  type Segments = seq<string>

  predicate Valid(p: Segments) {
    forall i :: 0 <= i < |p| ==> Segment(p[i])
  }

  function Join(p: Segments): string {
    if p == [] then [] else if |p| == 1 then p[0] else p[0] + "/" + Join(p[1..])
  }

  lemma {:induction false} HeadOfJoined(s: string, t: string)
    requires '/' !in s
    ensures Head(s + "/" + t) == s && Tail(s + "/" + t) == t && HasSlash(s + "/" + t)
    ensures Head(s) == s
  {
    if s == [] {
      assert s + "/" + t == "/" + t;
    } else {
      HeadOfJoined(s[1..], t);
      assert (s + "/" + t)[1..] == s[1..] + "/" + t;
      assert s == [s[0]] + s[1..];
    }
    assert (s + "/" + t)[|s|] == '/';
  }

  lemma {:induction false} JoinParts(p: Segments)
    requires Valid(p) && p != []
    ensures Head(Join(p)) == p[0] && (HasSlash(Join(p)) <==> |p| > 1)
    ensures |p| > 1 ==> Tail(Join(p)) == Join(p[1..])
    ensures Join(p) != []
  {
    assert Segment(p[0]);
    HeadOfJoined(p[0], Join(p[1..]));
  }

  /** A shared prefix up to and including a slash fixes the first segment. */
  lemma {:induction false} SlashPrefix(s: string, x: string, t: string)
    requires '/' !in s && s + "/" + x <= t
    ensures HasSlash(t) && Head(t) == s && x <= Tail(t)
  {
    if s == [] {
      assert s + "/" + x == "/" + x;
      assert t[0] == ("/" + x)[0];
      assert t[1..][..|x|] == t[..|x| + 1][1..] == x;
    } else {
      var whole := s + "/" + x;
      assert t[0] == whole[0] == s[0];
      assert whole[1..] == s[1..] + "/" + x;
      assert t[1..][..|whole| - 1] == t[..|whole|][1..];
      SlashPrefix(s[1..], x, t[1..]);
      assert s == [s[0]] + s[1..];
      assert t == [t[0]] + t[1..];
    }
  }

  function PrefixOf(requested: string): string {
    if requested == [] then [] else requested + "/"
  }

  /** For joined paths, stripping the requested directory as text is stripping its segments. */
  lemma {:induction false} StripIsSegments(r: Segments, p: Segments)
    requires Valid(r) && Valid(p)
    ensures PrefixOf(Join(r)) < Join(p) <==> r < p
    ensures r < p ==> Join(p)[|PrefixOf(Join(r))|..] == Join(p[|r|..])
  {
    if r == [] {
      if p != [] {
        JoinParts(p);
      }
      assert p[0..] == p;
    } else {
      JoinParts(r);
      var a := r[0];
      assert Segment(a);
      var inner := PrefixOf(Join(r[1..]));
      assert PrefixOf(Join(r)) == a + "/" + inner by {
        if |r| == 1 {
          assert Join(r[1..]) == [];
        } else {
          assert Valid(r[1..]);
          JoinParts(r[1..]);
        }
      }
      if p != [] {
        JoinParts(p);
        StripIsSegments(r[1..], p[1..]);
        StripOne(a, inner, r, p);
      }
    }
  }

  lemma {:induction false} StripOne(a: string, inner: string, r: Segments, p: Segments)
    requires Valid(r) && Valid(p) && r != [] && p != [] && a == r[0]
    requires PrefixOf(Join(r)) == a + "/" + inner
    requires inner < Join(p[1..]) <==> r[1..] < p[1..]
    requires r[1..] < p[1..] ==> Join(p[1..])[|inner|..] == Join(p[1..][|r| - 1..])
    ensures PrefixOf(Join(r)) < Join(p) <==> r < p
    ensures r < p ==> Join(p)[|PrefixOf(Join(r))|..] == Join(p[|r|..])
  {
    var whole, text := a + "/" + inner, Join(p);
    JoinParts(p);
    assert Segment(a);
    assert r < p <==> r[0] == p[0] && r[1..] < p[1..] by {
      assert r == [r[0]] + r[1..] && p == [p[0]] + p[1..];
    }
    if whole < text {
      SlashPrefix(a, inner, text);
      assert text == p[0] + "/" + Join(p[1..]);
    }
    if r < p {
      assert |p| > 1;
      assert text == a + "/" + Join(p[1..]);
      assert text[..|whole|] == whole;
      assert text[|whole|..] == Join(p[1..])[|inner|..];
      assert p[1..][|r| - 1..] == p[|r|..];
    }
  }

  // --------------------------------------------------------------- collecting

  /** What one stored path contributes to the listing of `requested`. */
  function Contribution(e: StoredPath, requested: string): Option<Child> {
    var prefix := PrefixOf(requested);
    if !(prefix <= e.path) then None
    else
      var remainder := e.path[|prefix|..];
      if remainder == [] || Head(remainder) == [] then None
      else Some(Child(Head(remainder), HasSlash(remainder) || e.directory))
  }

  /** Entry `e` says that the listing has a child of this name and kind. */
  predicate Offers(e: StoredPath, requested: string, name: string, directory: bool) {
    Contribution(e, requested) == Some(Child(name, directory))
  }

  ghost predicate Offered(entries: seq<StoredPath>, requested: string, name: string, directory: bool) {
    exists i :: 0 <= i < |entries| && Offers(entries[i], requested, name, directory)
  }

  /** Two entries disagree about the kind of one child. */
  ghost predicate Disagree(entries: seq<StoredPath>, requested: string) {
    exists name :: Offered(entries, requested, name, true) && Offered(entries, requested, name, false)
  }

  /** The size of the first entry that offers `name` as a file. */
  function FirstSize(entries: seq<StoredPath>, requested: string, name: string): Option<nat> {
    if entries == [] then None
    else
      var before, e := FirstSize(entries[..|entries| - 1], requested, name), entries[|entries| - 1];
      if before.Some? then before else if Offers(e, requested, name, false) then Some(e.size) else None
  }

  /** The listing has `name` exactly if some entry offers it, and with the kind that every
      such entry gives it. Directories have no size. */
  ghost predicate ListsName(children: map<string, RawEntry>, entries: seq<StoredPath>, requested: string, name: string) {
    if name in children then
      && Offered(entries, requested, name, children[name].directory)
      && !Offered(entries, requested, name, !children[name].directory)
      && (if children[name].directory then children[name].size.None?
          else children[name].size == FirstSize(entries, requested, name))
    else !Offered(entries, requested, name, true) && !Offered(entries, requested, name, false)
  }

  ghost predicate ListsExactly(children: map<string, RawEntry>, entries: seq<StoredPath>, requested: string) {
    forall name :: ListsName(children, entries, requested, name)
  }

  lemma {:induction false} OfferedNext(entries: seq<StoredPath>, requested: string, i: nat, name: string, directory: bool)
    requires i < |entries|
    ensures Offered(entries[..i + 1], requested, name, directory)
            <==> Offered(entries[..i], requested, name, directory) || Offers(entries[i], requested, name, directory)
  {
    var a, b := entries[..i], entries[..i + 1];
    assert b == a + [entries[i]];
    if Offered(a, requested, name, directory) {
      var k :| 0 <= k < |a| && Offers(a[k], requested, name, directory);
      assert Offers(b[k], requested, name, directory);
    }
    if Offers(entries[i], requested, name, directory) {
      assert Offers(b[i], requested, name, directory);
    }
  }

  function RawOf(c: Child, e: StoredPath): RawEntry {
    RawEntry(c.directory, if c.directory then None else Some(e.size))
  }

  /** The children after entry `e`: the first entry of a name decides. */
  function WithEntry(children: map<string, RawEntry>, e: StoredPath, requested: string): map<string, RawEntry> {
    var c := Contribution(e, requested);
    if c.None? || c.value.name in children then children else children[c.value.name := RawOf(c.value, e)]
  }

  predicate Contradicts(children: map<string, RawEntry>, e: StoredPath, requested: string) {
    var c := Contribution(e, requested);
    c.Some? && c.value.name in children && children[c.value.name].directory != c.value.directory
  }

  lemma {:induction false} CollectStep(children: map<string, RawEntry>, entries: seq<StoredPath>, requested: string, i: nat)
    requires i < |entries| && ListsExactly(children, entries[..i], requested)
    requires !Contradicts(children, entries[i], requested)
    ensures ListsExactly(WithEntry(children, entries[i], requested), entries[..i + 1], requested)
  {
    var after, more := WithEntry(children, entries[i], requested), entries[..i + 1];
    forall name
      ensures ListsName(after, more, requested, name)
    {
      assert ListsName(children, entries[..i], requested, name);
      OfferedNext(entries, requested, i, name, true);
      OfferedNext(entries, requested, i, name, false);
      FirstSizeNext(entries, requested, i, name);
      SizeIfOffered(entries[..i], requested, name);
    }
  }

  lemma {:induction false} FirstSizeNext(entries: seq<StoredPath>, requested: string, i: nat, name: string)
    requires i < |entries|
    ensures var before := FirstSize(entries[..i], requested, name);
            FirstSize(entries[..i + 1], requested, name)
              == if before.Some? then before else if Offers(entries[i], requested, name, false) then Some(entries[i].size) else None
  {
    assert entries[..i + 1][..i] == entries[..i];
  }

  lemma {:induction false} SizeIfOffered(entries: seq<StoredPath>, requested: string, name: string)
    ensures FirstSize(entries, requested, name).Some? <==> Offered(entries, requested, name, false)
  {
    if entries != [] {
      var k := |entries| - 1;
      SizeIfOffered(entries[..k], requested, name);
      OfferedNext(entries, requested, k, name, false);
      assert entries[..k + 1] == entries;
    }
  }

  lemma {:induction false} ContradictionFound(children: map<string, RawEntry>, entries: seq<StoredPath>, requested: string, i: nat)
    requires i < |entries| && ListsExactly(children, entries[..i], requested)
    requires Contradicts(children, entries[i], requested)
    ensures Disagree(entries, requested)
  {
    var c := Contribution(entries[i], requested).value;
    assert ListsName(children, entries[..i], requested, c.name);
    var k :| 0 <= k < i && Offers(entries[..i][k], requested, c.name, !c.directory);
    assert Offers(entries[k], requested, c.name, !c.directory);
    assert Offers(entries[i], requested, c.name, c.directory);
    assert Offered(entries, requested, c.name, true) && Offered(entries, requested, c.name, false);
  }

  /** Collects the children of a directory. It fails exactly when two stored paths give one
      child different kinds. */
  method CollectChildren(entries: seq<StoredPath>, requested: string) returns (r: Collected)
    ensures r.Conflicting? <==> Disagree(entries, requested)
    ensures r.Children? ==> ListsExactly(r.children, entries, requested)
  {
    var children: map<string, RawEntry> := map[];
    for i := 0 to |entries|
      invariant ListsExactly(children, entries[..i], requested)
    {
      var c := Contribution(entries[i], requested);
      if Contradicts(children, entries[i], requested) {
        ContradictionFound(children, entries, requested, i);
        return Conflicting;
      }
      CollectStep(children, entries, requested, i);
      if c.Some? && c.value.name !in children {
        children := children[c.value.name := RawOf(c.value, entries[i])];
      }
    }
    assert entries[..|entries|] == entries;
    Agreement(children, entries, requested);
    return Children(children);
  }

  lemma {:induction false} Agreement(children: map<string, RawEntry>, entries: seq<StoredPath>, requested: string)
    requires ListsExactly(children, entries, requested)
    ensures !Disagree(entries, requested)
  {
    forall name
      ensures !(Offered(entries, requested, name, true) && Offered(entries, requested, name, false))
    {
      assert ListsName(children, entries, requested, name);
    }
  }

  // ------------------------------------------------------------ the whole tree

  /** A stored path by its segments. */
  datatype Item = Item(segments: Segments, directory: bool, size: nat)

  predicate WellStored(items: seq<Item>) {
    forall i :: 0 <= i < |items| ==> items[i].segments != [] && Valid(items[i].segments)
  }

  function Paths(items: seq<Item>): (paths: seq<StoredPath>)
    ensures |paths| == |items|
    ensures forall i :: 0 <= i < |items| ==>
              paths[i] == StoredPath(Join(items[i].segments), items[i].directory, items[i].size)
  {
    seq(|items|, i requires 0 <= i < |items| => StoredPath(Join(items[i].segments), items[i].directory, items[i].size))
  }

  ghost predicate FileAt(items: seq<Item>, p: Segments) {
    exists i :: 0 <= i < |items| && items[i].segments == p && !items[i].directory
  }

  /** `p` is stored as a directory or implied by something stored below it. */
  ghost predicate DirectoryAt(items: seq<Item>, p: Segments) {
    exists i :: 0 <= i < |items| && (p < items[i].segments || (items[i].segments == p && items[i].directory))
  }

  /** Item `e` makes `p` a node of this kind. */
  predicate Makes(e: Item, p: Segments, directory: bool) {
    if p < e.segments then directory else e.segments == p && directory == e.directory
  }

  lemma {:induction false} ContributionBySegments(e: Item, r: Segments, name: string, directory: bool)
    requires e.segments != [] && Valid(e.segments) && Valid(r)
    ensures Offers(StoredPath(Join(e.segments), e.directory, e.size), Join(r), name, directory)
            <==> Segment(name) && Makes(e, r + [name], directory)
  {
    if r < e.segments {
      ContributionBelow(e, r, name, directory);
    } else {
      ContributionElsewhere(e, r, name, directory);
    }
  }

  lemma {:induction false} ContributionBelow(e: Item, r: Segments, name: string, directory: bool)
    requires Valid(e.segments) && Valid(r) && r < e.segments
    ensures Offers(StoredPath(Join(e.segments), e.directory, e.size), Join(r), name, directory)
            <==> Segment(name) && Makes(e, r + [name], directory)
  {
    var p := e.segments;
    StripIsSegments(r, p);
    var rest := p[|r|..];
    assert Valid(rest) && Segment(rest[0]);
    JoinParts(rest);
    assert Contribution(StoredPath(Join(p), e.directory, e.size), Join(r))
        == Some(Child(rest[0], |rest| > 1 || e.directory));
    assert p == r + rest;
    FirstBelow(r, rest, name);
  }

  lemma {:induction false} FirstBelow(r: Segments, rest: Segments, name: string)
    requires rest != []
    ensures r + [name] <= r + rest <==> name == rest[0]
    ensures r + [name] == r + rest <==> name == rest[0] && |rest| == 1
  {
    var p := r + rest;
    assert p[|r|] == rest[0];
    assert (r + [name])[|r|] == name;
    if name == rest[0] {
      assert p[..|r| + 1] == r + [name];
      assert |rest| == 1 ==> rest == [name];
    }
  }

  lemma {:induction false} ContributionElsewhere(e: Item, r: Segments, name: string, directory: bool)
    requires e.segments != [] && Valid(e.segments) && Valid(r) && !(r < e.segments)
    ensures !Offers(StoredPath(Join(e.segments), e.directory, e.size), Join(r), name, directory)
    ensures !Makes(e, r + [name], directory)
  {
    var p := e.segments;
    StripIsSegments(r, p);
    var prefix := PrefixOf(Join(r));
    assert prefix <= Join(p) ==> prefix == Join(p);
    assert r < r + [name];
  }

  lemma {:induction false} OfferedBySegments(items: seq<Item>, r: Segments, name: string)
    requires WellStored(items) && Valid(r)
    ensures Offered(Paths(items), Join(r), name, true) <==> Segment(name) && DirectoryAt(items, r + [name])
    ensures Offered(Paths(items), Join(r), name, false) <==> Segment(name) && FileAt(items, r + [name])
  {
    var paths := Paths(items);
    forall i, directory | 0 <= i < |items|
      ensures Offers(paths[i], Join(r), name, directory) <==> Segment(name) && Makes(items[i], r + [name], directory)
    {
      ContributionBySegments(items[i], r, name, directory);
    }
  }

  /** A directory's listing fails exactly when one of its children is stored as a file and
      is also a directory. */
  lemma {:induction false} ListingFailsIff(items: seq<Item>, r: Segments)
    requires WellStored(items) && Valid(r)
    ensures Disagree(Paths(items), Join(r))
            <==> exists name :: Segment(name) && FileAt(items, r + [name]) && DirectoryAt(items, r + [name])
  {
    forall name
      ensures Offered(Paths(items), Join(r), name, true) && Offered(Paths(items), Join(r), name, false)
              <==> Segment(name) && FileAt(items, r + [name]) && DirectoryAt(items, r + [name])
    {
      OfferedBySegments(items, r, name);
    }
  }

  /** A stored path, or an ancestor of one. */
  ghost predicate NodeAt(items: seq<Item>, p: Segments) {
    FileAt(items, p) || DirectoryAt(items, p)
  }

  /** One path is both a file and a directory. */
  ghost predicate Clash(items: seq<Item>, p: Segments) {
    FileAt(items, p) && DirectoryAt(items, p)
  }

  function Depth(items: seq<Item>): (d: nat)
    ensures forall i :: 0 <= i < |items| ==> |items[i].segments| <= d
  {
    if items == [] then 0
    else
      var d, last := Depth(items[..|items| - 1]), |items[|items| - 1].segments|;
      if last > d then last else d
  }

  /** The way down from `r` to a node leads through a child of `r`, which is a directory
      unless it is the node itself. */
  lemma {:induction false} ThroughChild(items: seq<Item>, r: Segments, p: Segments)
    requires WellStored(items) && r < p && NodeAt(items, p)
    ensures var q := r + [p[|r|]];
            q <= p && Segment(p[|r|]) && NodeAt(items, q) && (q != p ==> DirectoryAt(items, q)) && |p| <= Depth(items)
  {
    var q := r + [p[|r|]];
    assert p[..|r| + 1] == q;
    var i :| 0 <= i < |items| && p <= items[i].segments;
    assert items[i].segments[|r|] == p[|r|];
    assert Segment(items[i].segments[|r|]);
    assert q != p ==> q < items[i].segments;
  }

  datatype Node = Node(path: Segments, directory: bool)

  /** `nodes` lists, each once, the nodes below `r` that lie under a child named in `names`. */
  ghost predicate Enumerated(items: seq<Item>, r: Segments, names: set<string>, nodes: seq<Node>) {
    && (forall k :: 0 <= k < |nodes| ==>
          && r < nodes[k].path && nodes[k].path[|r|] in names && NodeAt(items, nodes[k].path)
          && (nodes[k].directory <==> DirectoryAt(items, nodes[k].path)))
    && (forall p :: r < p && p[|r|] in names && NodeAt(items, p) ==> Node(p, DirectoryAt(items, p)) in nodes)
    && (forall j, k :: 0 <= j < k < |nodes| ==> nodes[j].path != nodes[k].path)
  }

  /** All nodes below `r`, each once. */
  ghost predicate Complete(items: seq<Item>, r: Segments, nodes: seq<Node>) {
    && (forall k :: 0 <= k < |nodes| ==>
          r < nodes[k].path && NodeAt(items, nodes[k].path)
          && (nodes[k].directory <==> DirectoryAt(items, nodes[k].path)))
    && (forall p :: r < p && NodeAt(items, p) ==> Node(p, DirectoryAt(items, p)) in nodes)
    && (forall j, k :: 0 <= j < k < |nodes| ==> nodes[j].path != nodes[k].path)
  }

  lemma {:induction false} AddSubtree(items: seq<Item>, r: Segments, names: set<string>, nodes: seq<Node>, n: string, below: seq<Node>)
    requires WellStored(items) && n !in names && NodeAt(items, r + [n])
    requires Enumerated(items, r, names, nodes)
    requires if DirectoryAt(items, r + [n]) then Complete(items, r + [n], below) else below == []
    ensures Enumerated(items, r, names + {n}, nodes + [Node(r + [n], DirectoryAt(items, r + [n]))] + below)
  {
    var q := r + [n];
    var self := Node(q, DirectoryAt(items, q));
    var all := nodes + [self] + below;
    forall k | 0 <= k < |below|
      ensures r < below[k].path && below[k].path[|r|] == n
    {
      assert below[k].path[..|q|] == q;
      assert below[k].path[|r|] == q[|r|];
    }
    forall p | r < p && p[|r|] in names + {n} && NodeAt(items, p)
      ensures Node(p, DirectoryAt(items, p)) in all
    {
      ThroughChild(items, r, p);
      if p[|r|] in names {
        assert Node(p, DirectoryAt(items, p)) in nodes;
      } else if p == q {
        assert all[|nodes|] == self;
      } else {
        assert q < p;
        assert Node(p, DirectoryAt(items, p)) in below;
      }
    }
    assert r < q && q[|r|] == n;
    forall j, k | 0 <= j < k < |all|
      ensures all[j].path != all[k].path
    {
      if j < |nodes| <= k {
        assert all[j].path[|r|] in names;
        assert all[k].path[|r|] == n;
      }
    }
  }

  /** Lists a directory of the archive and everything below it. It fails exactly when some
      path below is both a file and a directory; otherwise it gives every stored path below
      and every implied ancestor, each once and with its kind. */
  method ListTree(items: seq<Item>, r: Segments) returns (ok: bool, nodes: seq<Node>)
    requires WellStored(items) && Valid(r)
    ensures ok <==> !exists p :: r < p && Clash(items, p)
    ensures ok ==> Complete(items, r, nodes)
    decreases if |r| <= Depth(items) then Depth(items) + 1 - |r| else 0
  {
    nodes := [];
    var collected := CollectChildren(Paths(items), Join(r));
    ListingFailsIff(items, r);
    if collected.Conflicting? {
      ghost var name :| Segment(name) && FileAt(items, r + [name]) && DirectoryAt(items, r + [name]);
      assert r < r + [name] && Clash(items, r + [name]);
      return false, [];
    }
    var children := collected.children;
    ghost var names: set<string> := {};
    var todo := children.Keys;
    while todo != {}
      invariant names !! todo && names + todo == children.Keys
      invariant Enumerated(items, r, names, nodes)
      invariant forall p :: r < p && p[|r|] in names ==> !Clash(items, p)
      decreases todo
    {
      var n :| n in todo;
      ChildKnown(items, r, children, n);
      var below := [];
      if children[n].directory {
        var fine;
        fine, below := ListTree(items, r + [n]);
        if !fine {
          ghost var p :| r + [n] < p && Clash(items, p);
          assert r < p;
          return false, [];
        }
      }
      AddSubtree(items, r, names, nodes, n, below);
      NoClashUnder(items, r, n);
      nodes := nodes + [Node(r + [n], children[n].directory)] + below;
      names, todo := names + {n}, todo - {n};
    }
    AllChildren(items, r, children, names, nodes);
    return true, nodes;
  }

  /** What the listing says about a child is what the stored paths say. */
  lemma {:induction false} ChildKnown(items: seq<Item>, r: Segments, children: map<string, RawEntry>, n: string)
    requires WellStored(items) && Valid(r) && ListsExactly(children, Paths(items), Join(r)) && n in children
    ensures Segment(n) && Valid(r + [n]) && NodeAt(items, r + [n]) && !Clash(items, r + [n])
    ensures children[n].directory <==> DirectoryAt(items, r + [n])
    ensures |r| + 1 <= Depth(items)
  {
    assert ListsName(children, Paths(items), Join(r), n);
    OfferedBySegments(items, r, n);
    ThroughChild(items, r, r + [n]);
  }

  lemma {:induction false} NoClashUnder(items: seq<Item>, r: Segments, n: string)
    requires WellStored(items) && !Clash(items, r + [n])
    requires DirectoryAt(items, r + [n]) ==> forall p :: r + [n] < p ==> !Clash(items, p)
    ensures forall p :: r < p && p[|r|] == n ==> !Clash(items, p)
  {
    forall p | r < p && p[|r|] == n
      ensures !Clash(items, p)
    {
      if NodeAt(items, p) {
        ThroughChild(items, r, p);
      }
    }
  }

  lemma {:induction false} AllChildren(items: seq<Item>, r: Segments, children: map<string, RawEntry>, names: set<string>, nodes: seq<Node>)
    requires WellStored(items) && Valid(r) && ListsExactly(children, Paths(items), Join(r)) && names == children.Keys
    requires Enumerated(items, r, names, nodes)
    requires forall p :: r < p && p[|r|] in names ==> !Clash(items, p)
    ensures Complete(items, r, nodes) && forall p :: r < p ==> !Clash(items, p)
  {
    forall p | r < p && NodeAt(items, p)
      ensures p[|r|] in names
    {
      ThroughChild(items, r, p);
      OfferedBySegments(items, r, p[|r|]);
      assert ListsName(children, Paths(items), Join(r), p[|r|]);
    }
  }

  /** The order in which paths are stored does not matter. */
  lemma {:induction false} StoredOrderIrrelevant(items: seq<Item>, others: seq<Item>, r: Segments, nodes: seq<Node>, more: seq<Node>)
    requires forall e :: e in items <==> e in others
    requires Complete(items, r, nodes) && Complete(others, r, more)
    ensures forall n :: n in nodes <==> n in more
  {
    forall p
      ensures FileAt(items, p) <==> FileAt(others, p)
      ensures DirectoryAt(items, p) <==> DirectoryAt(others, p)
    {
      SameItems(items, others, p);
      SameItems(others, items, p);
    }
    forall n | n in nodes
      ensures n in more
    {
      assert n == Node(n.path, DirectoryAt(others, n.path));
    }
    forall n | n in more
      ensures n in nodes
    {
      assert n == Node(n.path, DirectoryAt(items, n.path));
    }
  }

  lemma {:induction false} SameItems(items: seq<Item>, others: seq<Item>, p: Segments)
    requires forall e :: e in items ==> e in others
    ensures FileAt(items, p) ==> FileAt(others, p)
    ensures DirectoryAt(items, p) ==> DirectoryAt(others, p)
  {
    if FileAt(items, p) {
      var i :| 0 <= i < |items| && items[i].segments == p && !items[i].directory;
      assert items[i] in others;
    }
    if DirectoryAt(items, p) {
      var i :| 0 <= i < |items| && (p < items[i].segments || (items[i].segments == p && items[i].directory));
      assert items[i] in others;
    }
  }
}
