/** The file namespace that the operation planner walks.

A path is a sequence of names whose first name is the provider, so one map holds the
namespaces of every provider and a transfer between two providers is a transfer between
two subtrees. A provider enumerates a directory in any order and in any split into pages. */
module FileTree {
  type Name = string
  type Path = seq<Name>

  datatype Node = File(content: seq<int>) | Directory | Link(target: Path)
  datatype Kind = FileKind | DirectoryKind | SymlinkKind

  type Fs = map<Path, Node>
  type Listing = Path -> seq<seq<Name>>

  function KindOf(n: Node): Kind {
    match n
    case File(_) => FileKind
    case Directory => DirectoryKind
    case Link(_) => SymlinkKind
  }

  function Parent(p: Path): Path
    requires p != []
  {
    p[..|p| - 1]
  }

  function LastName(p: Path): Name
    requires p != []
  {
    p[|p| - 1]
  }

  /** Every entry other than the top sits in a directory. */
  ghost predicate WellFormed(fs: Fs) {
    forall p {:trigger Parent(p)} :: p in fs && p != [] ==> Parent(p) in fs && fs[Parent(p)].Directory?
  }

  /** The entries at or below `root`. */
  ghost function Tree(fs: Fs, root: Path): set<Path> {
    set p | p in fs && root <= p
  }

  lemma {:induction false} AncestorsAreDirectories(fs: Fs, a: Path, p: Path)
    requires WellFormed(fs) && p in fs && a <= p
    ensures a in fs && (a != p ==> fs[a].Directory?)
    decreases |p|
  {
    if a != p {
      assert a <= Parent(p);
      AncestorsAreDirectories(fs, a, Parent(p));
    }
  }

  lemma {:induction false} PrefixesCompare(a: Path, b: Path, q: Path)
    requires a <= q && b <= q
    ensures a <= b || b <= a
  {
    if |a| <= |b| {
      assert a == q[..|a|] == b[..|a|];
    }
  }

  /** The order in which a walk visits children. Each page is pushed back to front on the
      stack, so the last page ends up on top. */
  function VisitOrder(pages: seq<seq<Name>>): seq<Name> {
    if pages == [] then [] else VisitOrder(pages[1..]) + pages[0]
  }

  ghost predicate NoDuplicates<T(!new)>(s: seq<T>) {
    forall i, j :: 0 <= i < j < |s| ==> s[i] != s[j]
  }

  /** `names` enumerates the children of `p`, each once. */
  ghost predicate Enumerates(fs: Fs, p: Path, names: seq<Name>) {
    NoDuplicates(names) && forall n :: n in names <==> p + [n] in fs
  }

  /** The listing reports every child of every directory exactly once. */
  ghost predicate Lists(fs: Fs, listing: Listing) {
    forall p {:trigger listing(p)} :: p in fs && fs[p].Directory? ==> Enumerates(fs, p, VisitOrder(listing(p)))
  }

  ghost function Height(fs: Fs): (h: nat)
    ensures forall p :: p in fs ==> |p| <= h
  {
    if fs == map[] then 0 else
      var p :| p in fs;
      var h := Height(fs - {p});
      assert forall q :: q in fs && q != p ==> q in fs - {p};
      if |p| > h then |p| else h
  }

  /** Walks the tree at `p` without following links, each directory before its children
      (`post` false) or after them (`post` true). */
  ghost function Walk(fs: Fs, listing: Listing, post: bool, p: Path): seq<Path>
    requires Lists(fs, listing) && p in fs
    decreases Height(fs) - |p|, 1, 0
  {
    if !fs[p].Directory? then [p]
    else
      var below := WalkChildren(fs, listing, post, p, VisitOrder(listing(p)));
      if post then below + [p] else [p] + below
  }

  ghost function WalkChildren(fs: Fs, listing: Listing, post: bool, p: Path, names: seq<Name>): seq<Path>
    requires Lists(fs, listing) && p in fs
    requires forall n :: n in names ==> p + [n] in fs
    decreases Height(fs) - |p|, 0, |names|
  {
    if names == [] then []
    else Walk(fs, listing, post, p + [names[0]]) + WalkChildren(fs, listing, post, p, names[1..])
  }

  /** A walk reaches exactly the entries at or below its root, each once. */
  lemma {:induction false} WalkCoversTree(fs: Fs, listing: Listing, post: bool, p: Path)
    requires WellFormed(fs) && Lists(fs, listing) && p in fs
    ensures forall q :: q in Walk(fs, listing, post, p) <==> q in Tree(fs, p)
    ensures NoDuplicates(Walk(fs, listing, post, p))
    decreases Height(fs) - |p|, 1, 0
  {
    if fs[p].Directory? {
      var names := VisitOrder(listing(p));
      WalkChildrenCover(fs, listing, post, p, names);
      forall q | q in Tree(fs, p) && q != p
        ensures q in WalkChildren(fs, listing, post, p, names)
      {
        assert p + [q[|p|]] <= q;
        AncestorsAreDirectories(fs, p + [q[|p|]], q);
      }
    } else {
      forall q | q in Tree(fs, p)
        ensures q == p
      {
        AncestorsAreDirectories(fs, p, q);
      }
    }
  }

  /** `q` lies at or below the child of `p` called `n`. */
  ghost predicate Through(p: Path, n: Name, q: Path) {
    |p| < |q| && p == q[..|p|] && q[|p|] == n
  }

  lemma {:induction false} ThroughIsBelowChild(p: Path, n: Name, q: Path)
    ensures Through(p, n, q) <==> p + [n] <= q
  {
    if p + [n] <= q {
      assert q[..|p| + 1] == p + [n];
      assert q[..|p|] == q[..|p| + 1][..|p|];
      assert q[|p|] == q[..|p| + 1][|p|];
    }
  }

  lemma {:induction false} WalkChildrenCover(fs: Fs, listing: Listing, post: bool, p: Path, names: seq<Name>)
    requires WellFormed(fs) && Lists(fs, listing) && p in fs
    requires forall n :: n in names ==> p + [n] in fs
    requires NoDuplicates(names)
    ensures forall q :: q in WalkChildren(fs, listing, post, p, names) <==>
                          q in fs && p < q && q[|p|] in names
    ensures NoDuplicates(WalkChildren(fs, listing, post, p, names))
    decreases Height(fs) - |p|, 0, |names|
  {
    if names != [] {
      var n := names[0];
      WalkCoversTree(fs, listing, post, p + [n]);
      WalkChildrenCover(fs, listing, post, p, names[1..]);
      var first := Walk(fs, listing, post, p + [n]);
      var rest := WalkChildren(fs, listing, post, p, names[1..]);
      forall q
        ensures q in first <==> q in fs && Through(p, n, q)
      {
        ThroughIsBelowChild(p, n, q);
      }
      FirstAndRest(names);
      NoDuplicatesConcat(first, rest);
    }
  }

  lemma {:induction false} FirstAndRest(names: seq<Name>)
    requires names != [] && NoDuplicates(names)
    ensures names[0] !in names[1..]
    ensures forall n :: n in names <==> n == names[0] || n in names[1..]
  {
    assert names == [names[0]] + names[1..];
  }

  lemma {:induction false} NoDuplicatesConcat<T(!new)>(a: seq<T>, b: seq<T>)
    requires NoDuplicates(a) && NoDuplicates(b)
    requires forall x :: x in a ==> x !in b
    ensures NoDuplicates(a + b)
  {
    forall i, j | 0 <= i < j < |a + b|
      ensures (a + b)[i] != (a + b)[j]
    {
      if i < |a| <= j {
        assert a[i] in a && b[j - |a|] in b;
      }
    }
  }

  /** In a post-order sequence every entry below `s[i]` comes before `s[i]`. */
  ghost predicate ChildrenFirst(fs: Fs, s: seq<Path>) {
    forall i, q :: 0 <= i < |s| && q in fs && s[i] < q ==> q in s[..i]
  }

  /** In a pre-order sequence every entry of `s` other than `root` comes after its parent. */
  ghost predicate ParentsFirst(root: Path, s: seq<Path>) {
    forall i :: 0 <= i < |s| && s[i] != root ==> s[i] != [] && Parent(s[i]) in s[..i]
  }

  /** As `ParentsFirst`, for the walk of the entries strictly below `p`. */
  ghost predicate HangsFrom(p: Path, s: seq<Path>) {
    forall i :: 0 <= i < |s| ==> s[i] != [] && (Parent(s[i]) == p || Parent(s[i]) in s[..i])
  }

  lemma {:induction false} ChildrenFirstConcat(fs: Fs, a: seq<Path>, b: seq<Path>)
    requires ChildrenFirst(fs, a) && ChildrenFirst(fs, b)
    ensures ChildrenFirst(fs, a + b)
  {
    forall i, q | 0 <= i < |a + b| && q in fs && (a + b)[i] < q
      ensures q in (a + b)[..i]
    {
      if i < |a| {
        assert (a + b)[..i] == a[..i];
      } else {
        assert (a + b)[..i] == a + b[..i - |a|];
      }
    }
  }

  lemma {:induction false} PostOrderPutsChildrenFirst(fs: Fs, listing: Listing, p: Path)
    requires WellFormed(fs) && Lists(fs, listing) && p in fs
    ensures ChildrenFirst(fs, Walk(fs, listing, true, p))
    decreases Height(fs) - |p|, 1, 0
  {
    WalkCoversTree(fs, listing, true, p);
    var s := Walk(fs, listing, true, p);
    if fs[p].Directory? {
      var below := WalkChildren(fs, listing, true, p, VisitOrder(listing(p)));
      PostOrderChildren(fs, listing, p, VisitOrder(listing(p)));
      assert s == below + [p];
      forall i, q | 0 <= i < |s| && q in fs && s[i] < q
        ensures q in s[..i]
      {
        if i == |below| {
          assert q in Tree(fs, p) && q in s && s[..i] == below;
        } else {
          assert s[i] == below[i] && s[..i] == below[..i];
        }
      }
    } else {
      forall q | q in fs && p < q
        ensures false
      {
        AncestorsAreDirectories(fs, p, q);
      }
    }
  }

  lemma {:induction false} PostOrderChildren(fs: Fs, listing: Listing, p: Path, names: seq<Name>)
    requires WellFormed(fs) && Lists(fs, listing) && p in fs
    requires forall n :: n in names ==> p + [n] in fs
    ensures ChildrenFirst(fs, WalkChildren(fs, listing, true, p, names))
    decreases Height(fs) - |p|, 0, |names|
  {
    if names != [] {
      PostOrderPutsChildrenFirst(fs, listing, p + [names[0]]);
      PostOrderChildren(fs, listing, p, names[1..]);
      ChildrenFirstConcat(fs, Walk(fs, listing, true, p + [names[0]]),
                          WalkChildren(fs, listing, true, p, names[1..]));
    }
  }

  lemma {:induction false} PreOrderPutsParentsFirst(fs: Fs, listing: Listing, p: Path)
    requires WellFormed(fs) && Lists(fs, listing) && p in fs
    ensures Walk(fs, listing, false, p)[0] == p
    ensures ParentsFirst(p, Walk(fs, listing, false, p))
    decreases Height(fs) - |p|, 1, 0
  {
    if fs[p].Directory? {
      PreOrderChildren(fs, listing, p, VisitOrder(listing(p)));
      HangsBelow(p, WalkChildren(fs, listing, false, p, VisitOrder(listing(p))));
    }
  }

  lemma {:induction false} PreOrderChildren(fs: Fs, listing: Listing, p: Path, names: seq<Name>)
    requires WellFormed(fs) && Lists(fs, listing) && p in fs
    requires forall n :: n in names ==> p + [n] in fs
    ensures HangsFrom(p, WalkChildren(fs, listing, false, p, names))
    decreases Height(fs) - |p|, 0, |names|
  {
    if names != [] {
      var child := p + [names[0]];
      PreOrderPutsParentsFirst(fs, listing, child);
      PreOrderChildren(fs, listing, p, names[1..]);
      ParentsFirstHangs(child, p, Walk(fs, listing, false, child));
      HangsConcat(p, Walk(fs, listing, false, child), WalkChildren(fs, listing, false, p, names[1..]));
    }
  }

  lemma {:induction false} HangsBelow(p: Path, below: seq<Path>)
    requires HangsFrom(p, below)
    ensures ParentsFirst(p, [p] + below)
  {
    var s := [p] + below;
    forall i | 0 <= i < |s| && s[i] != p
      ensures s[i] != [] && Parent(s[i]) in s[..i]
    {
      assert s[i] == below[i - 1];
      assert s[..i] == [p] + below[..i - 1];
    }
  }

  lemma {:induction false} ParentsFirstHangs(child: Path, p: Path, s: seq<Path>)
    requires child != [] && Parent(child) == p && ParentsFirst(child, s)
    ensures HangsFrom(p, s)
  {
  }

  lemma {:induction false} HangsConcat(p: Path, a: seq<Path>, b: seq<Path>)
    requires HangsFrom(p, a) && HangsFrom(p, b)
    ensures HangsFrom(p, a + b)
  {
    var s := a + b;
    forall i | 0 <= i < |s|
      ensures s[i] != [] && (Parent(s[i]) == p || Parent(s[i]) in s[..i])
    {
      if i < |a| {
        assert s[..i] == a[..i];
      } else {
        assert s[..i] == a + b[..i - |a|];
        assert s[i] == b[i - |a|];
      }
    }
  }
}
