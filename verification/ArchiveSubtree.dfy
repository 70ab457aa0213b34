/** Removal as text is removal of a subtree: the names that a rewrite compares are the
    segment paths of the directory tree. */
module ArchiveSubtree {
  import opened ArchiveTree
  import Rewrites = ArchiveRewrite

  lemma {:induction false} JoinEnds(p: Segments)
    requires Valid(p) && p != []
    ensures Join(p) != [] && Join(p)[|Join(p)| - 1] != '/'
    ensures Rewrites.Trim(Join(p)) == Join(p)
  {
    if |p| == 1 {
      assert Segment(p[0]);
      assert p[0][|p[0]| - 1] in p[0];
    } else {
      JoinEnds(p[1..]);
    }
  }

  lemma {:induction false} JoinInjective(p: Segments, q: Segments)
    requires Valid(p) && Valid(q) && Join(p) == Join(q)
    ensures p == q
  {
    if p != [] {
      JoinParts(p);
    }
    if q != [] {
      JoinParts(q);
    }
    if p != [] && q != [] {
      assert p == [p[0]] + p[1..] && q == [q[0]] + q[1..];
      if |p| > 1 {
        JoinInjective(p[1..], q[1..]);
      }
    }
  }

  /** A removal of `p` leaves out the entry stored at `q` exactly when `q` is `p` or lies
      below it, and is blocked by it exactly when it lies below and is not to be removed. */
  lemma {:induction false} RemovesSubtree(p: Segments, q: Segments, recursive: bool, e: Rewrites.StoredEntry)
    requires Valid(p) && Valid(q) && p != [] && q != [] && Rewrites.SafeName(e) == Join(q) && e.safe
    ensures Rewrites.Skips(Rewrites.Remove(Join(p), recursive), e) <==> p <= q
    ensures Rewrites.Blocks(Rewrites.Remove(Join(p), recursive), e) <==> p < q && !recursive
  {
    JoinEnds(p);
    JoinEnds(q);
    ExactIsSame(p, q);
    BelowIsBelow(p, q);
    assert p <= q <==> p == q || p < q;
  }

  lemma {:induction false} ExactIsSame(p: Segments, q: Segments)
    requires Valid(p) && Valid(q) && p != [] && q != []
    ensures Rewrites.Exact(Join(q), Join(p)) <==> p == q
  {
    JoinEnds(p);
    JoinEnds(q);
    if Join(p) == Join(q) {
      JoinInjective(p, q);
    }
  }

  lemma {:induction false} BelowIsBelow(p: Segments, q: Segments)
    requires Valid(p) && Valid(q) && p != [] && q != []
    ensures Rewrites.Below(Join(q), Join(p)) <==> p < q
  {
    JoinEnds(p);
    JoinEnds(q);
    StripIsSegments(p, q);
    var prefix, name := Join(p) + "/", Join(q);
    assert prefix == PrefixOf(Join(p));
    assert prefix[|prefix| - 1] == '/';
    assert prefix != name;
  }
}
