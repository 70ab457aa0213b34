/** The push loops shared by the planners: pages in order, each page back to front. */
module StackWalk {
  import opened FileTree

  /** `stack` with one entry per name, the first name on top. */
  ghost function PushAll<T>(stack: seq<T>, names: seq<Name>, make: Name -> T): seq<T> {
    if names == [] then stack else PushAll(stack, names[1..], make) + [make(names[0])]
  }

  lemma {:induction false} Associate<T>(a: seq<T>, b: seq<T>, c: seq<T>)
    ensures a + (b + c) == a + b + c
  {
  }

  lemma {:induction false} VisitOrderAppend(pages: seq<seq<Name>>, page: seq<Name>)
    ensures VisitOrder(pages + [page]) == page + VisitOrder(pages)
  {
    if pages == [] {
      assert VisitOrder([page]) == VisitOrder([]) + page;
    } else {
      assert (pages + [page])[1..] == pages[1..] + [page];
      VisitOrderAppend(pages[1..], page);
    }
  }

  lemma {:induction false} PushAllConcat<T>(stack: seq<T>, page: seq<Name>, older: seq<Name>, make: Name -> T)
    ensures PushAll(stack, page + older, make) == PushAll(PushAll(stack, older, make), page, make)
  {
    if page == [] {
      assert page + older == older;
    } else {
      PushAllConcat(stack, page[1..], older, make);
      assert (page + older)[1..] == page[1..] + older;
    }
  }

  method PushPage<T>(stack: seq<T>, page: seq<Name>, make: Name -> T) returns (pushed: seq<T>)
    ensures pushed == PushAll(stack, page, make)
  {
    pushed := stack;
    for j := |page| downto 0
      invariant pushed == PushAll(stack, page[j..], make)
    {
      assert page[j..][1..] == page[j + 1..];
      pushed := pushed + [make(page[j])];
    }
  }

  method PushChildren<T>(stack: seq<T>, pages: seq<seq<Name>>, make: Name -> T) returns (pushed: seq<T>)
    ensures pushed == PushAll(stack, VisitOrder(pages), make)
  {
    pushed := stack;
    for k := 0 to |pages|
      invariant pushed == PushAll(stack, VisitOrder(pages[..k]), make)
    {
      PushAllConcat(stack, pages[k], VisitOrder(pages[..k]), make);
      pushed := PushPage(pushed, pages[k], make);
      assert pages[..k + 1] == pages[..k] + [pages[k]];
      VisitOrderAppend(pages[..k], pages[k]);
    }
    assert pages[..|pages|] == pages;
  }
}
