/** Allocation of physical pages from the free list (core/pmm.cc). */
module PhysicalPages {
  import opened LinkedList

  function Reverse<T>(s: seq<T>): (r: seq<T>)
    ensures |r| == |s|
    ensures forall i :: 0 <= i < |s| ==> r[i] == s[|s| - 1 - i]
  {
    seq(|s|, i requires 0 <= i < |s| => s[|s| - 1 - i])
  }

  lemma ReverseNext<T>(s: seq<T>, i: nat)
    requires i < |s|
    ensures Reverse(s[..i + 1]) == [s[i]] + Reverse(s[..i])
  {
  }

  lemma ReverseParts<T>(s: seq<T>, i: nat)
    requires i <= |s|
    ensures Reverse(Reverse(s[..i])) + s[i..] == s
  {
  }

  lemma ReverseHead<T>(s: seq<T>)
    requires s != []
    ensures Reverse(s) == Reverse(s[1..]) + [s[0]]
  {
  }

  class PageAllocator {
    const freelist: IntrusiveList

    ghost predicate Valid()
      reads freelist, freelist.nodes
    {
      freelist.Valid()
    }

    constructor (freelist: IntrusiveList)
      requires freelist.Valid()
      ensures this.freelist == freelist && Valid()
    {
      this.freelist := freelist;
    }

    /** alloc_phys_page_single; null is OUT_OF_MEMORY. */
    method AllocSingle() returns (page: Node?)
      requires Valid()
      modifies freelist, freelist.nodes
      ensures Valid()
      ensures old(freelist.nodes) == [] ==> page == null && freelist.nodes == []
      ensures old(freelist.nodes) != [] ==>
                page == old(freelist.nodes)[0] && freelist.nodes == old(freelist.nodes)[1..]
    {
      page := freelist.PopFront();
    }

    method FreeSingle(page: Node?)
      requires Valid() && page !in freelist.nodes
      modifies freelist, freelist.nodes, page
      ensures Valid()
      ensures freelist.nodes == old(freelist.nodes) + if page == null then [] else [page]
    {
      if page != null {
        freelist.PushBack(page);
      }
    }

    /** alloc_phys_pages: the first count free pages, last one first, or nothing at all.  What
        the caller's list held before is dropped. */
    method AllocPages(count: nat, pages: IntrusiveList) returns (ok: bool)
      requires Valid() && pages != freelist
      modifies freelist, pages, freelist.nodes
      ensures Valid() && pages.Valid()
      ensures ok <==> count <= |old(freelist.nodes)|
      ensures ok ==> pages.nodes == Reverse(old(freelist.nodes)[..count])
                     && freelist.nodes == old(freelist.nodes)[count..]
      ensures !ok ==> pages.nodes == [] && freelist.nodes == old(freelist.nodes)
    {
      ghost var was := freelist.nodes;
      pages.Reset();
      var i := 0;
      while i < count
        invariant i <= count && i <= |was|
        invariant Valid() && pages.Valid()
        invariant freelist.nodes == was[i..] && pages.nodes == Reverse(was[..i])
      {
        var empty := freelist.Empty();
        if empty {
          assert was[i..] == [] && was[..i] == was;
          ReverseParts(was, i);
          Rollback(pages, was);
          return false;
        }
        AllocStep(was, i);
        MoveToFront(freelist, pages);
        i := i + 1;
      }
      return true;
    }

    /** The failure path: everything taken goes back to the front. */
    method Rollback(pages: IntrusiveList, ghost was: seq<Node>)
      requires Valid() && pages.Valid() && pages != freelist && Distinct(was)
      requires Reverse(pages.nodes) + freelist.nodes == was
      modifies freelist, pages, was
      ensures Valid() && pages.Valid()
      ensures pages.nodes == [] && freelist.nodes == was
    {
      var empty := pages.Empty();
      while !empty
        invariant Valid() && pages.Valid() && (empty <==> pages.nodes == [])
        invariant Reverse(pages.nodes) + freelist.nodes == was
        decreases |pages.nodes|
      {
        RollbackStep(pages.nodes, freelist.nodes, was);
        MoveToFront(pages, freelist);
        empty := pages.Empty();
      }
    }

    /** free_phys_pages: the pages go to the end of the free list, in order. */
    method FreePages(pages: IntrusiveList)
      requires Valid() && pages.Valid() && pages != freelist
      requires forall x :: x in pages.nodes ==> x !in freelist.nodes
      modifies freelist, pages, freelist.nodes, pages.nodes
      ensures Valid() && pages.Valid()
      ensures pages.nodes == [] && freelist.nodes == old(freelist.nodes) + old(pages.nodes)
    {
      ghost var all := freelist.nodes + pages.nodes;
      DistinctSum(freelist.nodes, pages.nodes);
      var empty := pages.Empty();
      while !empty
        invariant Valid() && pages.Valid() && (empty <==> pages.nodes == [])
        invariant freelist.nodes + pages.nodes == all
        decreases |pages.nodes|
      {
        FreeStep(freelist.nodes, pages.nodes, old(freelist.nodes), old(pages.nodes));
        MoveToBack(pages, freelist);
        empty := pages.Empty();
      }
    }
  }

  /** to.push_front(from.pop_front()) */
  method MoveToFront(from: IntrusiveList, to: IntrusiveList)
    requires from != to && from.Valid() && to.Valid() && from.nodes != [] && Apart(from.nodes, to.nodes)
    modifies from, to, from.nodes, to.nodes
    ensures from.Valid() && to.Valid()
    ensures from.nodes == old(from.nodes)[1..] && to.nodes == [old(from.nodes)[0]] + old(to.nodes)
  {
    var node := from.PopFront();
    assert to.nodes == old(to.nodes);
    forall i | 0 <= i < |to.nodes|
      ensures unchanged(to.nodes[i])
    {
      assert to.nodes[i] in to.nodes;
      assert to.nodes[i] !in old(from.nodes);
    }
    label P:
    to.PushFront(node);
    forall i | 0 <= i < |from.nodes|
      ensures unchanged@P(from.nodes[i])
    {
      assert from.nodes[i] == old(from.nodes)[i + 1] && from.nodes[i] in old(from.nodes);
    }
  }

  /** to.push_back(from.pop_front()) */
  method MoveToBack(from: IntrusiveList, to: IntrusiveList)
    requires from != to && from.Valid() && to.Valid() && from.nodes != [] && Apart(from.nodes, to.nodes)
    modifies from, to, from.nodes, to.nodes
    ensures from.Valid() && to.Valid()
    ensures from.nodes == old(from.nodes)[1..] && to.nodes == old(to.nodes) + [old(from.nodes)[0]]
  {
    var node := from.PopFront();
    assert to.nodes == old(to.nodes);
    forall i | 0 <= i < |to.nodes|
      ensures unchanged(to.nodes[i])
    {
      assert to.nodes[i] in to.nodes;
      assert to.nodes[i] !in old(from.nodes);
    }
    label P:
    to.PushBack(node);
    forall i | 0 <= i < |from.nodes|
      ensures unchanged@P(from.nodes[i])
    {
      assert from.nodes[i] == old(from.nodes)[i + 1] && from.nodes[i] in old(from.nodes);
    }
  }

  lemma RollbackStep(pages: seq<Node>, free: seq<Node>, was: seq<Node>)
    requires pages != [] && Distinct(was) && Reverse(pages) + free == was
    ensures Reverse(pages[1..]) + ([pages[0]] + free) == was
    ensures Apart(pages, free)
    ensures forall i :: 0 <= i < |pages| ==> exists j :: 0 <= j < |was| && was[j] == pages[i]
    ensures forall i :: 0 <= i < |free| ==> exists j :: 0 <= j < |was| && was[j] == free[i]
  {
    ReverseHead(pages);
    MembersOfReverse(pages);
    MembersOfSum(Reverse(pages), free);
    assert forall i :: 0 <= i < |pages| ==> pages[i] in was;
    assert forall i :: 0 <= i < |free| ==> free[i] in was;
  }

  lemma FreeStep(free: seq<Node>, pages: seq<Node>, free0: seq<Node>, pages0: seq<Node>)
    requires pages != [] && Distinct(free0 + pages0) && free + pages == free0 + pages0
    ensures (free + [pages[0]]) + pages[1..] == free0 + pages0
    ensures Apart(pages, free)
    ensures forall i :: 0 <= i < |pages| ==> pages[i] in free0 || pages[i] in pages0
    ensures forall i :: 0 <= i < |free| ==> free[i] in free0 || free[i] in pages0
  {
    MembersOfSum(free, pages);
    MembersOfSum(free0, pages0);
    assert forall i :: 0 <= i < |pages| ==> pages[i] in pages;
    assert forall i :: 0 <= i < |free| ==> free[i] in free;
  }

  lemma AllocStep(was: seq<Node>, i: nat)
    requires i < |was| && Distinct(was)
    ensures was[i..][1..] == was[i + 1..]
    ensures [was[i..][0]] + Reverse(was[..i]) == Reverse(was[..i + 1])
    ensures Apart(was[i..], Reverse(was[..i]))
    ensures forall x :: x in was[i..] || x in Reverse(was[..i]) ==> x in was
  {
    ReverseNext(was, i);
    MembersOfReverse(was[..i]);
    assert was == was[..i] + was[i..];
    MembersOfSum(was[..i], was[i..]);
  }

  lemma DistinctSum(a: seq<Node>, b: seq<Node>)
    requires Distinct(a) && Distinct(b) && Apart(b, a)
    ensures Distinct(a + b)
  {
    forall i, j | 0 <= i < j < |a + b|
      ensures (a + b)[i] != (a + b)[j]
    {
      if i < |a| <= j {
        assert (a + b)[j] in b;
      }
    }
  }

  lemma MembersOfSum(a: seq<Node>, b: seq<Node>)
    ensures forall x :: x in a || x in b <==> x in a + b
    ensures Distinct(a + b) ==> forall x :: x in a ==> x !in b
  {
    if Distinct(a + b) {
      forall i, j | 0 <= i < |a| && 0 <= j < |b|
        ensures a[i] != b[j]
      {
        assert (a + b)[i] == a[i] && (a + b)[|a| + j] == b[j];
      }
    }
  }

  lemma MembersOfReverse<T>(s: seq<T>)
    ensures forall x :: x in s <==> x in Reverse(s)
  {
    forall i | 0 <= i < |s|
      ensures s[i] in Reverse(s)
    {
      assert Reverse(s)[|s| - 1 - i] == s[i];
    }
  }
}
