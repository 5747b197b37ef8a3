/** The operations of PagePool, performed on the lists of pages themselves (core/pmm.cc). */
module PoolObjects {
  import opened LinkedList
  import opened PhysicalPages
  import opened PagePool

  /** The allocator, the callers' lists, the page database all their pages are from, and what was
      dropped by overwriting a list. */
  class Lists {
    const allocator: PageAllocator
    const lists: seq<IntrusiveList>
    ghost const pfndb: set<Node>
    ghost var dropped: seq<Node>

    constructor (allocator: PageAllocator, lists: seq<IntrusiveList>, ghost pfndb: set<Node>)
      requires allocator.Valid() && Separate(allocator.freelist, lists, pfndb)
      ensures this.allocator == allocator && this.lists == lists && this.pfndb == pfndb && dropped == [] && Valid()
    {
      this.allocator, this.lists, this.pfndb, dropped := allocator, lists, pfndb, [];
    }

    ghost predicate Valid()
      reads this, allocator.freelist, lists, pfndb
    {
      Separate(allocator.freelist, lists, pfndb)
    }

    ghost function Abs(): Pool<Node>
      reads this, allocator.freelist, lists
    {
      Pool(allocator.freelist.nodes, Contents(lists), dropped)
    }

    /** One operation of a run: the state becomes what Apply says. */
    method Perform(op: Op)
      requires Valid()
      modifies this, allocator.freelist, lists, pfndb
      ensures Valid() && Abs() == Apply(old(Abs()), op)
    {
      hide Separate, Moved, Contents;
      if op.list < |lists| {
        ApplyMoves(Abs(), op);
        hide Apply;
        dropped := dropped + if op.Alloc? then lists[op.list].nodes else [];
        PerformOn(op, lists[op.list]);
      }
    }

    /** The same for one list, which is all that changes besides the free list. */
    method PerformOn(op: Op, list: IntrusiveList)
      requires Valid() && op.list < |lists| && lists[op.list] == list
      modifies allocator.freelist, lists, pfndb
      ensures Valid()
      ensures (allocator.freelist.nodes, list.nodes) == Moved(old(allocator.freelist.nodes), old(list.nodes), op)
      ensures Contents(lists) == old(Contents(lists))[op.list := list.nodes]
    {
      hide Moved, Distinct, Circle;
      ghost var free, contents := allocator.freelist.nodes, Contents(lists);
      SeparateIn(allocator.freelist, lists, pfndb, op.list);
      Move(allocator, list, op);
      forall i | 0 <= i < |lists| && i != op.list
        ensures lists[i].Valid() && lists[i].nodes == contents[i]
      {
        assert old(lists[i].Valid()) && lists[i].nodes == old(lists[i].nodes);
        forall j | 0 <= j < |lists[i].nodes|
          ensures unchanged(lists[i].nodes[j])
        {
          assert lists[i].nodes[j] in lists[i].nodes;
        }
      }
      MovedApart(free, contents[op.list], op);
      StillApart(free, contents, pfndb, op.list, allocator.freelist.nodes, list.nodes);
      assert Contents(lists) == contents[op.list := list.nodes];
    }
  }

  /** What an operation makes of the free list and the list it is about. */
  function Moved<T>(free: seq<T>, pages: seq<T>, op: Op): (seq<T>, seq<T>) {
    match op
    case Alloc(_, count) =>
      if count <= |free| then (free[count..], Reverse(free[..count])) else (free, [])
    case AllocOne(_) =>
      if free == [] then (free, pages) else (free[1..], pages + [free[0]])
    case Free(_) => (free + pages, [])
    case FreeOne(_) =>
      if pages == [] then (free, pages) else (free + [pages[0]], pages[1..])
  }

  /** No page is in both lists, nor any that was in neither before. */
  lemma MovedApart(free: seq<Node>, pages: seq<Node>, op: Op)
    requires Apart(pages, free) && Distinct(free) && Distinct(pages)
    ensures var (free', pages') := Moved(free, pages, op);
      Apart(pages', free') && forall x :: x in free' || x in pages' ==> x in free || x in pages
  {
    match op
    case Alloc(_, count) =>
      if count <= |free| {
        assert free == free[..count] + free[count..];
        MembersOfReverse(free[..count]);
        MembersOfSum(free[..count], free[count..]);
      }
    case AllocOne(_) =>
    case Free(_) =>
    case FreeOne(_) =>
  }

  method Move(allocator: PageAllocator, list: IntrusiveList, op: Op)
    requires allocator.Valid() && list.Valid() && list != allocator.freelist && Apart(list.nodes, allocator.freelist.nodes)
    modifies allocator.freelist, allocator.freelist.nodes, list, list.nodes
    ensures allocator.Valid() && list.Valid()
    ensures (allocator.freelist.nodes, list.nodes) == Moved(old(allocator.freelist.nodes), old(list.nodes), op)
  {
    match op
    case Alloc(_, count) =>
      var ok := allocator.AllocPages(count, list);
    case AllocOne(_) =>
      TakeOne(allocator, list);
    case Free(_) =>
      allocator.FreePages(list);
    case FreeOne(_) =>
      GiveOne(allocator, list);
  }

  /** alloc_phys_page_single, the page kept at the end of a list. */
  method TakeOne(allocator: PageAllocator, list: IntrusiveList)
    requires allocator.Valid() && list.Valid() && list != allocator.freelist && Apart(list.nodes, allocator.freelist.nodes)
    modifies allocator.freelist, allocator.freelist.nodes, list, list.nodes
    ensures allocator.Valid() && list.Valid()
    ensures (allocator.freelist.nodes, list.nodes)
            == Moved(old(allocator.freelist.nodes), old(list.nodes), AllocOne(0))
  {
    var free := allocator.freelist;
    var page := allocator.AllocSingle();
    if page != null {
      forall i | 0 <= i < |list.nodes|
        ensures unchanged(list.nodes[i])
      {
        assert list.nodes[i] in list.nodes && list.nodes[i] !in old(free.nodes);
      }
      label P:
      list.PushBack(page);
      forall i | 0 <= i < |free.nodes|
        ensures unchanged@P(free.nodes[i])
      {
        assert free.nodes[i] == old(free.nodes)[i + 1] && free.nodes[i] in old(free.nodes);
      }
    }
  }

  /** free_phys_page_single of the first page of a list. */
  method GiveOne(allocator: PageAllocator, list: IntrusiveList)
    requires allocator.Valid() && list.Valid() && list != allocator.freelist && Apart(list.nodes, allocator.freelist.nodes)
    modifies allocator.freelist, allocator.freelist.nodes, list, list.nodes
    ensures allocator.Valid() && list.Valid()
    ensures (allocator.freelist.nodes, list.nodes)
            == Moved(old(allocator.freelist.nodes), old(list.nodes), FreeOne(0))
  {
    var free := allocator.freelist;
    var page := list.PopFront();
    forall i | 0 <= i < |free.nodes|
      ensures unchanged(free.nodes[i])
    {
      assert free.nodes[i] in free.nodes && free.nodes[i] !in old(list.nodes);
    }
    label P:
    allocator.FreeSingle(page);
    assert old(free.nodes) + [] == old(free.nodes);
    forall i | 0 <= i < |list.nodes|
      ensures unchanged@P(list.nodes[i])
    {
      assert page != null;
      assert list.nodes[i] == old(list.nodes)[i + 1] && list.nodes[i] in old(list.nodes);
    }
  }

  ghost function Contents(lists: seq<IntrusiveList>): (c: seq<seq<Node>>)
    reads lists
    ensures |c| == |lists| && forall i :: 0 <= i < |lists| ==> c[i] == lists[i].nodes
  {
    seq(|lists|, i requires 0 <= i < |lists| reads lists => lists[i].nodes)
  }

  /** Pages of the database, none in two lists. */
  predicate AllApart(free: seq<Node>, lists: seq<seq<Node>>, pfndb: set<Node>) {
    && (forall x :: x in free ==> x in pfndb)
    && (forall i :: 0 <= i < |lists| ==> Apart(lists[i], free) && forall x :: x in lists[i] ==> x in pfndb)
    && forall i, j :: 0 <= i < j < |lists| ==> Apart(lists[i], lists[j])
  }

  ghost predicate Separate(free: IntrusiveList, lists: seq<IntrusiveList>, pfndb: set<Node>)
    reads free, lists, pfndb
  {
    && AllApart(free.nodes, Contents(lists), pfndb)
    && free.Valid() && (forall i :: 0 <= i < |lists| ==> lists[i] != free && lists[i].Valid())
    && forall i, j :: 0 <= i < j < |lists| ==> lists[i] != lists[j]
  }

  lemma SeparateIn(free: IntrusiveList, lists: seq<IntrusiveList>, pfndb: set<Node>, k: nat)
    requires Separate(free, lists, pfndb) && k < |lists|
    ensures lists[k].Valid() && Distinct(free.nodes) && Distinct(lists[k].nodes)
    ensures Apart(lists[k].nodes, free.nodes)
    ensures forall i :: 0 <= i < |lists| && i != k ==>
              lists[i] != lists[k] && Apart(lists[i].nodes, lists[k].nodes) && Apart(lists[i].nodes, free.nodes)
  {
  }

  /** So it stays if one list and the free list exchange pages. */
  lemma StillApart(free: seq<Node>, lists: seq<seq<Node>>, pfndb: set<Node>, k: nat, free': seq<Node>, pages': seq<Node>)
    requires AllApart(free, lists, pfndb) && k < |lists| && Apart(pages', free')
    requires forall x :: x in free' || x in pages' ==> x in free || x in lists[k]
    ensures AllApart(free', lists[k := pages'], pfndb)
  {
  }

  lemma ApplyMoves<T>(p: Pool<T>, op: Op)
    requires op.list < |p.lists|
    ensures var (free, pages) := Moved(p.free, p.lists[op.list], op);
      Apply(p, op) == Pool(free, p.lists[op.list := pages], p.dropped + if op.Alloc? then p.lists[op.list] else [])
  {
  }
}
