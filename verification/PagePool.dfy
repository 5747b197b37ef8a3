/** Any sequence of page allocations and frees by any number of callers: pages are neither
    made nor lost, except those a caller leaves in the list it allocates into
    (core/pmm.cc; loader/x86-64-multiboot2/mem.cc for the first two lists). */
module PagePool {
  import opened PhysicalPages

  /** The free list, the callers' lists, and the pages dropped by overwriting a list. */
  datatype Pool<T> = Pool(free: seq<T>, lists: seq<seq<T>>, dropped: seq<T>)

  datatype Op =
    | Alloc(list: nat, count: nat)  // alloc_phys_pages into a list
    | AllocOne(list: nat)           // alloc_phys_page_single, kept at the end of a list
    | Free(list: nat)               // free_phys_pages
    | FreeOne(list: nat)            // free_phys_page_single of the list's first page

  function Apply<T>(p: Pool<T>, op: Op): Pool<T> {
    if op.list >= |p.lists| then p
    else
      var l, pages := op.list, p.lists[op.list];
      match op
      case Alloc(_, count) =>
        if count <= |p.free| then
          Pool(p.free[count..], p.lists[l := Reverse(p.free[..count])], p.dropped + pages)
        else Pool(p.free, p.lists[l := []], p.dropped + pages)
      case AllocOne(_) =>
        if p.free == [] then p else Pool(p.free[1..], p.lists[l := pages + [p.free[0]]], p.dropped)
      case Free(_) => Pool(p.free + pages, p.lists[l := []], p.dropped)
      case FreeOne(_) =>
        if pages == [] then p else Pool(p.free + [pages[0]], p.lists[l := pages[1..]], p.dropped)
  }

  function Sum<T(==)>(lists: seq<seq<T>>): multiset<T> {
    if lists == [] then multiset{} else multiset(lists[0]) + Sum(lists[1..])
  }

  function Pages<T(==)>(p: Pool<T>): multiset<T> {
    multiset(p.free) + Sum(p.lists)
  }

  lemma {:induction false} SumUpdate<T>(lists: seq<seq<T>>, i: nat, x: seq<T>)
    requires i < |lists|
    ensures Sum(lists[i := x]) + multiset(lists[i]) == Sum(lists) + multiset(x)
  {
    if i == 0 {
      assert lists[0 := x][1..] == lists[1..];
    } else {
      assert lists[i := x][1..] == lists[1..][i - 1 := x];
      SumUpdate(lists[1..], i - 1, x);
      assert lists[i := x][0] == lists[0] && lists[1..][i - 1] == lists[i];
      calc {
        Sum(lists[i := x]) + multiset(lists[i]);
        multiset(lists[0]) + (Sum(lists[1..][i - 1 := x]) + multiset(lists[1..][i - 1]));
        multiset(lists[0]) + (Sum(lists[1..]) + multiset(x));
        Sum(lists) + multiset(x);
      }
    }
  }

  lemma {:induction false} ReverseSamePages<T>(s: seq<T>)
    ensures multiset(Reverse(s)) == multiset(s)
  {
    if s != [] {
      ReverseHead(s);
      ReverseSamePages(s[1..]);
      assert s == [s[0]] + s[1..];
    }
  }

  lemma SplitPages<T>(s: seq<T>, i: nat)
    requires i <= |s|
    ensures multiset(s[..i]) + multiset(s[i..]) == multiset(s)
  {
    assert s == s[..i] + s[i..];
  }

  /** Pages that leave one part of the pool and arrive in another. */
  lemma Balance<T>(p: Pool<T>, l: nat, free: seq<T>, pages: seq<T>, dropped: seq<T>)
    requires l < |p.lists|
    requires multiset(p.free) + multiset(p.lists[l]) + multiset(p.dropped)
             == multiset(free) + multiset(pages) + multiset(dropped)
    ensures Pages(Pool(free, p.lists[l := pages], dropped)) + multiset(dropped) == Pages(p) + multiset(p.dropped)
  {
    SumUpdate(p.lists, l, pages);
    var a, a', b, b', c, c' := multiset(p.free), multiset(free), multiset(p.lists[l]), multiset(pages),
                               multiset(p.dropped), multiset(dropped);
    var s, s' := Sum(p.lists), Sum(p.lists[l := pages]);
    calc {
      a' + s' + c' + b;
      a' + c' + (s' + b);
      a' + c' + (s + b');
      s + (a' + b' + c');
      s + (a + b + c);
      a + s + c + b;
    }
    Cancel(a' + s' + c', a + s + c, b);
  }

  lemma Cancel<T>(m: multiset<T>, n: multiset<T>, b: multiset<T>)
    requires m + b == n + b
    ensures m == n
  {
    assert m == m + b - b && n == n + b - b;
  }

  /** One operation keeps the pages, counting the dropped ones. */
  lemma ApplyKeepsPages<T>(p: Pool<T>, op: Op)
    ensures Pages(Apply(p, op)) + multiset(Apply(p, op).dropped) == Pages(p) + multiset(p.dropped)
    ensures Apply(p, op).dropped == p.dropped + Overwritten(p, op)
  {
    hide Sum, Pages;
    if op.list < |p.lists| {
      var l, pages := op.list, p.lists[op.list];
      match op
      case Alloc(_, count) =>
        if count <= |p.free| {
          SplitPages(p.free, count);
          ReverseSamePages(p.free[..count]);
          Balance(p, l, p.free[count..], Reverse(p.free[..count]), p.dropped + pages);
        } else {
          Balance(p, l, p.free, [], p.dropped + pages);
        }
      case AllocOne(_) =>
        if p.free != [] {
          assert p.free == [p.free[0]] + p.free[1..];
          Balance(p, l, p.free[1..], pages + [p.free[0]], p.dropped);
        }
      case Free(_) => Balance(p, l, p.free + pages, [], p.dropped);
      case FreeOne(_) =>
        if pages != [] {
          assert pages == [pages[0]] + pages[1..];
          Balance(p, l, p.free + [pages[0]], pages[1..], p.dropped);
        }
    }
  }

  /** What an operation drops: the old contents of a list that is allocated into. */
  function Overwritten<T>(p: Pool<T>, op: Op): seq<T> {
    if op.Alloc? && op.list < |p.lists| then p.lists[op.list] else []
  }

  function ApplyAll<T>(p: Pool<T>, ops: seq<Op>): Pool<T>
    decreases |ops|
  {
    if ops == [] then p else ApplyAll(Apply(p, ops[0]), ops[1..])
  }

  /** The run never allocates into a list that still holds pages. */
  predicate NeverOverwrites<T>(p: Pool<T>, ops: seq<Op>)
    decreases |ops|
  {
    ops == [] ||
    (Overwritten(p, ops[0]) == [] && NeverOverwrites(Apply(p, ops[0]), ops[1..]))
  }

  lemma {:induction false} DroppedGrows<T>(p: Pool<T>, ops: seq<Op>)
    ensures |ApplyAll(p, ops).dropped| >= |p.dropped|
    ensures |ApplyAll(p, ops).dropped| == |p.dropped| <==> NeverOverwrites(p, ops)
    decreases |ops|
  {
    if ops != [] {
      ApplyKeepsPages(p, ops[0]);
      DroppedGrows(Apply(p, ops[0]), ops[1..]);
    }
  }

  lemma {:induction false} RunKeepsPages<T>(p: Pool<T>, ops: seq<Op>)
    ensures Pages(ApplyAll(p, ops)) + multiset(ApplyAll(p, ops).dropped) == Pages(p) + multiset(p.dropped)
    decreases |ops|
  {
    if ops != [] {
      ApplyKeepsPages(p, ops[0]);
      RunKeepsPages(Apply(p, ops[0]), ops[1..]);
    }
  }

  /** The free list and the callers' lists hold the same pages as at the start, none twice that
      was not, exactly when no allocation overwrote a list with pages in it. */
  lemma PagesConserved<T>(p: Pool<T>, ops: seq<Op>)
    ensures Pages(ApplyAll(p, ops)) == Pages(p) <==> NeverOverwrites(p, ops)
  {
    var p' := ApplyAll(p, ops);
    RunKeepsPages(p, ops);
    DroppedGrows(p, ops);
    var a, b, c, d := Pages(p'), multiset(p'.dropped), Pages(p), multiset(p.dropped);
    assert |a| + |b| == |a + b| == |c + d| == |c| + |d|;
    if NeverOverwrites(p, ops) {
      SameDropped(p, ops);
      Cancel(a, c, b);
    }
  }

  lemma {:induction false} SameDropped<T>(p: Pool<T>, ops: seq<Op>)
    requires NeverOverwrites(p, ops)
    ensures ApplyAll(p, ops).dropped == p.dropped
    decreases |ops|
  {
    if ops != [] {
      ApplyKeepsPages(p, ops[0]);
      SameDropped(Apply(p, ops[0]), ops[1..]);
    }
  }
}
