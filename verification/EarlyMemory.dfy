/** Memory before the page lists exist: reserved ranges, the search for a contiguous run, and
    the first partition of all pages (loader/x86-64-multiboot2/mem.cc). */
module EarlyMemory {
  import opened Wrappers
  import opened LinkedList

  const WORD := 0x1_0000_0000_0000_0000
  const PAGE := 4096

  datatype Range = Range(begin: nat, end: nat)

  /** is_in takes its address as a 32-bit number. */
  predicate IsIn(address: nat, r: Range) {
    r.begin <= address % 0x1_0000_0000 < r.end
  }

  /** A range takes a page in if it holds the page's first address or the next page's. */
  predicate Flags(r: Range, page: nat) {
    IsIn(page * PAGE, r) || IsIn((page + 1) * PAGE, r)
  }

  predicate Reserved(ranges: seq<Range>, page: nat) {
    exists i :: 0 <= i < |ranges| && Flags(ranges[i], page)
  }

  method IsPageReserved(ranges: seq<Range>, page: nat) returns (reserved: bool)
    ensures reserved <==> Reserved(ranges, page)
  {
    var i := 0;
    while i < |ranges|
      invariant i <= |ranges|
      invariant forall k :: 0 <= k < i ==> !Flags(ranges[k], page)
    {
      if IsIn(page * PAGE, ranges[i]) || IsIn((page + 1) * PAGE, ranges[i]) {
        return true;
      }
      i := i + 1;
    }
    return false;
  }

  /** The range and the page have an address in common. */
  predicate Overlaps(r: Range, page: nat) {
    r.begin < (page + 1) * PAGE && page * PAGE < r.end && r.begin < r.end
  }

  /** Below 4 GiB a non-empty range flags the pages it overlaps, and the page just before one
      it begins with, but misses the page it lies inside of behind its first address. */
  lemma FlagsExactly(r: Range, page: nat)
    requires (page + 1) * PAGE < 0x1_0000_0000 && r.begin < r.end
    ensures Flags(r, page)
            <==> (Overlaps(r, page) && !(page * PAGE < r.begin && r.end <= (page + 1) * PAGE))
                 || r.begin == (page + 1) * PAGE
  {
  }

  /** So a range that begins on a page boundary covers every page it overlaps. */
  lemma AlignedRangeCovered(ranges: seq<Range>, i: nat, page: nat)
    requires i < |ranges| && (page + 1) * PAGE < 0x1_0000_0000
    requires ranges[i].begin % PAGE == 0 && Overlaps(ranges[i], page)
    ensures Reserved(ranges, page)
  {
    FlagsExactly(ranges[i], page);
    assert Flags(ranges[i], page);
  }

  // ----- contiguous runs

  predicate FreeRun(ranges: seq<Range>, start: nat, pages: nat) {
    forall i :: start <= i < start + pages ==> !Reserved(ranges, i)
  }

  /** The bound of the search: limit - pages, as a 64-bit difference. */
  function SearchBound(pages: nat, limit: nat): nat {
    (limit / PAGE - pages) % WORD
  }

  method SearchRun(ranges: seq<Range>, pages: nat, base: nat, limit: nat) returns (result: Option<nat>)
    ensures result.Some? ==>
              && result.value % PAGE == 0
              && base / PAGE <= result.value / PAGE < SearchBound(pages, limit)
              && FreeRun(ranges, result.value / PAGE, pages)
              && forall p :: base / PAGE <= p < result.value / PAGE ==> !FreeRun(ranges, p, pages)
    ensures result.None? ==>
              forall p :: base / PAGE <= p < SearchBound(pages, limit) ==> !FreeRun(ranges, p, pages)
  {
    var ptr := base / PAGE;
    var bound := SearchBound(pages, limit);
    while ptr < bound
      invariant base / PAGE <= ptr
      invariant forall p :: base / PAGE <= p < ptr && p < bound ==> !FreeRun(ranges, p, pages)
    {
      var hasRun := true;
      var i := ptr;
      while i < ptr + pages
        invariant ptr <= i <= ptr + pages && hasRun
        invariant forall k :: ptr <= k < i ==> !Reserved(ranges, k)
      {
        var reserved := IsPageReserved(ranges, i);
        if reserved {
          hasRun := false;
          break;
        }
        i := i + 1;
      }
      if hasRun {
        return Some(ptr * PAGE);
      }
      ptr := ptr + 1;
    }
    return None;
  }

  /** A run found lies inside the limits when the request does. */
  lemma RunInside(pages: nat, limit: nat, start: nat)
    requires pages <= limit / PAGE < WORD && start < SearchBound(pages, limit)
    ensures (start + pages) * PAGE < limit
  {
  }

  /** The search misses a free run between base and limit exactly when the only one is the run
      that ends at the limit. */
  lemma SearchMissesLastRun(ranges: seq<Range>, pages: nat, base: nat, limit: nat)
    requires pages <= limit / PAGE < WORD
    ensures (exists p :: base / PAGE <= p && p + pages <= limit / PAGE && FreeRun(ranges, p, pages))
            && (forall p :: base / PAGE <= p < SearchBound(pages, limit) ==> !FreeRun(ranges, p, pages))
            <==>
            && base / PAGE <= limit / PAGE - pages && FreeRun(ranges, limit / PAGE - pages, pages)
            && (forall p :: base / PAGE <= p < limit / PAGE - pages ==> !FreeRun(ranges, p, pages))
  {
    assert SearchBound(pages, limit) == limit / PAGE - pages;
  }

  // ----- the first allocation

  datatype MapEntry = MapEntry(addr: nat, len: nat, available: bool)

  function AlignUp(address: nat): nat {
    (address + PAGE - 1) % WORD / PAGE * PAGE
  }

  function AlignDown(address: nat): nat {
    address % WORD / PAGE * PAGE
  }

  /** A run of pages at p, within what the search looks at in a memory map entry. */
  predicate RunIn(ranges: seq<Range>, e: MapEntry, pages: nat, p: nat) {
    && AlignUp(e.addr) / PAGE <= p < SearchBound(pages, AlignDown(e.addr + e.len))
    && FreeRun(ranges, p, pages)
  }

  /** The least page boundary at or above an address, the greatest at or below it. */
  lemma AlignedAddresses(address: nat, y: nat)
    requires address + PAGE - 1 < WORD && y % PAGE == 0
    ensures AlignUp(address) % PAGE == 0 && address <= AlignUp(address) && (address <= y ==> AlignUp(address) <= y)
    ensures AlignDown(address) % PAGE == 0 && AlignDown(address) <= address && (y <= address ==> y <= AlignDown(address))
  {
  }

  /** The runs in question are the free ones inside the entry's memory, but for the one that ends
      with its last whole page. */
  lemma RunsInEntry(ranges: seq<Range>, e: MapEntry, pages: nat, p: nat)
    requires e.addr + PAGE - 1 < WORD && e.addr + e.len + PAGE - 1 < WORD && pages <= (e.addr + e.len) / PAGE
    ensures RunIn(ranges, e, pages, p)
            <==> e.addr <= p * PAGE && (p + pages + 1) * PAGE <= e.addr + e.len && FreeRun(ranges, p, pages)
  {
    hide FreeRun, AlignUp, AlignDown;
    AlignedAddresses(e.addr, p * PAGE);
    AlignedAddresses(e.addr + e.len, (p + pages + 1) * PAGE);
    AlignedAddresses(e.addr + e.len, pages * PAGE);
  }

  /** How many of the entries from i up to j are available memory. */
  function Available(entries: seq<MapEntry>, i: nat, j: nat): nat
    requires i <= j <= |entries|
    decreases j - i
  {
    if i == j then 0 else (if entries[i].available then 1 else 0) + Available(entries, i + 1, j)
  }

  /** The iterator over the memory map, which stays where it was between calls. */
  class BumpAllocator {
    const entries: seq<MapEntry>
    const ranges: seq<Range>
    var it: nat

    constructor (entries: seq<MapEntry>, ranges: seq<Range>)
      ensures this.entries == entries && this.ranges == ranges && it == 0
    {
      this.entries, this.ranges, this.it := entries, ranges, 0;
    }

    /** early_pmm_alloc_cts.  The run is the lowest in the first available entry that has one;
        None, where the source panics, means every entry was tried, or slimit of them. */
    method AllocContiguous(pages: nat, slimit: nat) returns (result: Option<nat>)
      requires it <= |entries|
      modifies this
      ensures old(it) <= it <= |entries|
      ensures forall k, p: nat :: old(it) <= k < it && entries[k].available ==> !RunIn(ranges, entries[k], pages, p)
      ensures result.Some? ==>
                && it < |entries| && entries[it].available && result.value % PAGE == 0
                && RunIn(ranges, entries[it], pages, result.value / PAGE)
                && (forall p: nat :: p < result.value / PAGE ==> !RunIn(ranges, entries[it], pages, p))
                && Available(entries, old(it), it) < slimit
      ensures result.None? ==> it == |entries| || Available(entries, old(it), it) == slimit
      decreases slimit
    {
      if slimit == 0 || it == |entries| {
        return None;
      }
      while !entries[it].available
        invariant old(it) <= it < |entries|
        invariant forall k :: old(it) <= k < it ==> !entries[k].available
        invariant Available(entries, old(it), it) == 0
        decreases |entries| - it
      {
        AvailableNext(entries, old(it), it);
        it := it + 1;
        if it == |entries| {
          return None;
        }
      }
      var entry := entries[it];
      result := SearchRun(ranges, pages, AlignUp(entry.addr), AlignDown(entry.addr + entry.len));
      if result.Some? {
        return;
      }
      AvailableNext(entries, old(it), it);
      it := it + 1;
      ghost var next := it;
      result := AllocContiguous(pages, slimit - 1);
      AvailableSplit(entries, old(it), next, it);
    }
  }

  lemma {:induction false} AvailableSplit(entries: seq<MapEntry>, i: nat, j: nat, k: nat)
    requires i <= j <= k <= |entries|
    ensures Available(entries, i, k) == Available(entries, i, j) + Available(entries, j, k)
    decreases j - i
  {
    if i < j {
      AvailableSplit(entries, i + 1, j, k);
    }
  }

  lemma AvailableNext(entries: seq<MapEntry>, i: nat, j: nat)
    requires i <= j < |entries|
    ensures Available(entries, i, j + 1) == Available(entries, i, j) + if entries[j].available then 1 else 0
  {
    AvailableSplit(entries, i, j, j + 1);
  }

  // ----- the first partition

  /** The entries of the database that are, or are not, reserved, in order. */
  function Select(ranges: seq<Range>, pages: seq<Node>, n: nat, reserved: bool): seq<Node>
    requires n <= |pages|
  {
    if n == 0 then []
    else Select(ranges, pages, n - 1, reserved) +
         if Reserved(ranges, n - 1) == reserved then [pages[n - 1]] else []
  }

  lemma {:induction false} SelectSizes(ranges: seq<Range>, pages: seq<Node>, n: nat)
    requires n <= |pages|
    ensures |Select(ranges, pages, n, true)| + |Select(ranges, pages, n, false)| == n
  {
    hide Reserved;
    if n > 0 {
      SelectSizes(ranges, pages, n - 1);
      SelectNext(ranges, pages, n, Reserved(ranges, n - 1));
    }
  }

  /** Each page goes to the list its reservation says, and to no other. */
  lemma {:induction false} SelectedExactly(ranges: seq<Range>, pages: seq<Node>, n: nat, k: nat, reserved: bool)
    requires k < n <= |pages| && Distinct(pages)
    ensures pages[k] in Select(ranges, pages, n, reserved) <==> Reserved(ranges, k) == reserved
  {
    hide Reserved;
    SelectedBelow(ranges, pages, n - 1, reserved, n - 1);
    if k < n - 1 {
      SelectedExactly(ranges, pages, n - 1, k, reserved);
      assert pages[k] != pages[n - 1];
    }
  }

  /** The pages of a list keep the order they have in the database. */
  lemma {:induction false} SelectedInOrder(ranges: seq<Range>, pages: seq<Node>, n: nat, a: nat, b: nat, reserved: bool)
    requires a < b < n <= |pages| && Distinct(pages)
    requires Reserved(ranges, a) == Reserved(ranges, b) == reserved
    ensures Before(Select(ranges, pages, n, reserved), pages[a], pages[b])
  {
    hide Reserved;
    var s, s' := Select(ranges, pages, n, reserved), Select(ranges, pages, n - 1, reserved);
    assert s' <= s;
    if b < n - 1 {
      SelectedInOrder(ranges, pages, n - 1, a, b, reserved);
      var i, j :| 0 <= i < j < |s'| && s'[i] == pages[a] && s'[j] == pages[b];
      assert s[i] == pages[a] && s[j] == pages[b];
    } else {
      SelectedExactly(ranges, pages, n - 1, a, reserved);
      var i :| 0 <= i < |s'| && s'[i] == pages[a];
      assert s[i] == pages[a] && s[|s'|] == pages[b];
    }
  }

  ghost predicate Before(s: seq<Node>, x: Node, y: Node) {
    exists i, j :: 0 <= i < j < |s| && s[i] == x && s[j] == y
  }

  lemma SelectNext(ranges: seq<Range>, pages: seq<Node>, n: nat, reserved: bool)
    requires 0 < n <= |pages| && Reserved(ranges, n - 1) == reserved
    ensures Select(ranges, pages, n, reserved) == Select(ranges, pages, n - 1, reserved) + [pages[n - 1]]
    ensures Select(ranges, pages, n, !reserved) == Select(ranges, pages, n - 1, !reserved)
  {
  }

  lemma {:induction false} SelectedBelow(ranges: seq<Range>, pages: seq<Node>, n: nat, reserved: bool, k: nat)
    requires n <= k < |pages| && Distinct(pages)
    ensures pages[k] !in Select(ranges, pages, n, reserved)
    ensures forall x :: x in Select(ranges, pages, n, reserved) ==> x in pages[..n]
  {
    if n > 0 {
      SelectedBelow(ranges, pages, n - 1, reserved, k);
      assert pages[..n] == pages[..n - 1] + [pages[n - 1]];
    }
  }

  lemma SelectedInside(ranges: seq<Range>, pages: seq<Node>, k: nat, reserved: bool)
    requires k < |pages| && Distinct(pages)
    ensures pages[k] !in Select(ranges, pages, k, reserved)
    ensures var s := Select(ranges, pages, k, reserved); forall i :: 0 <= i < |s| ==> s[i] in pages
  {
    hide Reserved, Select;
    SelectedBelow(ranges, pages, k, reserved, k);
    var s := Select(ranges, pages, k, reserved);
    assert forall i :: 0 <= i < |s| ==> s[i] in s;
  }

  lemma {:induction false} SelectApart(ranges: seq<Range>, pages: seq<Node>, n: nat)
    requires n <= |pages| && Distinct(pages)
    ensures Apart(Select(ranges, pages, n, true), Select(ranges, pages, n, false))
  {
    if n > 0 {
      hide Reserved;
      SelectApart(ranges, pages, n - 1);
      SelectedBelow(ranges, pages, n - 1, true, n - 1);
      SelectedBelow(ranges, pages, n - 1, false, n - 1);
    }
  }

  lemma PartitionStep(ranges: seq<Range>, pages: seq<Node>, i: nat, reserved: bool)
    requires i < |pages| && Distinct(pages) && Reserved(ranges, i) == reserved
    ensures var f, r := Select(ranges, pages, i, false), Select(ranges, pages, i, true);
            && Apart(r, f) && Apart(f, r) && pages[i] !in f && pages[i] !in r && pages[i] in pages
            && (forall k :: 0 <= k < |f| ==> f[k] in pages) && (forall k :: 0 <= k < |r| ==> r[k] in pages)
            && Select(ranges, pages, i + 1, false) == (if reserved then f else f + [pages[i]])
            && Select(ranges, pages, i + 1, true) == if reserved then r + [pages[i]] else r
  {
    hide Reserved, Select;
    SelectedInside(ranges, pages, i, false);
    SelectedInside(ranges, pages, i, true);
    SelectApart(ranges, pages, i);
    SelectNext(ranges, pages, i + 1, reserved);
  }

  /** list.push_back(node), beside another list. */
  method PushBeside(list: IntrusiveList, other: IntrusiveList, node: Node, ghost scope: seq<Node>)
    requires list != other && list.Valid() && other.Valid() && Apart(list.nodes, other.nodes)
    requires node !in list.nodes && node !in other.nodes && node in scope
    requires forall i :: 0 <= i < |list.nodes| ==> list.nodes[i] in scope
    modifies list, scope
    ensures list.Valid() && other.Valid()
    ensures list.nodes == old(list.nodes) + [node] && other.nodes == old(other.nodes)
  {
    list.PushBack(node);
    forall i | 0 <= i < |other.nodes|
      ensures unchanged(other.nodes[i])
    {
      assert other.nodes[i] in other.nodes;
    }
  }

  /** The loop that fills the two lists from the database, and their sizes as checked after it. */
  method Partition(ranges: seq<Range>, pages: seq<Node>, free: IntrusiveList, rsrv: IntrusiveList)
      returns (freeSize: nat, rsrvSize: nat)
    requires free != rsrv && free.Valid() && rsrv.Valid() && free.nodes == [] == rsrv.nodes && Distinct(pages)
    modifies free, rsrv, pages
    ensures free.Valid() && rsrv.Valid()
    ensures free.nodes == Select(ranges, pages, |pages|, false)
    ensures rsrv.nodes == Select(ranges, pages, |pages|, true)
    ensures freeSize == |free.nodes| && rsrvSize == |rsrv.nodes| && freeSize + rsrvSize == |pages|
  {
    hide Reserved;
    var i := 0;
    while i < |pages|
      invariant i <= |pages| && free.Valid() && rsrv.Valid()
      invariant free.nodes == Select(ranges, pages, i, false)
      invariant rsrv.nodes == Select(ranges, pages, i, true)
    {
      var reserved := IsPageReserved(ranges, i);
      PartitionStep(ranges, pages, i, reserved);
      hide Select;
      if reserved {
        PushBeside(rsrv, free, pages[i], pages);
      } else {
        PushBeside(free, rsrv, pages[i], pages);
      }
      i := i + 1;
    }
    SelectSizes(ranges, pages, |pages|);
    freeSize := free.Size();
    rsrvSize := rsrv.Size();
  }
}
