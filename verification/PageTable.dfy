/** The loader's four-level page tables in physical memory: the processor's walk, the tree
    the tables form, and what map_page does to both (loader/x86-64-multiboot2/mem.cc). */
module PageTable {
  import opened Wrappers
  import opened PageEntry
  import opened PageIndex

  /** Physical memory as 64-bit words (512 to a page), the two page lists, the root table. */
  datatype Loader = Loader(ram: seq<nat>, free: seq<nat>, rsrv: seq<nat>, pml4: nat)

  // ----- reading the tables

  function Load(ram: seq<nat>, table: nat, i: nat): nat {
    if 512 * table + i < |ram| then ram[512 * table + i] else 0
  }

  /** The page reached by following the indices p from the root, as the processor does. */
  function Walk(ram: seq<nat>, root: nat, p: seq<nat>): Option<nat>
    decreases |p|
  {
    if p == [] then Some(root)
    else
      var table :- Walk(ram, root, p[..|p| - 1]);
      var e := Load(ram, table, p[|p| - 1]);
      if Present(e) then Some(Frame(e)) else None
  }

  /** A path of table indices that does not start at the self-reference in slot 511. */
  predicate Regular(p: seq<nat>) {
    (forall i :: 0 <= i < |p| ==> p[i] < 512) && (|p| > 0 ==> p[0] != 511)
  }

  predicate TablePath(p: seq<nat>) {
    |p| <= 3 && Regular(p)
  }

  // ----- well-formed states

  predicate InRam(ram: seq<nat>, page: nat) {
    512 * (page + 1) <= |ram|
  }

  /** Every reachable table is a reserved page below 4 GiB that the loader and the processor
      both find. */
  ghost predicate TablesReserved(s: Loader) {
    forall p :: TablePath(p) && Walk(s.ram, s.pml4, p).Some? ==>
      var t := Walk(s.ram, s.pml4, p).value;
      t in s.rsrv && t < LOW_PAGES && InRam(s.ram, t)
  }

  /** Every present entry above the last level is a link. */
  ghost predicate LoaderAgrees(s: Loader) {
    forall p, i :: TablePath(p + [i]) && Walk(s.ram, s.pml4, p).Some? ==>
      var e := Load(s.ram, Walk(s.ram, s.pml4, p).value, i);
      Present(e) ==> Link(e)
  }

  /** The tables form a tree: no table is reached by two paths. */
  ghost predicate IsTree(s: Loader) {
    forall p, q ::
      (TablePath(p) && TablePath(q) && Walk(s.ram, s.pml4, p).Some?
       && Walk(s.ram, s.pml4, p) == Walk(s.ram, s.pml4, q)) ==> p == q
  }

  predicate Distinct(pages: seq<nat>) {
    forall i, j :: 0 <= i < j < |pages| ==> pages[i] != pages[j]
  }

  ghost predicate ListsValid(s: Loader) {
    && Distinct(s.free + s.rsrv)
    && forall x :: x in s.free ==> InRam(s.ram, x)
  }

  ghost predicate Valid(s: Loader) {
    ListsValid(s) && TablesReserved(s) && LoaderAgrees(s) && IsTree(s)
  }

  // ----- operations

  function Store(ram: seq<nat>, word: nat, value: nat): seq<nat> {
    if word < |ram| then ram[word := value] else ram
  }

  function ZeroPage(ram: seq<nat>, page: nat): seq<nat> {
    seq(|ram|, k requires 0 <= k < |ram| => if 512 * page <= k < 512 * (page + 1) then 0 else ram[k])
  }

  /** pmm_alloc_page: the first free page becomes the last reserved one and is zeroed; None
      is the out-of-memory panic. */
  function TakePage(s: Loader): Option<(Loader, nat)> {
    if s.free == [] then None
    else Some((s.(ram := ZeroPage(s.ram, s.free[0]), free := s.free[1..], rsrv := s.rsrv + [s.free[0]]),
               s.free[0]))
  }

  /** One level of map_page: the table behind slot i of table t, made if it is missing. */
  function EnsureTable(s: Loader, t: nat, i: nat, flags: nat): Option<(Loader, nat)> {
    var e := Load(s.ram, t, i);
    if Present(e) then Some((s, TableAddress(e) / 0x1000))
    else
      var (s1, page) :- TakePage(s);
      Some((s1.(ram := Store(s1.ram, 512 * t + i, Entry(page * 0x1000, flags))), page))
  }

  /** The first n levels of map_page along the indices p. */
  function Descend(s: Loader, p: seq<nat>, n: nat, flags: nat): Option<(Loader, nat)>
    requires n <= |p|
  {
    if n == 0 then Some((s, s.pml4))
    else
      var (s1, t) :- Descend(s, p, n - 1, flags);
      EnsureTable(s1, t, p[n - 1], flags)
  }

  function SetLeaf(s: Loader, t: nat, i: nat, phys: nat, flags: nat): Loader {
    if Present(Load(s.ram, t, i)) then s
    else s.(ram := Store(s.ram, 512 * t + i, Entry(phys, flags)))
  }

  /** map_page; None is a failed assertion: a misaligned address, or memory has run out. */
  function MapPage(s: Loader, phys: nat, virt: nat, flags: nat): Option<Loader> {
    if phys % 0x1000 != 0 || virt % 0x1000 != 0 then None
    else
      var (s1, t) :- Descend(s, Indices(virt), 3, flags);
      Some(SetLeaf(s1, t, PtIndex(virt), phys, flags))
  }

  // ----- one write to an empty slot

  /** Writing one present entry into the empty slot i of the table at path p adds exactly that
      path to the walks: paths through it appear, every other walk is as before. */
  lemma {:induction false} WalkAfterWrite(s: Loader, ram': seq<nat>, p: seq<nat>, i: nat, r: seq<nat>)
    requires IsTree(s) && TablePath(p) && Regular(p + [i])
    requires Walk(s.ram, s.pml4, p).Some?
    requires !Present(Load(s.ram, Walk(s.ram, s.pml4, p).value, i))
    requires Present(Load(ram', Walk(s.ram, s.pml4, p).value, i))
    requires forall q, j {:trigger Load(ram', Walk(s.ram, s.pml4, q).value, j)} ::
               TablePath(q) && j < 512 && Walk(s.ram, s.pml4, q).Some?
               && (Walk(s.ram, s.pml4, q).value, j) != (Walk(s.ram, s.pml4, p).value, i)
               ==> Load(ram', Walk(s.ram, s.pml4, q).value, j) == Load(s.ram, Walk(s.ram, s.pml4, q).value, j)
    requires |p| < 3 ==> forall j :: 0 <= j < 512 ==>
               !Present(Load(ram', Frame(Load(ram', Walk(s.ram, s.pml4, p).value, i)), j))
    requires Regular(r) && |r| <= 4
    ensures Walk(ram', s.pml4, r)
         == if p + [i] <= r then
              if |r| == |p| + 1 then Some(Frame(Load(ram', Walk(s.ram, s.pml4, p).value, i))) else None
            else Walk(s.ram, s.pml4, r)
    decreases |r|
  {
    hide Present, Frame, TableAddress, Entry;
    if r != [] {
      var r0, j := r[..|r| - 1], r[|r| - 1];
      assert r == r0 + [j];
      WalkAfterWrite(s, ram', p, i, r0);
      if p + [i] <= r {
        if r0 != p {
          assert p + [i] <= r0;
        }
      } else if Walk(s.ram, s.pml4, r0).Some? && Walk(s.ram, s.pml4, r0) == Walk(s.ram, s.pml4, p) {
        assert r0 == p;
      }
    }
  }

  // ----- one level

  /** Every walk of s' is the walk of s, except along path q. */
  ghost predicate SameWalksExcept(s: Loader, s': Loader, q: seq<nat>) {
    forall r :: Regular(r) && |r| <= 4 && r != q ==>
      Walk(s'.ram, s'.pml4, r) == Walk(s.ram, s.pml4, r)
  }

  lemma LoadAfterLink(ram: seq<nat>, page: nat, t: nat, i: nat, e: nat, t': nat, j: nat)
    requires InRam(ram, page) && InRam(ram, t) && t != page && i < 512 && j < 512
    ensures Load(Store(ZeroPage(ram, page), 512 * t + i, e), t', j)
         == if (t', j) == (t, i) then e else if t' == page then 0 else Load(ram, t', j)
  {
  }

  lemma {:induction false} WalkStep(ram: seq<nat>, root: nat, p: seq<nat>, i: nat)
    ensures Walk(ram, root, p + [i])
         == if Walk(ram, root, p).None? then None
            else var e := Load(ram, Walk(ram, root, p).value, i);
                 if Present(e) then Some(Frame(e)) else None
  {
    assert (p + [i])[..|p|] == p;
  }

  /** What linking the first free page into the empty slot at path p + [i] does. */
  ghost predicate Linked(s: Loader, s': Loader, p: seq<nat>, i: nat)
  {
    && s.free != []
    && s'.pml4 == s.pml4 && |s'.ram| == |s.ram|
    && s'.free == s.free[1..] && s'.rsrv == s.rsrv + [s.free[0]]
    && Walk(s'.ram, s'.pml4, p + [i]) == Some(s.free[0])
    && SameWalksExcept(s, s', p + [i])
  }

  lemma FreeIsNotReserved(s: Loader, k: nat)
    requires ListsValid(s) && k < |s.free|
    ensures s.free[k] !in s.rsrv
  {
    forall j | 0 <= j < |s.rsrv|
      ensures s.rsrv[j] != s.free[k]
    {
      assert (s.free + s.rsrv)[k] == s.free[k] && (s.free + s.rsrv)[|s.free| + j] == s.rsrv[j];
    }
  }

  lemma LoadsAfterLink(s: Loader, p: seq<nat>, i: nat, flags: nat)
    requires Valid(s) && |p| < 3 && Regular(p + [i])
    requires TablePath(p) && Walk(s.ram, s.pml4, p).Some? && Walk(s.ram, s.pml4, p + [i]).None?
    requires s.free != [] && s.free[0] < LOW_PAGES
    ensures var t, page := Walk(s.ram, s.pml4, p).value, s.free[0];
            && EnsureTable(s, t, i, flags).Some?
            && t != page && InRam(s.ram, page)
            && EnsureTable(s, t, i, flags).value
               == (Loader(Store(ZeroPage(s.ram, page), 512 * t + i, Entry(page * 0x1000, flags)),
                          s.free[1..], s.rsrv + [page], s.pml4), page)
    ensures var t, page := Walk(s.ram, s.pml4, p).value, s.free[0];
            forall t': nat, j: nat | j < 512 ::
              Load(EnsureTable(s, t, i, flags).value.0.ram, t', j)
              == if (t', j) == (t, i) then Entry(page * 0x1000, flags)
                 else if t' == page then 0 else Load(s.ram, t', j)
  {
    hide Present, Frame, TableAddress, Entry;
    var t, page := Walk(s.ram, s.pml4, p).value, s.free[0];
    WalkStep(s.ram, s.pml4, p, i);
    FreeIsNotReserved(s, 0);
    forall t': nat, j: nat | j < 512
      ensures Load(EnsureTable(s, t, i, flags).value.0.ram, t', j)
              == if (t', j) == (t, i) then Entry(page * 0x1000, flags)
                 else if t' == page then 0 else Load(s.ram, t', j)
    {
      LoadAfterLink(s.ram, page, t, i, Entry(page * 0x1000, flags), t', j);
    }
  }

  lemma LinkWalks(s: Loader, p: seq<nat>, i: nat, flags: nat)
    requires Valid(s) && |p| < 3 && Regular(p + [i]) && Usable(flags, 1)
    requires TablePath(p) && Walk(s.ram, s.pml4, p).Some? && Walk(s.ram, s.pml4, p + [i]).None?
    requires s.free != [] && s.free[0] < LOW_PAGES
    ensures EnsureTable(s, Walk(s.ram, s.pml4, p).value, i, flags).Some?
    ensures Linked(s, EnsureTable(s, Walk(s.ram, s.pml4, p).value, i, flags).value.0, p, i)
  {
    hide Frame, TableAddress, Entry;
    var page := s.free[0];
    LoadsAfterLink(s, p, i, flags);
    var s' := EnsureTable(s, Walk(s.ram, s.pml4, p).value, i, flags).value.0;
    FreeIsNotReserved(s, 0);
    WalkStep(s.ram, s.pml4, p, i);
    LinkEntry(page, flags);
    assert !Present(0);
    forall r | Regular(r) && |r| <= 4
      ensures Walk(s'.ram, s.pml4, r) == if r == p + [i] then Some(page) else Walk(s.ram, s.pml4, r)
    {
      WalkAfterWrite(s, s'.ram, p, i, r);
      if p + [i] <= r && Walk(s.ram, s.pml4, r).Some? {
        WalkPrefix(s.ram, s.pml4, p + [i], r);
      }
    }
  }

  lemma LinkKeepsLists(s: Loader, s': Loader, p: seq<nat>, i: nat)
    requires ListsValid(s) && Linked(s, s', p, i)
    ensures ListsValid(s')
  {
    var all, all' := s.free + s.rsrv, s'.free + s'.rsrv;
    forall j, k | 0 <= j < k < |all'|
      ensures all'[j] != all'[k]
    {
      assert all'[j] == all[j + 1];
      assert all'[k] == if k + 1 < |all| then all[k + 1] else all[0];
    }
    forall x | x in s'.free
      ensures InRam(s'.ram, x)
    {
      assert x in s.free && InRam(s.ram, x);
    }
  }

  lemma LinkKeepsTree(s: Loader, s': Loader, p: seq<nat>, i: nat)
    requires Valid(s) && Linked(s, s', p, i) && s.free[0] < LOW_PAGES
    ensures TablesReserved(s') && IsTree(s')
  {
    hide Present, Frame, TableAddress, Entry;
    FreeIsNotReserved(s, 0);
    assert s.free[0] in s.free && InRam(s.ram, s.free[0]);
    forall q | TablePath(q) && Walk(s'.ram, s'.pml4, q).Some?
      ensures var t := Walk(s'.ram, s'.pml4, q).value;
              t in s'.rsrv && t < LOW_PAGES && InRam(s'.ram, t)
    {
      if q != p + [i] {
        assert Walk(s.ram, s.pml4, q).Some?;
        assert InRam(s.ram, Walk(s.ram, s.pml4, q).value);
      }
    }
  }

  lemma LinkKeepsAgreement(s: Loader, s': Loader, p: seq<nat>, i: nat)
    requires Valid(s) && Linked(s, s', p, i) && s.free[0] < LOW_PAGES
    requires TablePath(p) && Walk(s.ram, s.pml4, p).Some?
    requires var t := Walk(s.ram, s.pml4, p).value;
             && Link(Load(s'.ram, t, i))
             && forall t': nat, j: nat | j < 512 && (t', j) != (t, i) ::
                  Load(s'.ram, t', j) == if t' == s.free[0] then 0 else Load(s.ram, t', j)
    ensures LoaderAgrees(s')
  {
    hide Frame, TableAddress, Entry;
    assert !Present(0);
    forall q, j | TablePath(q + [j]) && Walk(s'.ram, s'.pml4, q).Some?
      ensures var e := Load(s'.ram, Walk(s'.ram, s'.pml4, q).value, j);
              Present(e) ==> Link(e)
    {
      assert (q + [j])[|q|] == j;
      assert forall k :: 0 <= k < |q| ==> q[k] == (q + [j])[k];
      assert Regular(q) && j < 512;
    }
  }

  /** Linking a fresh table keeps a valid state valid. */
  lemma LinkIsValid(s: Loader, p: seq<nat>, i: nat, flags: nat)
    requires Valid(s) && |p| < 3 && Regular(p + [i]) && Usable(flags, 1)
    requires TablePath(p) && Walk(s.ram, s.pml4, p).Some? && Walk(s.ram, s.pml4, p + [i]).None?
    requires s.free != [] && s.free[0] < LOW_PAGES
    ensures var t := Walk(s.ram, s.pml4, p).value;
            EnsureTable(s, t, i, flags).Some? &&
            var (s', t') := EnsureTable(s, t, i, flags).value;
            && Valid(s') && Linked(s, s', p, i) && t' == s.free[0]
            && Load(s'.ram, s.pml4, 511) == Load(s.ram, s.pml4, 511)
  {
    hide Present, Frame, TableAddress, Entry;
    LoadsAfterLink(s, p, i, flags);
    LinkWalks(s, p, i, flags);
    var s' := EnsureTable(s, Walk(s.ram, s.pml4, p).value, i, flags).value.0;
    LinkEntry(s.free[0], flags);
    LinkKeepsLists(s, s', p, i);
    LinkKeepsTree(s, s', p, i);
    LinkKeepsAgreement(s, s', p, i);
    FreeIsNotReserved(s, 0);
    assert Walk(s.ram, s.pml4, []) == Some(s.pml4);
    assert (p + [i])[|p|] == i;
  }

  /** A walk that stops at a prefix goes no further. */
  lemma {:induction false} WalkPrefix(ram: seq<nat>, root: nat, p: seq<nat>, r: seq<nat>)
    requires p <= r && Walk(ram, root, r).Some?
    ensures Walk(ram, root, p).Some?
    decreases |r|
  {
    if p != r {
      assert p <= r[..|r| - 1];
      WalkPrefix(ram, root, p, r[..|r| - 1]);
    }
  }

  // ----- several levels

  /** Nothing that was mapped changes, and nothing off path q changes. */
  ghost predicate Extends(s: Loader, s': Loader, q: seq<nat>) {
    forall r :: Regular(r) && |r| <= 4 && (Walk(s.ram, s.pml4, r).Some? || !(r <= q)) ==>
      Walk(s'.ram, s'.pml4, r) == Walk(s.ram, s.pml4, r)
  }

  /** The first k free pages have moved, in order, to the end of the reserved list. */
  predicate MovedPages(s: Loader, s': Loader, k: nat) {
    && k <= |s.free|
    && s'.free == s.free[k..] && s'.rsrv == s.rsrv + s.free[..k]
    && s'.pml4 == s.pml4 && |s'.ram| == |s.ram|
  }

  /** How many of the first n tables along p do not exist yet. */
  function Missing(s: Loader, p: seq<nat>, n: nat): (k: nat)
    requires n <= |p|
    ensures k <= n
  {
    if n == 0 then 0
    else Missing(s, p, n - 1) + if Walk(s.ram, s.pml4, p[..n]).None? then 1 else 0
  }

  predicate LowPages(free: seq<nat>, k: nat) {
    forall i :: 0 <= i < k && i < |free| ==> free[i] < LOW_PAGES
  }

  /** s' is s with k more tables, among them the one at the end of path q. */
  ghost predicate Grown(s: Loader, s': Loader, q: seq<nat>, k: nat) {
    && Valid(s') && Extends(s, s', q) && MovedPages(s, s', k)
    && Walk(s'.ram, s'.pml4, q).Some?
    && Load(s'.ram, s.pml4, 511) == Load(s.ram, s.pml4, 511)
  }

  lemma LinkedGrows(s: Loader, s': Loader, q: seq<nat>, i: nat)
    requires Valid(s') && Linked(s, s', q, i) && Walk(s.ram, s.pml4, q + [i]).None?
    requires Load(s'.ram, s.pml4, 511) == Load(s.ram, s.pml4, 511)
    ensures Grown(s, s', q + [i], 1)
  {
    hide Valid, Load, Walk;
    assert s.free[..1] == [s.free[0]];
  }

  lemma PresentTable(s: Loader, q: seq<nat>, i: nat, flags: nat)
    requires Valid(s) && Regular(q + [i]) && TablePath(q + [i])
    requires Walk(s.ram, s.pml4, q).Some? && Walk(s.ram, s.pml4, q + [i]).Some?
    ensures EnsureTable(s, Walk(s.ram, s.pml4, q).value, i, flags)
            == Some((s, Walk(s.ram, s.pml4, q + [i]).value))
  {
    hide Frame, TableAddress, Present;
    var e := Load(s.ram, Walk(s.ram, s.pml4, q).value, i);
    WalkStep(s.ram, s.pml4, q, i);
    assert TableAddress(e) == Frame(e) * 0x1000;
    PageOfAddress(Frame(e));
  }

  lemma PageOfAddress(page: nat)
    ensures page * 0x1000 / 0x1000 == page
  {
  }

  /** One more level below a path that already exists. */
  lemma EnsureTableGrows(s: Loader, q: seq<nat>, i: nat, flags: nat)
    requires Valid(s) && |q| < 3 && Regular(q + [i])
    requires Usable(flags, if Walk(s.ram, s.pml4, q + [i]).None? then 1 else 0)
    requires TablePath(q) && Walk(s.ram, s.pml4, q).Some?
    requires Walk(s.ram, s.pml4, q + [i]).None? ==> LowPages(s.free, 1)
    ensures var k := if Walk(s.ram, s.pml4, q + [i]).None? then 1 else 0;
            var r := EnsureTable(s, Walk(s.ram, s.pml4, q).value, i, flags);
            && (r.Some? <==> k <= |s.free|)
            && (r.Some? ==>
                  && Grown(s, r.value.0, q + [i], k)
                  && Walk(r.value.0.ram, r.value.0.pml4, q + [i]) == Some(r.value.1))
  {
    hide EnsureTable, Walk, Valid;
    if Walk(s.ram, s.pml4, q + [i]).Some? {
      PresentTable(s, q, i, flags);
      assert Grown(s, s, q + [i], 0);
    } else if s.free == [] {
      NoTable(s, q, i, flags);
    } else {
      assert LowPages(s.free, 1) && s.free[0] < LOW_PAGES;
      LinkIsValid(s, q, i, flags);
      LinkedGrows(s, EnsureTable(s, Walk(s.ram, s.pml4, q).value, i, flags).value.0, q, i);
    }
  }

  lemma NoTable(s: Loader, q: seq<nat>, i: nat, flags: nat)
    requires s.free == [] && Walk(s.ram, s.pml4, q).Some? && Walk(s.ram, s.pml4, q + [i]).None?
    ensures EnsureTable(s, Walk(s.ram, s.pml4, q).value, i, flags).None?
  {
    WalkStep(s.ram, s.pml4, q, i);
  }

  lemma MovedTwice(s: Loader, s1: Loader, s2: Loader, k: nat, k': nat)
    requires MovedPages(s, s1, k) && MovedPages(s1, s2, k')
    ensures MovedPages(s, s2, k + k')
  {
    assert s.free[k..][k'..] == s.free[k + k'..];
    assert s.free[..k] + s.free[k..][..k'] == s.free[..k + k'];
  }

  lemma GrownTwice(s: Loader, s1: Loader, s2: Loader, q: seq<nat>, i: nat, k: nat, k': nat)
    requires Grown(s, s1, q, k) && Grown(s1, s2, q + [i], k')
    ensures Grown(s, s2, q + [i], k + k')
  {
    MovedTwice(s, s1, s2, k, k');
    forall r | Regular(r) && |r| <= 4 && (Walk(s.ram, s.pml4, r).Some? || !(r <= q + [i]))
      ensures Walk(s2.ram, s2.pml4, r) == Walk(s.ram, s.pml4, r)
    {
      if r <= q {
        assert r <= q + [i];
      }
      assert Walk(s1.ram, s1.pml4, r) == Walk(s.ram, s.pml4, r);
    }
  }

  lemma DescendStep(s: Loader, s1: Loader, q: seq<nat>, i: nat, k: nat, flags: nat)
    requires |q| < 3 && Regular(q + [i]) && Grown(s, s1, q, k)
    requires Usable(flags, if Walk(s.ram, s.pml4, q + [i]).None? then 1 else 0)
    requires LowPages(s.free, k + if Walk(s.ram, s.pml4, q + [i]).None? then 1 else 0)
    ensures var k' := k + if Walk(s.ram, s.pml4, q + [i]).None? then 1 else 0;
            var r := EnsureTable(s1, Walk(s1.ram, s1.pml4, q).value, i, flags);
            && (r.Some? <==> k' <= |s.free|)
            && (r.Some? ==>
                  && Grown(s, r.value.0, q + [i], k')
                  && Walk(r.value.0.ram, r.value.0.pml4, q + [i]) == Some(r.value.1))
  {
    hide Present, Frame, Entry, Link, CleanFlags, Large, Load, EnsureTable, Valid;
    TablePathPrefix(q, i);
    assert Walk(s1.ram, s1.pml4, q + [i]) == Walk(s.ram, s.pml4, q + [i]);
    if Walk(s.ram, s.pml4, q + [i]).None? && s1.free != [] {
      assert s1.free[0] == s.free[k];
    }
    EnsureTableGrows(s1, q, i, flags);
    var r := EnsureTable(s1, Walk(s1.ram, s1.pml4, q).value, i, flags);
    if r.Some? {
      GrownTwice(s, s1, r.value.0, q, i, k, if Walk(s.ram, s.pml4, q + [i]).None? then 1 else 0);
    }
  }

  lemma DescendNowhere(s: Loader, p: seq<nat>, flags: nat)
    requires Valid(s)
    ensures Descend(s, p, 0, flags) == Some((s, s.pml4)) && Grown(s, s, p[..0], 0)
    ensures Walk(s.ram, s.pml4, p[..0]) == Some(s.pml4)
  {
  }

  lemma {:induction false} DescendCorrect(s: Loader, p: seq<nat>, n: nat, flags: nat)
    requires Valid(s) && Regular(p) && n <= |p| && n <= 3 && Usable(flags, Missing(s, p, n))
    requires LowPages(s.free, Missing(s, p, n))
    ensures Descend(s, p, n, flags).Some? <==> Missing(s, p, n) <= |s.free|
    ensures Descend(s, p, n, flags).Some? ==>
              var (s', t) := Descend(s, p, n, flags).value;
              && Grown(s, s', p[..n], Missing(s, p, n))
              && Walk(s'.ram, s'.pml4, p[..n]) == Some(t)
  {
    hide Grown, Valid, Walk, EnsureTable;
    if n == 0 {
      DescendNowhere(s, p, flags);
    } else {
      DescendCorrect(s, p, n - 1, flags);
      if Descend(s, p, n - 1, flags).Some? {
        assert p[..n] == p[..n - 1] + [p[n - 1]];
        DescendStep(s, Descend(s, p, n - 1, flags).value.0, p[..n - 1], p[n - 1], Missing(s, p, n - 1), flags);
      }
    }
  }

  // ----- the leaf entry

  lemma LeafWalks(s: Loader, p: seq<nat>, i: nat, phys: nat, flags: nat)
    requires Valid(s) && |p| == 3 && Regular(p + [i]) && CleanFlags(flags)
    requires TablePath(p) && Walk(s.ram, s.pml4, p).Some?
    requires phys % 0x1000 == 0 && phys < 0x10_0000_0000_0000
    ensures var s' := SetLeaf(s, Walk(s.ram, s.pml4, p).value, i, phys, flags);
            && SameWalksExcept(s, s', p + [i])
            && Walk(s'.ram, s'.pml4, p + [i])
               == (if Walk(s.ram, s.pml4, p + [i]).Some? then Walk(s.ram, s.pml4, p + [i]) else Some(phys / 0x1000))
  {
    hide Present, Frame, Link, CleanFlags, Entry, ListsValid, LoaderAgrees;
    var t := Walk(s.ram, s.pml4, p).value;
    var s' := SetLeaf(s, t, i, phys, flags);
    WalkStep(s.ram, s.pml4, p, i);
    if !Present(Load(s.ram, t, i)) {
      LeafEntry(phys, flags);
      assert (p + [i])[|p|] == i;
      assert InRam(s.ram, t);
      forall r | Regular(r) && |r| <= 4
        ensures Walk(s'.ram, s.pml4, r) == if r == p + [i] then Some(phys / 0x1000) else Walk(s.ram, s.pml4, r)
      {
        WalkAfterWrite(s, s'.ram, p, i, r);
        if p + [i] <= r {
          assert r == p + [i];
        }
      }
    }
  }

  lemma LeafIsValid(s: Loader, p: seq<nat>, i: nat, phys: nat, flags: nat)
    requires Valid(s) && |p| == 3 && Regular(p + [i]) && CleanFlags(flags)
    requires TablePath(p) && Walk(s.ram, s.pml4, p).Some?
    requires phys % 0x1000 == 0 && phys < 0x10_0000_0000_0000
    ensures var s' := SetLeaf(s, Walk(s.ram, s.pml4, p).value, i, phys, flags);
            && Valid(s') && MovedPages(s, s', 0)
            && Load(s'.ram, s.pml4, 511) == Load(s.ram, s.pml4, 511)
  {
    hide Present, Frame, TableAddress, Entry;
    var t := Walk(s.ram, s.pml4, p).value;
    var s' := SetLeaf(s, t, i, phys, flags);
    LeafWalks(s, p, i, phys, flags);
    LeafLoads(s, p, i, phys, flags, [], 511);
    forall q, j | TablePath(q + [j]) && Walk(s.ram, s.pml4, q).Some?
      ensures Load(s'.ram, Walk(s.ram, s.pml4, q).value, j) == Load(s.ram, Walk(s.ram, s.pml4, q).value, j)
    {
      TablePathPrefix(q, j);
      LeafLoads(s, p, i, phys, flags, q, j);
    }
    LeafChangeIsValid(s, s', p + [i]);
  }

  lemma TablePathPrefix(q: seq<nat>, j: nat)
    requires TablePath(q + [j])
    ensures TablePath(q) && j < 512
  {
    assert (q + [j])[|q|] == j;
    assert forall k :: 0 <= k < |q| ==> q[k] == (q + [j])[k];
  }

  /** The leaf write leaves the entries of every other table alone. */
  lemma LeafLoads(s: Loader, p: seq<nat>, i: nat, phys: nat, flags: nat, q: seq<nat>, j: nat)
    requires IsTree(s) && TablePath(p) && TablePath(q) && p != q && i < 512 && j < 512
    requires Walk(s.ram, s.pml4, p).Some? && Walk(s.ram, s.pml4, q).Some?
    ensures var s' := SetLeaf(s, Walk(s.ram, s.pml4, p).value, i, phys, flags);
            Load(s'.ram, Walk(s.ram, s.pml4, q).value, j) == Load(s.ram, Walk(s.ram, s.pml4, q).value, j)
  {
    StoreElsewhere(s.ram, Walk(s.ram, s.pml4, p).value, i, Entry(phys, flags), Walk(s.ram, s.pml4, q).value, j);
  }

  lemma StoreElsewhere(ram: seq<nat>, t: nat, i: nat, e: nat, t': nat, j: nat)
    requires t != t' && i < 512 && j < 512
    ensures Load(Store(ram, 512 * t + i, e), t', j) == Load(ram, t', j)
  {
  }

  /** A change that only concerns one last-level entry keeps a valid state valid. */
  lemma LeafChangeIsValid(s: Loader, s': Loader, p: seq<nat>)
    requires Valid(s) && |p| == 4 && SameWalksExcept(s, s', p) && s'.pml4 == s.pml4
    requires s'.free == s.free && s'.rsrv == s.rsrv && |s'.ram| == |s.ram|
    requires forall q, j :: TablePath(q + [j]) && Walk(s.ram, s.pml4, q).Some? ==>
               Load(s'.ram, Walk(s.ram, s.pml4, q).value, j) == Load(s.ram, Walk(s.ram, s.pml4, q).value, j)
    ensures Valid(s') && MovedPages(s, s', 0)
  {
    hide Walk, Load, Link;
    LeafKeepsAgreement(s, s', p);
    assert forall q :: TablePath(q) ==> Walk(s'.ram, s'.pml4, q) == Walk(s.ram, s.pml4, q);
    assert s.free + s.rsrv == s'.free + s'.rsrv;
  }

  lemma LeafKeepsAgreement(s: Loader, s': Loader, p: seq<nat>)
    requires Valid(s) && |p| == 4 && SameWalksExcept(s, s', p) && s'.pml4 == s.pml4
    requires forall q, j :: TablePath(q + [j]) && Walk(s.ram, s.pml4, q).Some? ==>
               Load(s'.ram, Walk(s.ram, s.pml4, q).value, j) == Load(s.ram, Walk(s.ram, s.pml4, q).value, j)
    ensures LoaderAgrees(s')
  {
    forall q, j | TablePath(q + [j]) && Walk(s'.ram, s'.pml4, q).Some?
      ensures var e := Load(s'.ram, Walk(s'.ram, s'.pml4, q).value, j);
              Present(e) ==> Link(e)
    {
      assert (q + [j])[|q|] == j;
      assert forall k :: 0 <= k < |q| ==> q[k] == (q + [j])[k];
      assert Walk(s'.ram, s'.pml4, q) == Walk(s.ram, s.pml4, q);
    }
  }
}
