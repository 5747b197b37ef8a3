/** map_single_page: the kernel edits the page tables through the recursive mapping
    (arch/x86-64/mmu.cc).  The table addresses are modelled both as the code writes them and
    in the order its own comment documents. */
module KernelMapping {
  import opened Bits
  import opened Wrappers
  import opened PageEntry
  import opened PageIndex
  import opened PageTable
  import opened PageMapping
  import opened SelfMap

  /** Physical memory and the free list, and the pages taken for tables by this call. */
  datatype Kernel = Kernel(mem: Loader, ptPages: seq<nat>)

  /** PageFault: an access through an address that no table maps. */
  datatype Outcome = Mapped(after: Kernel) | OutOfMemory(after: Kernel) | PageFault

  /** The virtual addresses of the four entries for a page. */
  datatype Slots = Slots(pml4e: nat, pdpte: nat, pde: nat, pte: nat)

  function WrittenSlots(virt: nat): Slots {
    var x, y, z, w := Pml4Index(virt), PdptIndex(virt), PdIndex(virt), PtIndex(virt);
    Slots(VirtFromIndex(511, 511, 511, 511) + 8 * x,
          VirtFromIndex(511, 511, 511, x) + 8 * y,
          VirtFromIndex(511, 511, y, x) + 8 * z,
          VirtFromIndex(511, z, y, x) + 8 * w)
  }

  function DocumentedSlots(virt: nat): Slots {
    var x, y, z, w := Pml4Index(virt), PdptIndex(virt), PdIndex(virt), PtIndex(virt);
    Slots(VirtFromIndex(511, 511, 511, 511) + 8 * x,
          VirtFromIndex(511, 511, 511, x) + 8 * y,
          VirtFromIndex(511, 511, x, y) + 8 * z,
          VirtFromIndex(511, x, y, z) + 8 * w)
  }

  /** The word of physical memory behind a virtual address. */
  function WordOf(s: Loader, va: nat): Option<nat> {
    var frame :- Walk(s.ram, s.pml4, Indices(va));
    Some(512 * frame + va % 0x1000 / 8)
  }

  function LoadWord(s: Loader, word: nat): nat {
    if word < |s.ram| then s.ram[word] else 0
  }

  /** An entry above the last level: taken from the free list, unzeroed, if not present. */
  function EnsureEntry(k: Kernel, slot: nat, flags: nat): Outcome {
    match WordOf(k.mem, slot)
    case None => PageFault
    case Some(word) =>
      if Present(LoadWord(k.mem, word)) then Mapped(k)
      else if k.mem.free == [] then OutOfMemory(k)
      else
        var page := k.mem.free[0];
        Mapped(Kernel(k.mem.(free := k.mem.free[1..], ram := Store(k.mem.ram, word, Entry(page * 0x1000, flags))),
                      k.ptPages + [page]))
  }

  /** The last entry is overwritten even if it is present. */
  function OverwriteEntry(k: Kernel, slot: nat, phys: nat, flags: nat): Outcome {
    match WordOf(k.mem, slot)
    case None => PageFault
    case Some(word) => Mapped(k.(mem := k.mem.(ram := Store(k.mem.ram, word, Entry(phys, flags)))))
  }

  function MapSinglePage(k: Kernel, slots: Slots, phys: nat, flags: nat): Outcome {
    match EnsureEntry(k, slots.pml4e, flags)
    case Mapped(k1) => (
      match EnsureEntry(k1, slots.pdpte, flags)
      case Mapped(k2) => (
        match EnsureEntry(k2, slots.pde, flags)
        case Mapped(k3) => OverwriteEntry(k3, slots.pte, phys, flags)
        case fail => fail)
      case fail => fail)
    case fail => fail
  }

  // ----- where the slots are

  lemma ComposeOffset(high: nat, a: nat, b: nat, c: nat, d: nat, offset: nat)
    requires offset < 0x1000
    ensures Compose(high, a, b, c, d, offset) % 0x1000 == offset
  {
    QuotientUnique(Compose(high, a, b, c, d, offset), 0x1000,
                   high * 0x10_0000_0000 + a * 0x800_0000 + b * 0x4_0000 + c * 0x200 + d, offset);
  }

  lemma SlotIndices(base: nat, i: nat)
    requires base % 0x1000 == 0 && i < 512
    ensures Indices(base + 8 * i) == Indices(base)
    ensures (base + 8 * i) % 0x1000 / 8 == i
  {
    hide Indices;
    QuotientUnique(base + 8 * i, 0x1000, base / 0x1000, 8 * i);
    var high, a, b, c, d, offset := Decompose(base);
    ComposeOffset(high, a, b, c, d, offset);
    IndicesOfComposed(high, a, b, c, d, 0);
    IndicesOfComposed(high, a, b, c, d, 8 * i);
  }

  /** The address of entry i of the table at path p, through the self-map. */
  lemma TableSlot(s: Loader, p: seq<nat>, i: nat)
    requires SelfMapped(s) && |p| <= 3 && (forall j :: 0 <= j < |p| ==> p[j] < 512) && i < 512
    ensures WordOf(s, TableVirt(p) + 8 * i)
            == match Walk(s.ram, s.pml4, p) case None => None case Some(t) => Some(512 * t + i)
  {
    hide Walk, SelfMapped, Indices, TableVirt;
    TableVirtAligned(p);
    SlotIndices(TableVirt(p), i);
    SelfMapReachesTables(s, p);
  }

  lemma TableVirtAligned(p: seq<nat>)
    requires |p| <= 3 && forall j :: 0 <= j < |p| ==> p[j] < 512
    ensures TableVirt(p) % 0x1000 == 0
  {
    match |p|
    case 0 => IndicesOfVirt(511, 511, 511, 511);
    case 1 => IndicesOfVirt(511, 511, 511, p[0]);
    case 2 => IndicesOfVirt(511, 511, p[0], p[1]);
    case _ => IndicesOfVirt(511, p[0], p[1], p[2]);
  }

  /** The written and the documented addresses are the same exactly when the first three
      indices are. */
  lemma WrittenOrderAgrees(virt: nat)
    ensures WrittenSlots(virt) == DocumentedSlots(virt)
            <==> Pml4Index(virt) == PdptIndex(virt) && Pml4Index(virt) == PdIndex(virt)
  {
    hide VirtFromIndex, Pml4Index, PdptIndex, PdIndex, PtIndex;
    IndicesAreArithmetic(virt);
    var x, y, z := Pml4Index(virt), PdptIndex(virt), PdIndex(virt);
    assert x == Indices(virt)[0] && y == Indices(virt)[1] && z == Indices(virt)[2];
    VirtInjective(511, 511, y, x, 511, 511, x, y);
    VirtInjective(511, z, y, x, 511, x, y, z);
  }

  lemma VirtInjective(a: nat, b: nat, c: nat, d: nat, a': nat, b': nat, c': nat, d': nat)
    requires a < 512 && b < 512 && c < 512 && d < 512 && a' < 512 && b' < 512 && c' < 512 && d' < 512
    ensures VirtFromIndex(a, b, c, d) == VirtFromIndex(a', b', c', d') <==> [a, b, c, d] == [a', b', c', d']
    ensures [a, b, c, d] == [a', b', c', d'] <==> a == a' && b == b' && c == c' && d == d'
  {
    hide VirtFromIndex, Indices;
    IndicesOfVirt(a, b, c, d);
    IndicesOfVirt(a', b', c', d');
    assert [a, b, c, d] == [a', b', c', d'] ==>
        [a, b, c, d][0] == [a', b', c', d'][0] && [a, b, c, d][1] == [a', b', c', d'][1]
        && [a, b, c, d][2] == [a', b', c', d'][2] && [a, b, c, d][3] == [a', b', c', d'][3];
  }

  // ----- what the documented order does

  lemma DocumentedSlotsAreTableSlots(virt: nat)
    requires Pml4Index(virt) != 511
    ensures var p := Indices(virt);
            |p| == 4 && Regular(p) &&
            DocumentedSlots(virt) == Slots(TableVirt(p[..0]) + 8 * p[0], TableVirt(p[..1]) + 8 * p[1],
                                           TableVirt(p[..2]) + 8 * p[2], TableVirt(p[..3]) + 8 * p[3])
  {
    hide VirtFromIndex;
    IndicesRegular(virt);
  }

  /** Overwriting a last-level entry changes the walk of its own page and nothing else. */
  lemma {:induction false} OverwriteWalks(s: Loader, p: seq<nat>, i: nat, e: nat, r: seq<nat>)
    requires IsTree(s) && TablePath(p) && |p| == 3 && Regular(p + [i])
    requires Walk(s.ram, s.pml4, p).Some? && InRam(s.ram, Walk(s.ram, s.pml4, p).value) && Present(e)
    requires Regular(r) && |r| <= 4
    ensures Walk(Store(s.ram, 512 * Walk(s.ram, s.pml4, p).value + i, e), s.pml4, r)
            == if r == p + [i] then Some(Frame(e)) else Walk(s.ram, s.pml4, r)
    decreases |r|
  {
    hide Present, Frame;
    if r != [] {
      var t, q, j := Walk(s.ram, s.pml4, p).value, r[..|r| - 1], r[|r| - 1];
      var ram' := Store(s.ram, 512 * t + i, e);
      assert r == q + [j];
      assert (p + [i])[3] == i;
      OverwriteWalks(s, p, i, e, q);
      assert q != p + [i];
      if Walk(s.ram, s.pml4, q).Some? {
        var t' := Walk(s.ram, s.pml4, q).value;
        if q != p {
          StoreElsewhere(s.ram, t, i, e, t', j);
        } else if j != i {
          assert Load(ram', t, j) == Load(s.ram, t, j);
        }
      }
    }
  }

  lemma OverwriteIsValid(s: Loader, p: seq<nat>, i: nat, e: nat)
    requires Valid(s) && TablePath(p) && |p| == 3 && Regular(p + [i]) && Present(e)
    requires Walk(s.ram, s.pml4, p).Some?
    ensures var s' := s.(ram := Store(s.ram, 512 * Walk(s.ram, s.pml4, p).value + i, e));
            && Valid(s') && MovedPages(s, s', 0) && SameWalksExcept(s, s', p + [i])
            && Walk(s'.ram, s'.pml4, p + [i]) == Some(Frame(e))
            && Load(s'.ram, s.pml4, 511) == Load(s.ram, s.pml4, 511)
  {
    hide Present, Frame, Link, Load;
    var t := Walk(s.ram, s.pml4, p).value;
    var s' := s.(ram := Store(s.ram, 512 * t + i, e));
    assert (p + [i])[3] == i && TablePath([]);
    TableInRam(s, p);
    forall r | Regular(r) && |r| <= 4
      ensures Walk(s'.ram, s.pml4, r) == if r == p + [i] then Some(Frame(e)) else Walk(s.ram, s.pml4, r)
    {
      OverwriteWalks(s, p, i, e, r);
    }
    forall q, j | TablePath(q) && q != p && j < 512 && Walk(s.ram, s.pml4, q).Some?
      ensures Load(s'.ram, Walk(s.ram, s.pml4, q).value, j) == Load(s.ram, Walk(s.ram, s.pml4, q).value, j)
    {
      StoreElsewhere(s.ram, t, i, e, Walk(s.ram, s.pml4, q).value, j);
    }
    assert Walk(s.ram, s.pml4, []) == Some(s.pml4);
    hide Valid, Walk, Store;
    forall q, j | TablePath(q + [j]) && Walk(s.ram, s.pml4, q).Some?
      ensures Load(s'.ram, Walk(s.ram, s.pml4, q).value, j) == Load(s.ram, Walk(s.ram, s.pml4, q).value, j)
    {
      TablePathPrefix(q, j);
    }
    LeafChangeIsValid(s, s', p + [i]);
  }

  lemma PathRegular(p: seq<nat>, n: nat)
    requires Regular(p) && n <= |p|
    ensures Regular(p[..n]) && forall j :: 0 <= j < n ==> p[..n][j] < 512
  {
  }

  lemma TableInRam(s: Loader, p: seq<nat>)
    requires Valid(s) && TablePath(p) && Walk(s.ram, s.pml4, p).Some?
    ensures InRam(s.ram, Walk(s.ram, s.pml4, p).value) && IsTree(s)
  {
  }

  // ----- mapping a page in documented order

  /** The loader's view of the kernel: a page taken for a table counts as reserved. */
  function View(k: Kernel): Loader {
    k.mem.(rsrv := k.mem.rsrv + k.ptPages)
  }

  predicate Blank(ram: seq<nat>, page: nat) {
    forall w :: 512 * page <= w < 512 * (page + 1) && w < |ram| ==> ram[w] == 0
  }

  /** The first n free pages hold only zeros: the kernel does not clear what it takes. */
  predicate BlankPages(s: Loader, n: nat) {
    forall i :: 0 <= i < n && i < |s.free| ==> Blank(s.ram, s.free[i])
  }

  /** The first n entries of map_single_page along the indices p. */
  function DescendSlots(k: Kernel, p: seq<nat>, n: nat, flags: nat): Outcome
    requires n <= |p| && n <= 3
  {
    if n == 0 then Mapped(k)
    else
      match DescendSlots(k, p, n - 1, flags)
      case Mapped(k1) => EnsureEntry(k1, TableVirt(p[..n - 1]) + 8 * p[n - 1], flags)
      case fail => fail
  }

  lemma ZeroBlank(ram: seq<nat>, page: nat)
    requires Blank(ram, page)
    ensures ZeroPage(ram, page) == ram
  {
  }

  lemma EntryPresentHere(k: Kernel, q: seq<nat>, i: nat, flags: nat)
    requires Valid(View(k)) && SelfMapped(k.mem) && |q| < 3 && Regular(q + [i]) && TablePath(q)
    requires Walk(k.mem.ram, k.mem.pml4, q).Some?
    ensures var t, place := Walk(k.mem.ram, k.mem.pml4, q).value, WordOf(k.mem, TableVirt(q) + 8 * i);
            && place == Some(512 * t + i) && InRam(k.mem.ram, t) && i < 512
            && Load(k.mem.ram, t, i) == LoadWord(k.mem, 512 * t + i)
            && (Present(Load(k.mem.ram, t, i)) <==> Walk(k.mem.ram, k.mem.pml4, q + [i]).Some?)
  {
    hide Frame, Present, TableVirt, Indices, WordOf, Walk;
    TablePathPrefix(q, i);
    TableSlot(k.mem, q, i);
    WalkStep(k.mem.ram, k.mem.pml4, q, i);
    TableInRam(View(k), q);
  }

  /** The state after a page was taken for entry i of table t. */
  function Taken(k: Kernel, t: nat, i: nat, flags: nat): Kernel
    requires k.mem.free != []
  {
    var page := k.mem.free[0];
    Kernel(k.mem.(free := k.mem.free[1..], ram := Store(k.mem.ram, 512 * t + i, Entry(page * 0x1000, flags))),
           k.ptPages + [page])
  }

  lemma TakenView(k: Kernel, t: nat, i: nat, flags: nat)
    requires k.mem.free != [] && Blank(k.mem.ram, k.mem.free[0]) && !Present(Load(k.mem.ram, t, i))
    ensures EnsureTable(View(k), t, i, flags).Some?
    ensures EnsureTable(View(k), t, i, flags).value.0 == View(Taken(k, t, i, flags))
  {
    hide Present, Load, Entry, ZeroPage, Blank, Store;
    ZeroBlank(k.mem.ram, k.mem.free[0]);
    assert (k.mem.rsrv + k.ptPages) + [k.mem.free[0]] == k.mem.rsrv + (k.ptPages + [k.mem.free[0]]);
  }

  /** What one entry made through the self-map does: nothing where a table is present, and else
      what the loader does at that level, given a blank page. */
  lemma EntryIsTable(k: Kernel, q: seq<nat>, i: nat, flags: nat)
    requires Valid(View(k)) && SelfMapped(k.mem) && |q| < 3 && Regular(q + [i]) && TablePath(q)
    requires Walk(k.mem.ram, k.mem.pml4, q).Some?
    requires Walk(k.mem.ram, k.mem.pml4, q + [i]).None? ==> BlankPages(k.mem, 1)
    ensures var t := Walk(k.mem.ram, k.mem.pml4, q).value;
            var made := EnsureTable(View(k), t, i, flags);
            var outcome := EnsureEntry(k, TableVirt(q) + 8 * i, flags);
            if Walk(k.mem.ram, k.mem.pml4, q + [i]).Some? then
              outcome == Mapped(k) && made.Some? && made.value.0 == View(k)
            else if k.mem.free == [] then outcome == OutOfMemory(k) && made.None?
            else
              outcome == Mapped(Taken(k, t, i, flags)) && made.Some? && made.value.0 == View(Taken(k, t, i, flags))
  {
    hide Frame, Present, TableVirt, Indices, WordOf, Entry, TableAddress, ZeroPage, Walk, Valid, SelfMapped, Regular,
         TablePath, LoadWord, Load, Store, Blank;
    EntryPresentHere(k, q, i, flags);
    var t := Walk(k.mem.ram, k.mem.pml4, q).value;
    if Walk(k.mem.ram, k.mem.pml4, q + [i]).None? && k.mem.free != [] {
      TakenView(k, t, i, flags);
      hide EnsureTable;
    }
  }

  /** Writing into a table leaves the free pages as they are. */
  lemma BlankKept(s: Loader, q: seq<nat>, i: nat, e: nat, m: nat, page: nat)
    requires Valid(s) && TablePath(q) && i < 512 && Walk(s.ram, s.pml4, q).Some?
    requires page in s.free && Blank(s.ram, page)
    ensures Blank(Store(s.ram, 512 * Walk(s.ram, s.pml4, q).value + i, e), page)
  {
    var j :| 0 <= j < |s.free| && s.free[j] == page;
    FreeIsNotReserved(s, j);
  }

  /** Level by level the kernel grows the tables as the loader would. */
  lemma {:induction false} SlotsDescend(k: Kernel, p: seq<nat>, n: nat, m: nat, flags: nat)
    requires Valid(View(k)) && SelfMapped(k.mem) && |p| == 4 && Regular(p) && n <= 3
    requires Usable(flags, Missing(View(k), p, n))
    requires Missing(View(k), p, n) <= m && BlankPages(k.mem, m) && LowPages(k.mem.free, m)
    ensures var made := Descend(View(k), p, n, flags);
            match DescendSlots(k, p, n, flags)
            case Mapped(k') =>
              && made.Some? && made.value.0 == View(k') && k'.mem.rsrv == k.mem.rsrv
              && BlankPages(k'.mem, m - Missing(View(k), p, n)) && SelfMapped(k'.mem)
            case OutOfMemory(k') => made.None?
            case PageFault => false
  {
    hide Valid, Walk, EnsureTable, Grown, SelfMapped, EnsureEntry, BlankPages, TableVirt;
    var s := View(k);
    if n > 0 {
      SlotsDescend(k, p, n - 1, m, flags);
      DescendCorrect(s, p, n - 1, flags);
      if DescendSlots(k, p, n - 1, flags).Mapped? {
        SlotsStep(k, DescendSlots(k, p, n - 1, flags).after, p, n, m, flags);
      }
    } else {
      SelfMappedSame(k.mem, k.mem);
    }
  }

  lemma SlotsStep(k: Kernel, k1: Kernel, p: seq<nat>, n: nat, m: nat, flags: nat)
    requires Valid(View(k)) && SelfMapped(k.mem) && |p| == 4 && Regular(p) && 0 < n <= 3
    requires Usable(flags, Missing(View(k), p, n))
    requires Missing(View(k), p, n) <= m && LowPages(k.mem.free, m)
    requires var made := Descend(View(k), p, n - 1, flags);
             && made.Some? && made.value.0 == View(k1) && Walk(k1.mem.ram, k1.mem.pml4, p[..n - 1]) == Some(made.value.1)
    requires k1.mem.rsrv == k.mem.rsrv && SelfMapped(k1.mem)
    requires BlankPages(k1.mem, m - Missing(View(k), p, n - 1))
    requires Grown(View(k), View(k1), p[..n - 1], Missing(View(k), p, n - 1))
    ensures var made := Descend(View(k), p, n, flags);
            match EnsureEntry(k1, TableVirt(p[..n - 1]) + 8 * p[n - 1], flags)
            case Mapped(k') =>
              && made.Some? && made.value.0 == View(k') && k'.mem.rsrv == k.mem.rsrv
              && BlankPages(k'.mem, m - Missing(View(k), p, n)) && SelfMapped(k'.mem)
            case OutOfMemory(k') => made.None?
            case PageFault => false
  {
    hide Valid, Walk, EnsureTable, EnsureEntry, BlankPages, TableVirt, Load, Frame, Present, Blank, Store, Grown, SelfMapped;
    var s, q, i := View(k), p[..n - 1], p[n - 1];
    PathRegular(p, n - 1);
    PathRegular(p, n);
    assert p[..n] == q + [i];
    GrownFacts(s, View(k1), q, i, Missing(s, p, n - 1));
    if Walk(s.ram, s.pml4, p[..n]).None? {
      FewerBlank(k1.mem, m - Missing(s, p, n - 1), 1);
    }
    EntryIsTable(k1, q, i, flags);
    DescendCorrect(s, p, n, flags);
    var outcome := EnsureEntry(k1, TableVirt(q) + 8 * i, flags);
    if outcome.Mapped? {
      GrownKeepsSelfMap(k, outcome.after, p[..n], Missing(s, p, n));
      if Walk(s.ram, s.pml4, p[..n]).None? {
        BlankAfterLink(k1, q, i, Entry(k1.mem.free[0] * 0x1000, flags), m - Missing(s, p, n - 1), outcome.after.mem);
      } else {
        BlankSame(k1.mem, outcome.after.mem, m - Missing(s, p, n));
      }
    }
  }

  lemma GrownFacts(s: Loader, s1: Loader, q: seq<nat>, i: nat, k: nat)
    requires Grown(s, s1, q, k) && Regular(q + [i]) && |q| < 3
    ensures Valid(s1) && Walk(s1.ram, s1.pml4, q).Some?
    ensures Walk(s1.ram, s1.pml4, q + [i]) == Walk(s.ram, s.pml4, q + [i])
  {
    hide Walk, Valid;
  }

  lemma GrownKeepsSelfMap(k: Kernel, k': Kernel, q: seq<nat>, n: nat)
    requires SelfMapped(k.mem) && Grown(View(k), View(k'), q, n)
    ensures SelfMapped(k'.mem)
  {
    hide Valid, Walk, SelfMapped;
    SelfMappedSame(k.mem, k'.mem);
  }

  lemma FewerBlank(s: Loader, m: nat, n: nat)
    requires BlankPages(s, m) && n <= m
    ensures BlankPages(s, n)
  {
  }

  lemma BlankSame(s: Loader, s': Loader, m: nat)
    requires BlankPages(s, m) && s'.ram == s.ram && s'.free == s.free
    ensures BlankPages(s', m)
  {
  }

  lemma BlankAfterLink(k: Kernel, q: seq<nat>, i: nat, e: nat, m: nat, s': Loader)
    requires Valid(View(k)) && TablePath(q) && i < 512 && Walk(k.mem.ram, k.mem.pml4, q).Some?
    requires BlankPages(k.mem, m) && m > 0 && k.mem.free != [] && s'.free == k.mem.free[1..]
    requires s'.ram == Store(k.mem.ram, 512 * Walk(k.mem.ram, k.mem.pml4, q).value + i, e)
    ensures BlankPages(s', m - 1)
  {
    hide Valid, Walk, Blank, Store;
    forall j | 0 <= j < m - 1 && j < |s'.free|
      ensures Blank(s'.ram, s'.free[j])
    {
      assert s'.free[j] == k.mem.free[j + 1];
      BlankKept(View(k), q, i, e, m, s'.free[j]);
    }
  }

  lemma SelfMappedSame(s: Loader, s': Loader)
    requires SelfMapped(s) && s'.pml4 == s.pml4 && Load(s'.ram, s.pml4, 511) == Load(s.ram, s.pml4, 511)
    ensures SelfMapped(s')
  {
  }

  /** k' is k with frame mapped at path p, whose m missing tables were taken from the front of
      the free list into the caller's list.  Walks that were there are there still, except that
      of p itself, and no walk off p changes. */
  ghost predicate MappedPage(k: Kernel, k': Kernel, p: seq<nat>, frame: nat, m: nat) {
    && Valid(View(k')) && SelfMapped(k'.mem)
    && m <= |k.mem.free| && k'.mem.free == k.mem.free[m..] && k'.mem.rsrv == k.mem.rsrv
    && k'.ptPages == k.ptPages + k.mem.free[..m]
    && Walk(k'.mem.ram, k'.mem.pml4, p) == Some(frame)
    && forall r :: Regular(r) && |r| <= 4 && r != p && (Walk(k.mem.ram, k.mem.pml4, r).Some? || !(r <= p)) ==>
         Walk(k'.mem.ram, k'.mem.pml4, r) == Walk(k.mem.ram, k.mem.pml4, r)
  }

  lemma SlotsInOrder(k: Kernel, virt: nat, phys: nat, flags: nat)
    requires Pml4Index(virt) != 511
    ensures var p := Indices(virt);
            |p| == 4 &&
            MapSinglePage(k, DocumentedSlots(virt), phys, flags)
            == match DescendSlots(k, p, 3, flags)
               case Mapped(k3) => OverwriteEntry(k3, TableVirt(p[..3]) + 8 * p[3], phys, flags)
               case fail => fail
  {
    hide Walk, TableVirt, EnsureEntry, OverwriteEntry, DocumentedSlots, Indices;
    DocumentedSlotsAreTableSlots(virt);
    var p := Indices(virt);
    assert DescendSlots(k, p, 1, flags) == EnsureEntry(k, TableVirt(p[..0]) + 8 * p[0], flags);
    assert DescendSlots(k, p, 2, flags)
        == match DescendSlots(k, p, 1, flags)
           case Mapped(k1) => EnsureEntry(k1, TableVirt(p[..1]) + 8 * p[1], flags)
           case fail => fail;
  }

  lemma LastEntry(k: Kernel, k3: Kernel, p: seq<nat>, phys: nat, m: nat, flags: nat)
    requires |p| == 4 && Regular(p) && CleanFlags(flags) && phys % 0x1000 == 0 && phys < 0x10_0000_0000_0000
    requires Grown(View(k), View(k3), p[..3], m) && k3.mem.rsrv == k.mem.rsrv && SelfMapped(k3.mem)
    ensures var outcome := OverwriteEntry(k3, TableVirt(p[..3]) + 8 * p[3], phys, flags);
            outcome.Mapped? && MappedPage(k, outcome.after, p, phys / 0x1000, m)
  {
    hide Walk, Valid, Load, TableVirt, WordOf, Frame, Present, Entry, SelfMapped, Store;
    PathRegular(p, 3);
    assert p == p[..3] + [p[3]];
    TableSlot(k3.mem, p[..3], p[3]);
    LeafEntry(phys, flags);
    OverwriteIsValid(View(k3), p[..3], p[3], Entry(phys, flags));
    var after := OverwriteEntry(k3, TableVirt(p[..3]) + 8 * p[3], phys, flags).after;
    SelfMappedSame(k3.mem, after.mem);
    assert k3.ptPages == View(k3).rsrv[|k.mem.rsrv|..];
    assert k.ptPages + k.mem.free[..m] == (View(k).rsrv + k.mem.free[..m])[|k.mem.rsrv|..];
    forall r | Regular(r) && |r| <= 4 && r != p && (Walk(k.mem.ram, k.mem.pml4, r).Some? || !(r <= p))
      ensures Walk(after.mem.ram, after.mem.pml4, r) == Walk(k.mem.ram, k.mem.pml4, r)
    {
      assert r <= p[..3] ==> r <= p;
      assert Walk(k3.mem.ram, k3.mem.pml4, r) == Walk(k.mem.ram, k.mem.pml4, r);
    }
  }

  /** In documented order, with blank pages to take, map_single_page maps the page, replacing
      what was there, keeps every walk there was, and takes exactly the missing tables from the
      front of the free list into the caller's list; it fails exactly when those run out. */
  lemma MapSinglePageCorrect(k: Kernel, virt: nat, phys: nat, flags: nat)
    requires Valid(View(k)) && SelfMapped(k.mem) && Pml4Index(virt) != 511
    requires Usable(flags, Missing(View(k), Indices(virt), 3))
    requires phys % 0x1000 == 0 && phys < 0x10_0000_0000_0000
    requires var m := Missing(View(k), Indices(virt), 3); LowPages(k.mem.free, m) && BlankPages(k.mem, m)
    ensures var outcome, m := MapSinglePage(k, DocumentedSlots(virt), phys, flags), Missing(View(k), Indices(virt), 3);
            && (outcome.Mapped? <==> m <= |k.mem.free|) && !outcome.PageFault?
            && (outcome.Mapped? ==> MappedPage(k, outcome.after, Indices(virt), phys / 0x1000, m))
  {
    hide Walk, Indices, Valid, SelfMapped, LowPages, BlankPages, MappedPage, Regular, TableVirt,
         MapSinglePage, DocumentedSlots, OverwriteEntry, DescendSlots, Usable, Missing;
    DocumentedSlotsAreTableSlots(virt);
    SlotsInOrder(k, virt, phys, flags);
    MapAlong(k, Indices(virt), phys, Missing(View(k), Indices(virt), 3), flags);
  }

  lemma MapAlong(k: Kernel, p: seq<nat>, phys: nat, m: nat, flags: nat)
    requires Valid(View(k)) && SelfMapped(k.mem) && |p| == 4 && Regular(p) && Usable(flags, m)
    requires phys % 0x1000 == 0 && phys < 0x10_0000_0000_0000
    requires m == Missing(View(k), p, 3) && LowPages(k.mem.free, m) && BlankPages(k.mem, m)
    ensures match DescendSlots(k, p, 3, flags)
            case Mapped(k3) =>
              var outcome := OverwriteEntry(k3, TableVirt(p[..3]) + 8 * p[3], phys, flags);
              m <= |k.mem.free| && outcome.Mapped? && MappedPage(k, outcome.after, p, phys / 0x1000, m)
            case OutOfMemory(_) => m > |k.mem.free|
            case PageFault => false
  {
    hide Walk, Valid, SelfMapped, LowPages, BlankPages, MappedPage, Regular, TableVirt, OverwriteEntry, DescendSlots,
         CleanFlags, Missing, Grown, Descend;
    SlotsDescend(k, p, 3, m, flags);
    DescendCorrect(View(k), p, 3, flags);
    if DescendSlots(k, p, 3, flags).Mapped? {
      LastEntry(k, DescendSlots(k, p, 3, flags).after, p, phys, m, flags);
    }
  }

  // ----- what the written order reaches

  /** Where tables exist, the written directory and table entries are the right words of
      memory exactly when the swapped indices coincide. */
  lemma WrittenSlotsReach(s: Loader, virt: nat)
    requires Valid(s) && SelfMapped(s) && Pml4Index(virt) != 511
    requires Walk(s.ram, s.pml4, Indices(virt)[..3]).Some?
    ensures WordOf(s, WrittenSlots(virt).pml4e) == WordOf(s, DocumentedSlots(virt).pml4e)
    ensures WordOf(s, WrittenSlots(virt).pdpte) == WordOf(s, DocumentedSlots(virt).pdpte)
    ensures WordOf(s, WrittenSlots(virt).pde) == WordOf(s, DocumentedSlots(virt).pde)
            <==> Pml4Index(virt) == PdptIndex(virt)
    ensures WordOf(s, WrittenSlots(virt).pte) == WordOf(s, DocumentedSlots(virt).pte)
            <==> Pml4Index(virt) == PdIndex(virt)
  {
    hide Walk, Valid, SelfMapped, WordOf, VirtFromIndex;
    var p := Indices(virt);
    DocumentedSlotsAreTableSlots(virt);
    var x, y, z := p[0], p[1], p[2];
    assert p[..2] == [x, y] && p[..3] == [x, y, z];
    WalkPrefix(s.ram, s.pml4, [x, y], [x, y, z]);
    SlotsMeet(s, [x, y], [y, x], z);
    SlotsMeet(s, [x, y, z], [z, y, x], p[3]);
    assert [x, y] == [y, x] <==> x == y by {
      assert [x, y] == [y, x] ==> [x, y][0] == [y, x][0];
    }
    assert [x, y, z] == [z, y, x] <==> x == z by {
      assert [x, y, z] == [z, y, x] ==> [x, y, z][0] == [z, y, x][0];
    }
  }

  /** Two self-mapped slots with the same last index are one word only if they name one table. */
  lemma SlotsMeet(s: Loader, p: seq<nat>, q: seq<nat>, i: nat)
    requires Valid(s) && SelfMapped(s) && TablePath(p) && Walk(s.ram, s.pml4, p).Some? && |q| == |p| && i < 512
    requires forall j :: 0 <= j < |q| ==> q[j] < 512
    ensures WordOf(s, TableVirt(p) + 8 * i) == WordOf(s, TableVirt(q) + 8 * i) <==> p == q
  {
    hide WordOf, TableVirt, Frame, Present;
    TableSlot(s, p, i);
    TableSlot(s, q, i);
    SameTable(s, p, q);
  }

  lemma {:induction false} SameTable(s: Loader, p: seq<nat>, q: seq<nat>)
    requires IsTree(s) && SelfMapped(s) && TablePath(p) && Walk(s.ram, s.pml4, p).Some? && |q| <= |p|
    requires forall j :: 0 <= j < |q| ==> q[j] < 512
    ensures Walk(s.ram, s.pml4, p) == Walk(s.ram, s.pml4, q) ==> p == q || (|q| > 0 && q[0] == 511 && |p| < |q|)
    decreases |q|
  {
    hide Frame, Present, Load;
    if !Regular(q) {
      assert q == [511] + q[1..];
      SelfMapPrefix(s, q[1..]);
      SameTable(s, p, q[1..]);
    }
  }

  // ----- tables that are not zeroed

  /** Linking a page that was not cleared leaves all other walks alone exactly when the page
      happens to hold no present entry. */
  lemma UnzeroedTable(s: Loader, p: seq<nat>, i: nat, page: nat, flags: nat)
    requires Valid(s) && |p| < 3 && Regular(p + [i]) && TablePath(p) && Usable(flags, 1)
    requires Walk(s.ram, s.pml4, p).Some? && Walk(s.ram, s.pml4, p + [i]).None?
    requires page in s.free && page < LOW_PAGES
    ensures var t := Walk(s.ram, s.pml4, p).value;
            var s' := s.(ram := Store(s.ram, 512 * t + i, Entry(page * 0x1000, flags)));
            SameWalksExcept(s, s', p + [i])
            <==> forall j: nat :: j < 512 ==> !Present(Load(s.ram, page, j))
  {
    hide Frame, Present, Entry, Valid, SameWalksExcept, Walk;
    var t := Walk(s.ram, s.pml4, p).value;
    var s' := s.(ram := Store(s.ram, 512 * t + i, Entry(page * 0x1000, flags)));
    LinkEntry(page, flags);
    assert (p + [i])[|p|] == i;
    UnzeroedLoads(s, p, i, page, Entry(page * 0x1000, flags));
    TableInRam(s, p);
    if forall j: nat :: j < 512 ==> !Present(Load(s.ram, page, j)) {
      EmptyTableKeepsWalks(s, s', p, i, page);
    } else {
      var j: nat :| j < 512 && Present(Load(s.ram, page, j));
      StaleWalk(s, s', p, i, j);
    }
  }

  lemma UnzeroedLoads(s: Loader, p: seq<nat>, i: nat, page: nat, e: nat)
    requires Valid(s) && TablePath(p) && Walk(s.ram, s.pml4, p).Some? && page in s.free && i < 512
    ensures Walk(s.ram, s.pml4, p).value != page
    ensures forall t': nat, j: nat | j < 512 ::
              Load(Store(s.ram, 512 * Walk(s.ram, s.pml4, p).value + i, e), t', j)
              == if (t', j) == (Walk(s.ram, s.pml4, p).value, i) then e else Load(s.ram, t', j)
  {
    hide Present, Frame;
    var f :| 0 <= f < |s.free| && s.free[f] == page;
    FreeIsNotReserved(s, f);
    TableInRam(s, p);
  }

  lemma EmptyTableKeepsWalks(s: Loader, s': Loader, p: seq<nat>, i: nat, page: nat)
    requires IsTree(s) && |p| < 3 && Regular(p + [i]) && TablePath(p) && s'.pml4 == s.pml4
    requires Walk(s.ram, s.pml4, p).Some? && Walk(s.ram, s.pml4, p + [i]).None?
    requires var t := Walk(s.ram, s.pml4, p).value;
             && t != page && Present(Load(s'.ram, t, i)) && Frame(Load(s'.ram, t, i)) == page
             && forall t': nat, j: nat | j < 512 && (t', j) != (t, i) ::
                  Load(s'.ram, t', j) == Load(s.ram, t', j)
    requires forall j: nat :: j < 512 ==> !Present(Load(s.ram, page, j))
    ensures SameWalksExcept(s, s', p + [i])
  {
    hide Present, Frame, Load;
    WalkStep(s.ram, s.pml4, p, i);
    forall r | Regular(r) && |r| <= 4 && r != p + [i]
      ensures Walk(s'.ram, s.pml4, r) == Walk(s.ram, s.pml4, r)
    {
      WalkAfterWrite(s, s'.ram, p, i, r);
      if p + [i] <= r && Walk(s.ram, s.pml4, r).Some? {
        WalkPrefix(s.ram, s.pml4, p + [i], r);
      }
    }
  }

  lemma StaleWalk(s: Loader, s': Loader, p: seq<nat>, i: nat, j: nat)
    requires IsTree(s) && |p| < 3 && Regular(p + [i]) && s'.pml4 == s.pml4 && j < 512
    requires Walk(s.ram, s.pml4, p).Some? && Walk(s.ram, s.pml4, p + [i]).None?
    requires var e := Load(s'.ram, Walk(s.ram, s.pml4, p).value, i);
             Present(e) && Present(Load(s'.ram, Frame(e), j))
    ensures !SameWalksExcept(s, s', p + [i])
  {
    hide Frame, Present;
    WalkStep(s'.ram, s.pml4, p, i);
    WalkStep(s.ram, s.pml4, p + [i], j);
    WalkStep(s'.ram, s.pml4, p + [i], j);
    TablePathPrefix(p, i);
    assert Regular(p + [i] + [j]);
    if Walk(s'.ram, s'.pml4, p) == Walk(s.ram, s.pml4, p) {
      assert Walk(s'.ram, s'.pml4, p + [i] + [j]).Some? && Walk(s.ram, s.pml4, p + [i] + [j]).None?;
    }
  }
}
