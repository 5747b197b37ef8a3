/** What the entries of a mapping hold besides addresses: the flags the caller asked for, and what
    the processor makes of those of a whole walk (loader/x86-64-multiboot2/mem.cc,
    arch/x86-64/mmu.cc; Intel SDM Volume 3, section 4.6). */
module Permissions {
  import opened Bits
  import opened Wrappers
  import opened PageEntry
  import opened PageIndex
  import opened PageTable
  import opened PageMapping
  import opened PageSize
  import opened SelfMap
  import opened KernelMapping

  /** A mask outside the present bit and the address bits. */
  predicate FlagMask(mask: nat) {
    And(1, mask) == 0 && And(FRAME_MASK, mask) == 0
  }

  // Flags of an entry
  const WRITABLE := 0x2
  const USER := 0x4
  const EXECUTE_DISABLE := 0x8000_0000_0000_0000

  lemma {:induction false} AndSwaps(a: nat, b: nat)
    ensures And(a, b) == And(b, a)
  {
    if a != 0 && b != 0 {
      AndSwaps(a / 2, b / 2);
    }
  }

  lemma AddressHasNoFlags(address: nat, mask: nat)
    requires address % 0x1000 == 0 && address < 0x10_0000_0000_0000 && And(FRAME_MASK, mask) == 0
    ensures And(address, mask) == 0
  {
    hide And;
    MaskFrameAddress(address);
    AndAssoc(address, FRAME_MASK, mask);
    AndZero(address);
  }

  /** The flags stored with an address are read back. */
  lemma EntryFlags(address: nat, flags: nat, mask: nat)
    requires address % 0x1000 == 0 && address < 0x10_0000_0000_0000 && FlagMask(mask)
    ensures And(Entry(address, flags), mask) == And(flags, mask)
  {
    hide And, Entry;
    AddressHasNoFlags(address, mask);
    EntryMasked(address, flags, mask);
  }

  /** Bit by bit: the flags of the processor are outside all addresses. */
  lemma FlagMasks()
    ensures FlagMask(WRITABLE) && FlagMask(USER) && FlagMask(EXECUTE_DISABLE)
  {
    hide And;
    AndSwaps(FRAME_MASK, WRITABLE);
    AndSwaps(FRAME_MASK, USER);
    AndSwaps(FRAME_MASK, EXECUTE_DISABLE);
    AndSwaps(1, WRITABLE);
    AndSwaps(1, USER);
    AndSwaps(1, EXECUTE_DISABLE);
    AndOne(WRITABLE);
    AndOne(USER);
    AndOne(EXECUTE_DISABLE);
    AndFrameMask(WRITABLE);
    AndFrameMask(USER);
    AndFrameMask(EXECUTE_DISABLE);
  }

  // ----- the entries on a path

  /** The entry that the walk along p goes through at level j. */
  function EntryOn(s: Loader, p: seq<nat>, j: nat): nat
    requires j < |p| && Walk(s.ram, s.pml4, p[..j]).Some?
  {
    Load(s.ram, Walk(s.ram, s.pml4, p[..j]).value, p[j])
  }

  lemma EntryPresentOn(s: Loader, p: seq<nat>, j: nat)
    requires j < |p| && Walk(s.ram, s.pml4, p[..j + 1]).Some?
    ensures Walk(s.ram, s.pml4, p[..j]).Some? && Present(EntryOn(s, p, j))
  {
    hide Present, Frame;
    assert p[..j + 1] == p[..j] + [p[j]];
    WalkStep(s.ram, s.pml4, p[..j], p[j]);
  }

  /** An entry that was present is the same word as before. */
  lemma OldEntry(s: Loader, s': Loader, p: seq<nat>, j: nat)
    requires Valid(s) && Kept(s, s') && Regular(p) && |p| == 4 && j < 4 && Walk(s.ram, s.pml4, p[..j + 1]).Some?
    requires Walk(s'.ram, s'.pml4, p[..j]) == Walk(s.ram, s.pml4, p[..j])
    ensures Walk(s'.ram, s'.pml4, p[..j]).Some? && EntryOn(s', p, j) == EntryOn(s, p, j)
  {
    hide Present, Frame, Walk, Load, Kept;
    EntryPresentOn(s, p, j);
    var t := Walk(s.ram, s.pml4, p[..j]).value;
    assert TablePath(p[..j]) && t in s.rsrv;
    forall k | 0 <= k < |s.free|
      ensures s.free[k] != t
    {
      FreeIsNotReserved(s, k);
    }
    LoadKept(s, s', t, p[j]);
  }

  /** An entry that is made for a table has the flags of the request. */
  lemma {:induction false} NewEntry(s: Loader, p: seq<nat>, n: nat, flags: nat, j: nat, mask: nat)
    requires Valid(s) && Regular(p) && |p| == 4 && n <= 3 && Usable(flags, Missing(s, p, n))
    requires LowPages(s.free, Missing(s, p, n)) && Descend(s, p, n, flags).Some?
    requires j < n && Walk(s.ram, s.pml4, p[..j + 1]).None? && FlagMask(mask)
    ensures var s' := Descend(s, p, n, flags).value.0;
            && Walk(s'.ram, s'.pml4, p[..j]).Some?
            && Present(EntryOn(s', p, j)) && And(EntryOn(s', p, j), mask) == And(flags, mask)
  {
    hide Present, Frame, Walk, Load, Entry, Valid, EnsureTable, And, FlagMask, CleanFlags, Large, Extends;
    var s1, s' := Descend(s, p, n - 1, flags).value.0, Descend(s, p, n, flags).value.0;
    var q, i := p[..n - 1], p[n - 1];
    assert p[..n] == q + [i];
    DescendCorrect(s, p, n - 1, flags);
    StillMissingTable(s, s1, p, n, Missing(s, p, n - 1));
    if Walk(s.ram, s.pml4, p[..n]).Some? {
      PresentTable(s1, q, i, flags);
    } else {
      DescendCorrect(s, p, n, flags);
      LowNext(s, s1, p, n);
      LinkIsValid(s1, q, i, flags);
      OneMade(s1, p, n, flags, j, mask);
    }
    if j < n - 1 {
      NewEntry(s, p, n - 1, flags, j, mask);
    }
  }

  lemma StillMissingTable(s: Loader, s1: Loader, p: seq<nat>, n: nat, k: nat)
    requires 0 < n <= 3 && |p| == 4 && Regular(p) && Grown(s, s1, p[..n - 1], k)
    ensures Walk(s1.ram, s1.pml4, p[..n]) == Walk(s.ram, s.pml4, p[..n]) && Walk(s1.ram, s1.pml4, p[..n - 1]).Some?
    ensures TablePath(p[..n - 1]) && Regular(p[..n])
  {
    hide Walk, Valid, Load;
    assert !(p[..n] <= p[..n - 1]);
  }

  lemma LowNext(s: Loader, s1: Loader, p: seq<nat>, n: nat)
    requires 0 < n <= 3 && |p| == 4 && LowPages(s.free, Missing(s, p, n)) && Walk(s.ram, s.pml4, p[..n]).None?
    requires MovedPages(s, s1, Missing(s, p, n - 1)) && Missing(s, p, n) <= |s.free|
    ensures s1.free != [] && s1.free[0] < LOW_PAGES
  {
    hide Walk;
    assert s1.free[0] == s.free[Missing(s, p, n - 1)];
  }

  /** One table is linked: its entry has the flags, the entries above it stay. */
  lemma OneMade(s: Loader, p: seq<nat>, n: nat, flags: nat, j: nat, mask: nat)
    requires Valid(s) && Regular(p) && |p| == 4 && j < n <= 3 && Usable(flags, 1) && FlagMask(mask)
    requires Walk(s.ram, s.pml4, p[..n - 1]).Some? && Walk(s.ram, s.pml4, p[..n]).None?
    requires s.free != [] && s.free[0] < LOW_PAGES
    ensures var made := EnsureTable(s, Walk(s.ram, s.pml4, p[..n - 1]).value, p[n - 1], flags);
            made.Some? &&
            var s' := made.value.0;
            && Walk(s'.ram, s'.pml4, p[..j]) == Walk(s.ram, s.pml4, p[..j]) && Walk(s.ram, s.pml4, p[..j]).Some?
            && (j < n - 1 ==> EntryOn(s', p, j) == EntryOn(s, p, j))
            && (j == n - 1 ==> Present(EntryOn(s', p, j)) && And(EntryOn(s', p, j), mask) == And(flags, mask))
  {
    hide Present, Frame, Walk, Load, Entry, EnsureTable, And, FlagMask, CleanFlags, Large, Link, LoaderAgrees;
    var q, i, t := p[..n - 1], p[n - 1], Walk(s.ram, s.pml4, p[..n - 1]).value;
    assert p[..n] == q + [i] && TablePath(q) && TablePath(p[..j]);
    LoadsAfterLink(s, q, i, flags);
    LinkIsValid(s, q, i, flags);
    assert p[..j] <= q && p[..j] != p[..n];
    WalkPrefix(s.ram, s.pml4, p[..j], q);
    FreeIsNotReserved(s, 0);
    assert Walk(s.ram, s.pml4, p[..j]).value in s.rsrv;
    EntryFlags(s.free[0] * 0x1000, flags, mask);
    EntryPresent(s.free[0] * 0x1000, flags);
  }

  // ----- map_page

  /** The flags of every entry on the way to the page: as they were where the walk existed, as
      asked for where an entry was made.  No entry on the way to another page changes. */
  lemma MapPageFlags(s: Loader, phys: nat, virt: nat, flags: nat, j: nat, mask: nat)
    requires Valid(s) && Usable(flags, Missing(s, Indices(virt), 3)) && Pml4Index(virt) != 511
    requires phys < 0x10_0000_0000_0000 && LowPages(s.free, Missing(s, Indices(virt), 3))
    requires MapPage(s, phys, virt, flags).Some? && j < 4 && FlagMask(mask)
    ensures var (s', p) := (MapPage(s, phys, virt, flags).value, Indices(virt));
            && |p| == 4 && Walk(s'.ram, s'.pml4, p[..j]).Some?
            && (Walk(s.ram, s.pml4, p[..j + 1]).Some? ==>
                  Walk(s.ram, s.pml4, p[..j]).Some? && EntryOn(s', p, j) == EntryOn(s, p, j))
            && (Walk(s.ram, s.pml4, p[..j + 1]).None? ==>
                  Present(EntryOn(s', p, j)) && And(EntryOn(s', p, j), mask) == And(flags, mask))
  {
    hide Present, Frame, Walk, Load, Entry, Valid, And, FlagMask, CleanFlags, Large, Pml4Index, PdptIndex, PdIndex,
         PtIndex, Descend, SetLeaf, LowPages, Kept;
    IndicesRegular(virt);
    var p, s' := Indices(virt), MapPage(s, phys, virt, flags).value;
    DescendCorrect(s, p, 3, flags);
    var (s3, t) := Descend(s, p, 3, flags).value;
    assert p == p[..3] + [p[3]] && p[3] == PtIndex(virt) && p[..4] == p;
    LeafWalks(s3, p[..3], p[3], phys, flags);
    PrefixWalks(s, s3, s', p, j, Missing(s, p, 3));
    if Walk(s.ram, s.pml4, p[..j + 1]).Some? {
      MapPageKeeps(s, phys, virt, flags);
      EntryPresentOn(s, p, j);
      OldEntry(s, s', p, j);
    } else if j < 3 {
      NewEntry(s, p, 3, flags, j, mask);
      LeafKeepsEntry(s3, p, phys, flags, j);
    } else {
      LeafMade(s3, p, phys, flags, mask);
    }
  }

  lemma PrefixWalks(s: Loader, s3: Loader, s': Loader, p: seq<nat>, j: nat, k: nat)
    requires |p| == 4 && Regular(p) && j < 4 && Grown(s, s3, p[..3], k) && SameWalksExcept(s3, s', p)
    ensures Walk(s'.ram, s'.pml4, p[..j]) == Walk(s3.ram, s3.pml4, p[..j]) && Walk(s3.ram, s3.pml4, p[..j]).Some?
    ensures Walk(s.ram, s.pml4, p[..j]).Some? ==> Walk(s'.ram, s'.pml4, p[..j]) == Walk(s.ram, s.pml4, p[..j])
    ensures Walk(s3.ram, s3.pml4, p) == Walk(s.ram, s.pml4, p)
  {
    hide Walk, Load, Valid;
    assert Regular(p[..j]) && p[..j] != p && p[..j] <= p[..3] && !(p <= p[..3]);
    WalkPrefix(s3.ram, s3.pml4, p[..j], p[..3]);
  }

  lemma MapPageKeeps(s: Loader, phys: nat, virt: nat, flags: nat)
    requires MapPage(s, phys, virt, flags).Some?
    ensures Kept(s, MapPage(s, phys, virt, flags).value)
  {
    hide Kept, SetLeaf;
    var p := Indices(virt);
    DescendKeeps(s, p, 0, 3, flags);
    var (s3, t) := Descend(s, p, 3, flags).value;
    LeafKeeps(s3, t, PtIndex(virt), phys, flags);
    KeptTwice(s, s3, MapPage(s, phys, virt, flags).value);
  }

  lemma LeafKeepsEntry(s: Loader, p: seq<nat>, phys: nat, flags: nat, j: nat)
    requires Valid(s) && |p| == 4 && Regular(p) && j < 3 && Walk(s.ram, s.pml4, p[..3]).Some?
    requires Walk(s.ram, s.pml4, p[..j]).Some?
    ensures var s' := SetLeaf(s, Walk(s.ram, s.pml4, p[..3]).value, p[3], phys, flags);
            Load(s'.ram, Walk(s.ram, s.pml4, p[..j]).value, p[j]) == EntryOn(s, p, j)
  {
    hide Walk, Load, Present, Entry, SetLeaf;
    LeafLoads(s, p[..3], p[3], phys, flags, p[..j], p[j]);
  }

  lemma LeafMade(s: Loader, p: seq<nat>, phys: nat, flags: nat, mask: nat)
    requires Valid(s) && |p| == 4 && Regular(p) && Walk(s.ram, s.pml4, p[..3]).Some? && Walk(s.ram, s.pml4, p).None?
    requires phys % 0x1000 == 0 && phys < 0x10_0000_0000_0000 && FlagMask(mask)
    ensures var t := Walk(s.ram, s.pml4, p[..3]).value;
            var e := Load(SetLeaf(s, t, p[3], phys, flags).ram, t, p[3]);
            Present(e) && And(e, mask) == And(flags, mask)
  {
    hide Walk, Present, Entry, And, FlagMask, Frame;
    assert p == p[..3] + [p[3]] && TablePath(p[..3]);
    WalkStep(s.ram, s.pml4, p[..3], p[3]);
    EntryFlags(phys, flags, mask);
    EntryPresent(phys, flags);
    var t := Walk(s.ram, s.pml4, p[..3]).value;
    assert InRam(s.ram, t);
  }

  // ----- what the processor allows

  /** A flag that must be set at every level: writing, and access from user mode. */
  predicate Granted(s: Loader, p: seq<nat>, mask: nat)
    requires |p| == 4
  {
    forall j :: 0 <= j < 4 ==> Walk(s.ram, s.pml4, p[..j]).Some? && And(EntryOn(s, p, j), mask) != 0
  }

  /** A flag that must be clear at every level: for executing, the execute-disable bit. */
  predicate Clear(s: Loader, p: seq<nat>, mask: nat)
    requires |p| == 4
  {
    forall j :: 0 <= j < 4 ==> Walk(s.ram, s.pml4, p[..j]).Some? && And(EntryOn(s, p, j), mask) == 0
  }

  /** What a page mapped by map_page may be used for: a flag is granted exactly if it is asked for
      and the tables that were there grant it; likewise a flag that must be clear. */
  lemma MapPagePermissions(s: Loader, phys: nat, virt: nat, flags: nat, mask: nat)
    requires Valid(s) && Usable(flags, Missing(s, Indices(virt), 3)) && Pml4Index(virt) != 511
    requires phys < 0x10_0000_0000_0000 && LowPages(s.free, Missing(s, Indices(virt), 3))
    requires MapPage(s, phys, virt, flags).Some? && Walk(s.ram, s.pml4, Indices(virt)).None? && FlagMask(mask)
    ensures var (s', p) := (MapPage(s, phys, virt, flags).value, Indices(virt));
            && |p| == 4
            && (Granted(s', p, mask)
                <==> And(flags, mask) != 0
                     && forall j :: 0 <= j < 3 && Walk(s.ram, s.pml4, p[..j + 1]).Some? ==>
                          Walk(s.ram, s.pml4, p[..j]).Some? && And(EntryOn(s, p, j), mask) != 0)
            && (Clear(s', p, mask)
                <==> And(flags, mask) == 0
                     && forall j :: 0 <= j < 3 && Walk(s.ram, s.pml4, p[..j + 1]).Some? ==>
                          Walk(s.ram, s.pml4, p[..j]).Some? && And(EntryOn(s, p, j), mask) == 0)
  {
    hide Present, Walk, Valid, And, FlagMask, Usable, Pml4Index, PdptIndex, PdIndex, PtIndex, MapPage, LowPages, EntryOn,
         Missing;
    var p := Indices(virt);
    assert p[..4] == p;
    MapPageFlags(s, phys, virt, flags, 0, mask);
    MapPageFlags(s, phys, virt, flags, 1, mask);
    MapPageFlags(s, phys, virt, flags, 2, mask);
    MapPageFlags(s, phys, virt, flags, 3, mask);
  }

  /** No entry on the way to a page that was mapped changes. */
  lemma OtherPagesKeepFlags(s: Loader, phys: nat, virt: nat, flags: nat, q: seq<nat>, j: nat)
    requires Valid(s) && Usable(flags, Missing(s, Indices(virt), 3)) && Pml4Index(virt) != 511
    requires phys < 0x10_0000_0000_0000 && LowPages(s.free, Missing(s, Indices(virt), 3))
    requires MapPage(s, phys, virt, flags).Some? && j < 4
    requires Regular(q) && |q| == 4 && Walk(s.ram, s.pml4, q).Some?
    ensures var s' := MapPage(s, phys, virt, flags).value;
            && Walk(s.ram, s.pml4, q[..j]).Some? && Walk(s'.ram, s'.pml4, q[..j]).Some?
            && EntryOn(s', q, j) == EntryOn(s, q, j)
  {
    hide Present, Walk, Valid, Kept, Usable, Pml4Index, PdptIndex, PdIndex, PtIndex, MapPage, LowPages, Load;
    MapPageCorrect(s, phys, virt, flags);
    MapPageKeeps(s, phys, virt, flags);
    WalkPrefix(s.ram, s.pml4, q[..j + 1], q);
    WalkPrefix(s.ram, s.pml4, q[..j], q);
    assert Regular(q[..j]);
    OldEntry(s, MapPage(s, phys, virt, flags).value, q, j);
  }

  /** The first table's entry for itself can be written, from kernel mode only, and so is not to
      be executed by user code; execution is not disabled. */
  lemma SelfEntryFlags(s: Loader, mask: nat)
    requires SetupPaging(s).Some? && s.free[0] < LOW_PAGES && InRam(s.ram, s.free[0]) && FlagMask(mask)
    ensures var s' := SetupPaging(s).value;
            var e := Load(s'.ram, s'.pml4, 511);
            And(e, mask) == And(3, mask) && And(e, WRITABLE) != 0 && And(e, USER) == 0 && And(e, EXECUTE_DISABLE) == 0
  {
    hide And;
    var page := s.free[0];
    SelfFlags(page, mask);
    FlagMasks();
    SelfFlags(page, WRITABLE);
    SelfFlags(page, USER);
    SelfFlags(page, EXECUTE_DISABLE);
    ThreeFlags();
  }

  lemma ThreeFlags()
    ensures And(3, WRITABLE) == 2 && And(3, USER) == 0 && And(3, EXECUTE_DISABLE) == 0
  {
    assert And(1, 1) == 1;
  }

  lemma SelfFlags(page: nat, mask: nat)
    requires page < LOW_PAGES && FlagMask(mask)
    ensures And(OrSelf(page), mask) == And(3, mask)
  {
    hide And, Or;
    AddressHasNoFlags(page * 0x1000, mask);
    AndOverOr(page * 0x1000, SELF_FLAGS, mask);
    OrOfZero(And(SELF_FLAGS, mask));
  }

  lemma OrOfZero(x: nat)
    ensures Or(0, x) == x
  {
  }

  // ----- map_single_page

  /** In documented order the kernel's call stores the flags as well: in every entry it makes, and
      in the last one whatever was there. */
  lemma MapSinglePageFlags(k: Kernel, virt: nat, phys: nat, flags: nat, j: nat, mask: nat)
    requires Valid(View(k)) && SelfMapped(k.mem) && Pml4Index(virt) != 511
    requires Usable(flags, Missing(View(k), Indices(virt), 3))
    requires phys % 0x1000 == 0 && phys < 0x10_0000_0000_0000
    requires var m := Missing(View(k), Indices(virt), 3); LowPages(k.mem.free, m) && BlankPages(k.mem, m)
    requires MapSinglePage(k, DocumentedSlots(virt), phys, flags).Mapped? && j < 4 && FlagMask(mask)
    ensures var (k', p) := (MapSinglePage(k, DocumentedSlots(virt), phys, flags).after, Indices(virt));
            && |p| == 4 && Walk(k'.mem.ram, k'.mem.pml4, p[..j]).Some?
            && (j == 3 || Walk(k.mem.ram, k.mem.pml4, p[..j + 1]).None? ==>
                  Present(EntryOn(k'.mem, p, j)) && And(EntryOn(k'.mem, p, j), mask) == And(flags, mask))
  {
    hide Walk, Valid, SelfMapped, LowPages, BlankPages, Regular, TableVirt, OverwriteEntry, DescendSlots, Indices, Load,
         CleanFlags, Large, Missing, Extends, Descend, And, FlagMask, DocumentedSlots, MapSinglePage, Present, EntryOn;
    IndicesRegular(virt);
    SlotsInOrder(k, virt, phys, flags);
    var p, m := Indices(virt), Missing(View(k), Indices(virt), 3);
    SlotsDescend(k, p, 3, m, flags);
    DescendCorrect(View(k), p, 3, flags);
    var k3 := DescendSlots(k, p, 3, flags).after;
    LastFlags(k3, p, phys, flags, j, mask);
    if j < 3 && Walk(k.mem.ram, k.mem.pml4, p[..j + 1]).None? {
      NewEntry(View(k), p, 3, flags, j, mask);
      SameEntry(View(k3), k3.mem, p, j);
    }
  }

  lemma SameEntry(s: Loader, s': Loader, p: seq<nat>, j: nat)
    requires s'.ram == s.ram && s'.pml4 == s.pml4 && j < |p| && Walk(s.ram, s.pml4, p[..j]).Some?
    ensures EntryOn(s', p, j) == EntryOn(s, p, j)
  {
  }

  lemma LastFlags(k3: Kernel, p: seq<nat>, phys: nat, flags: nat, j: nat, mask: nat)
    requires Valid(View(k3)) && SelfMapped(k3.mem) && |p| == 4 && Regular(p) && Walk(k3.mem.ram, k3.mem.pml4, p[..3]).Some?
    requires phys % 0x1000 == 0 && phys < 0x10_0000_0000_0000 && FlagMask(mask) && CleanFlags(flags) && j < 4
    ensures var outcome := OverwriteEntry(k3, TableVirt(p[..3]) + 8 * p[3], phys, flags);
            outcome.Mapped? &&
            var k' := outcome.after;
            && Walk(k'.mem.ram, k'.mem.pml4, p[..j]).Some? && Walk(k3.mem.ram, k3.mem.pml4, p[..j]).Some?
            && (j < 3 ==> EntryOn(k'.mem, p, j) == EntryOn(k3.mem, p, j))
            && (j == 3 ==> Present(EntryOn(k'.mem, p, j)) && And(EntryOn(k'.mem, p, j), mask) == And(flags, mask))
  {
    hide Walk, SelfMapped, TableVirt, WordOf, And, FlagMask, Present, Entry, CleanFlags, Frame, Link, Store, Load;
    TableSlot(k3.mem, p[..3], p[3]);
    var t, e := Walk(k3.mem.ram, k3.mem.pml4, p[..3]).value, Entry(phys, flags);
    EntryFlags(phys, flags, mask);
    LeafEntry(phys, flags);
    assert TablePath(p[..3]) && TablePath(if j < 3 then p[..j] else p[..3]);
    OverwriteIsValid(View(k3), p[..3], p[3], e);
    WalkPrefix(k3.mem.ram, k3.mem.pml4, p[..j], p[..3]);
    assert p[..3] + [p[3]] == p && p[..j] != p;
    assert InRam(k3.mem.ram, t);
    if j < 3 {
      StoreElsewhere(k3.mem.ram, t, p[3], e, Walk(k3.mem.ram, k3.mem.pml4, p[..j]).value, p[j]);
    } else {
      StoreHere(k3.mem.ram, t, p[3], e);
    }
  }

  lemma StoreHere(ram: seq<nat>, t: nat, i: nat, e: nat)
    requires InRam(ram, t) && i < 512
    ensures Load(Store(ram, 512 * t + i, e), t, i) == e
  {
  }
}
