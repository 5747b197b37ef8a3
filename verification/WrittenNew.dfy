/** What map_single_page does at the table addresses it really computes, from any state: where a
    table for the page is missing it is made at the swapped indices (arch/x86-64/mmu.cc:26-64). */
module WrittenNew {
  import opened Wrappers
  import opened PageEntry
  import opened PageIndex
  import opened PageTable
  import opened PageMapping
  import opened SelfMap
  import opened KernelMapping
  import opened WrittenOrder

  // ----- the state of the call

  /** A state in which tables for path p can be made: below 4 GiB, of pages that hold only zeros. */
  ghost predicate CanGrow(k: Kernel, p: seq<nat>, m: nat) {
    && Valid(View(k)) && SelfMapped(k.mem) && |p| == 4 && Regular(p) && m == Missing(View(k), p, 3)
    && LowPages(k.mem.free, m) && BlankPages(k.mem, m)
  }

  /** The state after the first two entries. */
  ghost predicate TwoMade(k: Kernel, k2: Kernel, p: seq<nat>) {
    && TablesUpTo(k2, p, 2) && k2.mem.rsrv == k.mem.rsrv
    && Grown(View(k), View(k2), p[..2], Missing(View(k), p, 2))
  }

  lemma MissingSplit(s: Loader, p: seq<nat>)
    requires |p| == 4
    ensures Missing(s, p, 3) == Missing(s, p, 2) + if Walk(s.ram, s.pml4, p[..3]).None? then 1 else 0
  {
  }

  lemma FirstTwoMade(k: Kernel, p: seq<nat>, m: nat, flags: nat)
    requires CanGrow(k, p, m) && Usable(flags, 1)
    ensures var two := DescendSlots(k, p, 2, flags);
            && (two.Mapped? ==> TwoMade(k, two.after, p) && BlankPages(two.after.mem, m - Missing(View(k), p, 2)))
            && (two.Mapped? <==> Missing(View(k), p, 2) <= |k.mem.free|) && !two.PageFault?
  {
    hide Walk, Valid, SelfMapped, LowPages, BlankPages, DescendSlots, CleanFlags, Large, Missing, Descend, Regular;
    MissingSplit(View(k), p);
    FewerLow(k.mem.free, m, Missing(View(k), p, 2));
    SlotsDescend(k, p, 2, m, flags);
    DescendCorrect(View(k), p, 2, flags);
  }

  lemma FewerLow(free: seq<nat>, m: nat, n: nat)
    requires LowPages(free, m) && n <= m
    ensures LowPages(free, n)
  {
  }

  /** What the written call comes to, unless the page's three upper indices are equal and its
      last table is missing: then its addresses are the documented ones. */
  lemma WrittenOutcome(k: Kernel, p: seq<nat>, m: nat, phys: nat, flags: nat)
    requires CanGrow(k, p, m) && Usable(flags, 1)
    requires p[0] == p[1] == p[2] ==> Walk(k.mem.ram, k.mem.pml4, p[..3]).Some?
    ensures var two := DescendSlots(k, p, 2, flags);
            && (two.Mapped? ==> TwoMade(k, two.after, p))
            && (two.Mapped? <==> Missing(View(k), p, 2) <= |k.mem.free|) && !two.PageFault?
            && MapSinglePage(k, SlotsOf(p), phys, flags)
               == if two.Mapped? then AtSwapped(two.after, p, phys, flags) else two
  {
    hide Walk, Valid, SelfMapped, LowPages, BlankPages, DescendSlots, Usable, Missing, MapSinglePage, AtSwapped, LastTwo;
    FirstTwoMade(k, p, m, flags);
    FirstThenLast(k, p, phys, flags);
    if DescendSlots(k, p, 2, flags).Mapped? {
      var k2 := DescendSlots(k, p, 2, flags).after;
      StillThere(View(k), View(k2), p);
      LastTwoOutcome(k2, p, phys, flags);
    }
  }

  lemma StillThere(s: Loader, s2: Loader, p: seq<nat>)
    requires |p| == 4 && Regular(p) && Grown(s, s2, p[..2], Missing(s, p, 2))
    ensures Walk(s2.ram, s2.pml4, p[..3]) == Walk(s.ram, s.pml4, p[..3])
    ensures Walk(s2.ram, s2.pml4, p[..2]).Some?
  {
    hide Walk, Valid, Load;
    PathRegular(p, 3);
  }

  // ----- different indices: the page stays unmapped, or a table of another page is made

  /** Writing a present entry keeps any walk that is not longer than the one to that entry. */
  lemma WriteKeepsSome(s: Loader, q: seq<nat>, i: nat, e: nat, r: seq<nat>)
    requires IsTree(s) && TablePath(q) && Regular(q + [i]) && i < 512 && Present(e)
    requires Walk(s.ram, s.pml4, q).Some? && InRam(s.ram, Walk(s.ram, s.pml4, q).value)
    requires Regular(r) && |r| <= |q| + 1 && Walk(s.ram, s.pml4, r).Some?
    ensures Walk(Store(s.ram, 512 * Walk(s.ram, s.pml4, q).value + i, e), s.pml4, r).Some?
  {
    hide Present, Frame, IsTree, Load, Store, Walk;
    var t := Walk(s.ram, s.pml4, q).value;
    if q + [i] <= r {
      assert r == q + [i];
      OffPathWalks(s, q, i, e, q);
      StoreOne(s.ram, t, i, e, t, i);
      WalkStep(Store(s.ram, 512 * t + i, e), s.pml4, q, i);
    } else {
      OffPathWalks(s, q, i, e, r);
    }
  }

  /** A page taken for an entry at the swapped indices becomes a table there. */
  lemma TableTaken(k: Kernel, q: seq<nat>, i: nat, flags: nat)
    requires Valid(View(k)) && SelfMapped(k.mem) && |q| < 3 && Regular(q + [i]) && TablePath(q) && Usable(flags, 1)
    requires Walk(k.mem.ram, k.mem.pml4, q).Some? && Walk(k.mem.ram, k.mem.pml4, q + [i]).None?
    requires k.mem.free != [] && LowPages(k.mem.free, 1) && BlankPages(k.mem, 1)
    ensures var k' := Taken(k, Walk(k.mem.ram, k.mem.pml4, q).value, i, flags);
            Valid(View(k')) && SelfMapped(k'.mem) && Walk(k'.mem.ram, k'.mem.pml4, q + [i]).Some?
  {
    hide Present, Frame, Entry, Store, Load, Valid, Large, ZeroPage, CleanFlags;
    var t := Walk(k.mem.ram, k.mem.pml4, q).value;
    WalkStep(k.mem.ram, k.mem.pml4, q, i);
    LinkIsValid(View(k), q, i, flags);
    TakenView(k, t, i, flags);
    hide EnsureTable, Taken, Walk;
    SelfMappedSame(k.mem, Taken(k, t, i, flags).mem);
  }

  /** Where the third entry lies if the first two indices differ. */
  lemma CrossedPath(p: seq<nat>)
    requires |p| == 4 && Regular(p) && p[0] != p[1]
    ensures var a := Strip([p[1], p[0]]) + [p[2]];
            a == p[..2] || (!(a <= p) && !(a <= p[..2]) && |a| <= |Strip([p[2], p[1], p[0]])| + 1 <= 4)
  {
    var x, y, z := p[0], p[1], p[2];
    assert Strip([x]) == [x];
    assert [y, x][1..] == [x];
    assert [z, y, x][1..] == [y, x];
    var a := Strip([y, x]) + [z];
    if y == 511 {
      assert a == [x, z];
      assert z == 511 ==> a == p[..2];
    } else {
      assert a == [y, x, z];
    }
  }

  /** If the first two indices differ, the third entry is no table of the page: either too few
      pages are taken, or one of them becomes a table elsewhere and stays one. */
  lemma Crossed(k: Kernel, k2: Kernel, p: seq<nat>, m: nat, phys: nat, flags: nat)
    requires CanGrow(k, p, m) && Walk(k.mem.ram, k.mem.pml4, p[..3]).None? && TwoMade(k, k2, p)
    requires BlankPages(k2.mem, 1) && LowPages(k2.mem.free, 1)
    requires p[0] != p[1] && Usable(flags, 1) && phys % 0x1000 == 0 && phys < 0x10_0000_0000_0000
    ensures var outcome := AtSwapped(k2, p, phys, flags);
            !(outcome.Mapped? && MappedPage(k, outcome.after, p, phys / 0x1000, m))
  {
    hide Walk, Valid, SelfMapped, LowPages, BlankPages, Usable, Strip, Regular, Store, Entry, Load, TablePath, Taken;
    MissingSplit(View(k), p);
    var outcome := AtSwapped(k2, p, phys, flags);
    var (ram, root, q) := (k2.mem.ram, k2.mem.pml4, [p[1], p[0]]);
    assert q + [p[2]] == [p[1], p[0], p[2]];
    if outcome.Mapped? && MappedPage(k, outcome.after, p, phys / 0x1000, m) {
      assert Walk(ram, root, q + [p[2]]).None?;
      CrossedTable(k, k2, p, phys, flags);
    }
  }

  lemma CrossedTable(k: Kernel, k2: Kernel, p: seq<nat>, phys: nat, flags: nat)
    requires TwoMade(k, k2, p) && k2.mem.free != [] && BlankPages(k2.mem, 1) && LowPages(k2.mem.free, 1)
    requires p[0] != p[1] && Usable(flags, 1) && phys % 0x1000 == 0 && phys < 0x10_0000_0000_0000
    requires Walk(k2.mem.ram, k2.mem.pml4, [p[1], p[0]]).Some?
    requires Walk(k2.mem.ram, k2.mem.pml4, [p[1], p[0], p[2]]).None?
    requires Walk(k2.mem.ram, k2.mem.pml4, [p[2], p[1], p[0]]).Some?
    ensures var a, after := Strip([p[1], p[0]]) + [p[2]], AtSwapped(k2, p, phys, flags).after;
            && Regular(a) && |a| <= 4 && !(a <= p)
            && Walk(after.mem.ram, after.mem.pml4, a).Some? && Walk(k.mem.ram, k.mem.pml4, a).None?
  {
    hide Walk, Valid, SelfMapped, LowPages, BlankPages, Strip, Regular, Store, Entry, Load, TablePath, Taken, Large;
    var (ram, root, q, r) := (k2.mem.ram, k2.mem.pml4, [p[1], p[0]], [p[2], p[1], p[0]]);
    assert q + [p[2]] == [p[1], p[0], p[2]];
    RegularParts(p);
    SameWords(k2, 0);
    SwappedWalks(View(k2), q, p[2]);
    CrossedPath(p);
    var q', r', a := Strip(q), Strip(r), Strip(q) + [p[2]];
    assert |q'| < 3;
    TableTaken(k2, q', p[2], flags);
    TakenElsewhere(k2, p, flags);
    var k3 := Taken(k2, Walk(ram, root, q).value, p[2], flags);
    SameWords(k3, 0);
    SwappedWalks(View(k3), r, p[3]);
    TableInRam(View(k3), r');
    LeafEntry(phys, flags);
    WriteKeepsSome(View(k3), r', p[3], Entry(phys, flags), a);
  }

  // ----- equal first two indices: the tables are made, and another last entry is written

  /** The state after three entries in documented order. */
  ghost predicate ThreeMade(k: Kernel, k3: Kernel, p: seq<nat>, m: nat) {
    && |p| == 4 && Regular(p) && Valid(View(k)) && k3.mem.rsrv == k.mem.rsrv && SelfMapped(k3.mem)
    && Grown(View(k), View(k3), p[..3], m) && Walk(k.mem.ram, k.mem.pml4, p[..3]).None?
  }

  /** The third index differs: unless the last entry is the one of the page's own new table, the
      page is not mapped. */
  lemma Aside(k: Kernel, k3: Kernel, p: seq<nat>, m: nat, phys: nat, flags: nat)
    requires ThreeMade(k, k3, p, m) && p[0] == p[1] != p[2] && !(p[2] == p[3] == 511)
    ensures var outcome := OverwriteEntry(k3, SlotsOf(p).pte, phys, flags);
            outcome.Mapped? ==> Walk(outcome.after.mem.ram, outcome.after.mem.pml4, p).None?
  {
    hide Walk, Valid, SelfMapped, Strip, Store, Entry, Load, TablePath, TableVirt, WordOf, Present, Frame, IsTree, Extends;
    var r := [p[2], p[1], p[0]];
    RegularParts(p);
    TableSlot(k3.mem, r, p[3]);
    SameWords(k3, 0);
    SwappedWalks(View(k3), r, p[3]);
    AsidePath(p);
    NotMapped(k, k3, p, m);
    if Walk(k3.mem.ram, k3.mem.pml4, r).Some? {
      TableInRam(View(k3), Strip(r));
      OffPathWalks(View(k3), Strip(r), p[3], Entry(phys, flags), p);
    }
  }

  lemma AsidePath(p: seq<nat>)
    requires |p| == 4 && Regular(p) && p[0] == p[1] != p[2]
    ensures Strip([p[2], p[1], p[0]]) + [p[3]] <= p <==> p[2] == p[3] == 511
    ensures p[2] == 511 ==> Strip([p[2], p[1], p[0]]) == p[..2]
  {
    var x, y, z := p[0], p[1], p[2];
    assert Strip([y, x]) == [y, x];
    assert [z, y, x][1..] == [y, x];
    var a := Strip([z, y, x]) + [p[3]];
    if a <= p {
      assert a[0] == p[0] && a[2] == p[2];
    }
  }

  lemma NotMapped(k: Kernel, k3: Kernel, p: seq<nat>, m: nat)
    requires ThreeMade(k, k3, p, m)
    ensures Walk(k3.mem.ram, k3.mem.pml4, p).None?
  {
    hide Valid, SelfMapped, Walk;
    if Walk(k.mem.ram, k.mem.pml4, p).Some? {
      WalkPrefix(k.mem.ram, k.mem.pml4, p[..3], p);
      assert false;
    }
    assert !(p <= p[..3]);
  }

  // ----- the one other case: a page that is its own table

  /** Pages other than the first n tables on p hold what they held before, and those of the tables
      that are new were free. */
  ghost predicate TouchedOnly(k: Kernel, k': Kernel, p: seq<nat>, n: nat)
    requires n <= |p|
  {
    && (forall f: nat, j: nat | j < 512 ::
          (forall i :: 0 <= i < n ==> Walk(k'.mem.ram, k'.mem.pml4, p[..i]) != Some(f))
          ==> Load(k'.mem.ram, f, j) == Load(k.mem.ram, f, j))
    && forall i :: 0 <= i <= n && Walk(k.mem.ram, k.mem.pml4, p[..i]).None? ==>
         var t := Walk(k'.mem.ram, k'.mem.pml4, p[..i]); t.Some? && t.value in k.mem.free
  }

  /** Making the tables of a page only writes to tables of that page. */
  lemma {:induction false} SlotsTouchOnly(k: Kernel, p: seq<nat>, n: nat, m: nat, flags: nat)
    requires CanGrow(k, p, m) && n <= 3 && Usable(flags, 1) && DescendSlots(k, p, n, flags).Mapped?
    ensures TouchedOnly(k, DescendSlots(k, p, n, flags).after, p, n)
  {
    hide Walk, Valid, SelfMapped, LowPages, BlankPages, Usable, EnsureEntry, Load, Missing, TableVirt, Regular, Descend;
    if n > 0 {
      var q, i := p[..n - 1], p[n - 1];
      var k1, k' := DescendSlots(k, p, n - 1, flags).after, DescendSlots(k, p, n, flags).after;
      SlotsTouchOnly(k, p, n - 1, m, flags);
      MissingGrows(View(k), p, n);
      FewerLow(k.mem.free, m, Missing(View(k), p, n - 1));
      FewerLow(k.mem.free, m, Missing(View(k), p, n));
      UsableFewer(flags, Missing(View(k), p, n - 1));
      SlotsDescend(k, p, n - 1, m, flags);
      DescendCorrect(View(k), p, n - 1, flags);
      assert p[..n] == q + [i];
      OneTouched(k, k1, p, n, m, flags);
      forall f: nat, j: nat | j < 512 && forall i' :: 0 <= i' < n ==> Walk(k'.mem.ram, k'.mem.pml4, p[..i']) != Some(f)
        ensures Load(k'.mem.ram, f, j) == Load(k.mem.ram, f, j)
      {
        assert forall i' :: 0 <= i' < n ==> Walk(k'.mem.ram, k'.mem.pml4, p[..i']) == Walk(k1.mem.ram, k1.mem.pml4, p[..i']);
      }
      forall i' | 0 <= i' <= n && Walk(k.mem.ram, k.mem.pml4, p[..i']).None?
        ensures var t := Walk(k'.mem.ram, k'.mem.pml4, p[..i']); t.Some? && t.value in k.mem.free
      {
        if i' < n {
          assert Walk(k'.mem.ram, k'.mem.pml4, p[..i']) == Walk(k1.mem.ram, k1.mem.pml4, p[..i']);
        }
      }
    } else {
      assert p[..0] == [];
      RootWalks(k.mem);
    }
  }

  lemma RootWalks(s: Loader)
    ensures Walk(s.ram, s.pml4, []).Some?
  {
  }

  lemma UsableFewer(flags: nat, n: nat)
    requires Usable(flags, 1)
    ensures Usable(flags, n)
  {
  }

  lemma MissingGrows(s: Loader, p: seq<nat>, n: nat)
    requires |p| == 4 && 0 < n <= 3
    ensures Missing(s, p, n) == Missing(s, p, n - 1) + if Walk(s.ram, s.pml4, p[..n]).None? then 1 else 0
    ensures Missing(s, p, n) <= Missing(s, p, 3)
  {
    assert Missing(s, p, 2) <= Missing(s, p, 3) && Missing(s, p, 1) <= Missing(s, p, 2);
  }

  lemma OneTouched(k: Kernel, k1: Kernel, p: seq<nat>, n: nat, m: nat, flags: nat)
    requires CanGrow(k, p, m) && 0 < n <= 3 && Usable(flags, 1) && SelfMapped(k1.mem)
    requires Grown(View(k), View(k1), p[..n - 1], Missing(View(k), p, n - 1))
    requires Missing(View(k), p, n - 1) <= m && BlankPages(k1.mem, m - Missing(View(k), p, n - 1))
    requires EnsureEntry(k1, TableVirt(p[..n - 1]) + 8 * p[n - 1], flags).Mapped?
    ensures var k' := EnsureEntry(k1, TableVirt(p[..n - 1]) + 8 * p[n - 1], flags).after;
            && (forall i :: 0 <= i < n ==> Walk(k'.mem.ram, k'.mem.pml4, p[..i]) == Walk(k1.mem.ram, k1.mem.pml4, p[..i]))
            && forall f: nat, j: nat | j < 512 && Walk(k1.mem.ram, k1.mem.pml4, p[..n - 1]) != Some(f) ::
                 Load(k'.mem.ram, f, j) == Load(k1.mem.ram, f, j)
    ensures var k' := EnsureEntry(k1, TableVirt(p[..n - 1]) + 8 * p[n - 1], flags).after;
            var t := Walk(k'.mem.ram, k'.mem.pml4, p[..n]);
            Walk(k.mem.ram, k.mem.pml4, p[..n]).None? ==> t.Some? && t.value in k.mem.free
  {
    hide Walk, Valid, SelfMapped, BlankPages, EnsureEntry, Load, TableVirt, Store, Entry, EnsureTable, CleanFlags, Large,
         Present, Frame, Extends, Missing;
    var q, i := p[..n - 1], p[n - 1];
    var k' := EnsureEntry(k1, TableVirt(q) + 8 * i, flags).after;
    assert p[..n] == q + [i];
    PathRegular(p, n - 1);
    PathRegular(p, n);
    MissingGrows(View(k), p, n);
    GrownFacts(View(k), View(k1), q, i, Missing(View(k), p, n - 1));
    if Walk(k1.mem.ram, k1.mem.pml4, p[..n]).None? {
      FewerBlank(k1.mem, m - Missing(View(k), p, n - 1), 1);
    }
    EntryIsTable(k1, q, i, flags);
    if Walk(k1.mem.ram, k1.mem.pml4, p[..n]).None? {
      var t := Walk(k1.mem.ram, k1.mem.pml4, q).value;
      assert k1.mem.free[0] == k.mem.free[Missing(View(k), p, n - 1)];
      LinkIsValid(View(k1), q, i, flags);
      forall f: nat, j: nat | j < 512 && f != t
        ensures Load(k'.mem.ram, f, j) == Load(k1.mem.ram, f, j)
      {
        StoreElsewhere(k1.mem.ram, t, i, Entry(k1.mem.free[0] * 0x1000, flags), f, j);
      }
      forall i' | 0 <= i' < n
        ensures Walk(k'.mem.ram, k'.mem.pml4, p[..i']) == Walk(k1.mem.ram, k1.mem.pml4, p[..i'])
      {
        PathRegular(p, i');
        assert p[..i'] != p[..n];
      }
    }
  }

  /** Frame f is a reserved page below 4 GiB that is no table yet and whose last entry, its only
      present one, names the page itself. */
  ghost predicate NamesItself(k: Kernel, f: nat) {
    && f in View(k).rsrv && f < LOW_PAGES && InRam(k.mem.ram, f)
    && (forall q :: TablePath(q) ==> Walk(k.mem.ram, k.mem.pml4, q) != Some(f))
    && Present(Load(k.mem.ram, f, 511)) && Frame(Load(k.mem.ram, f, 511)) == f
    && forall j: nat :: j < 511 ==> !Present(Load(k.mem.ram, f, j))
  }

  /** k' is k3 with frame f in place of the table at the end of p[..3]. */
  ghost predicate Replaced(k3: Kernel, k': Kernel, p: seq<nat>, f: nat, e: nat)
    requires |p| == 4
  {
    var t := Walk(k3.mem.ram, k3.mem.pml4, p[..2]);
    && t.Some? && k' == k3.(mem := k3.mem.(ram := k'.mem.ram)) && |k'.mem.ram| == |k3.mem.ram|
    && (forall t': nat, j: nat | j < 512 ::
          Load(k'.mem.ram, t', j) == if (t', j) == (t.value, 511) then e else Load(k3.mem.ram, t', j))
    && (forall r :: Regular(r) && |r| <= 4 && !(p[..3] <= r) ==>
          Walk(k'.mem.ram, k'.mem.pml4, r) == Walk(k3.mem.ram, k3.mem.pml4, r))
    && Walk(k'.mem.ram, k'.mem.pml4, p[..3]) == Some(f)
    && forall j: nat ::
         Walk(k'.mem.ram, k'.mem.pml4, p[..3] + [j])
         == var e' := Load(k'.mem.ram, f, j); if Present(e') then Some(Frame(e')) else None
  }

  /** What the last entry comes to if it is the one of the page's new table. */
  lemma ReplacedBy(k: Kernel, k3: Kernel, p: seq<nat>, m: nat, phys: nat, flags: nat)
    requires ThreeMade(k, k3, p, m) && p[0] == p[1] && p[2] == p[3] == 511
    requires Usable(flags, 1) && phys % 0x1000 == 0 && phys < 0x10_0000_0000_0000
    ensures var outcome := OverwriteEntry(k3, SlotsOf(p).pte, phys, flags);
            outcome.Mapped? && Replaced(k3, outcome.after, p, phys / 0x1000, Entry(phys, flags))
  {
    hide Walk, Valid, SelfMapped, Strip, Store, Entry, Load, TableVirt, WordOf, Present, Frame, CleanFlags, Large, Extends, IsTree;
    var r, q, e := [p[2], p[1], p[0]], p[..2], Entry(phys, flags);
    RegularParts(p);
    TableSlot(k3.mem, r, 511);
    SameWords(k3, 0);
    SwappedWalks(View(k3), r, 511);
    AsidePath(p);
    PathRegular(p, 2);
    WalkPrefix(k3.mem.ram, k3.mem.pml4, q, p[..3]);
    assert p[..3] == q + [511];
    TableInRam(View(k3), q);
    LeafEntry(phys, flags);
    var t := Walk(k3.mem.ram, k3.mem.pml4, q).value;
    var k' := OverwriteEntry(k3, SlotsOf(p).pte, phys, flags).after;
    forall t': nat, j: nat | j < 512
      ensures Load(k'.mem.ram, t', j) == if (t', j) == (t, 511) then e else Load(k3.mem.ram, t', j)
    {
      StoreOne(k3.mem.ram, t, 511, e, t', j);
    }
    forall r | Regular(r) && |r| <= 4 && !(p[..3] <= r)
      ensures Walk(k'.mem.ram, k'.mem.pml4, r) == Walk(k3.mem.ram, k3.mem.pml4, r)
    {
      OffPathWalks(View(k3), q, 511, e, r);
    }
    WalkStep(k'.mem.ram, k'.mem.pml4, q, 511);
    forall j: nat
      ensures Walk(k'.mem.ram, k'.mem.pml4, p[..3] + [j])
              == var e' := Load(k'.mem.ram, phys / 0x1000, j); if Present(e') then Some(Frame(e')) else None
    {
      WalkStep(k'.mem.ram, k'.mem.pml4, p[..3], j);
    }
    StoreSize(k3.mem.ram, 512 * t + 511, e);
  }

  lemma StoreSize(ram: seq<nat>, word: nat, e: nat)
    ensures |Store(ram, word, e)| == |ram|
  {
  }

  /** A page none of the tables on p, seen through the call. */
  lemma SameContents(k: Kernel, k3: Kernel, k': Kernel, p: seq<nat>, f: nat, e: nat, j: nat)
    requires |p| == 4 && TouchedOnly(k, k3, p, 3) && Replaced(k3, k', p, f, e) && j < 512
    requires forall i :: 0 <= i < 3 ==> Walk(k3.mem.ram, k3.mem.pml4, p[..i]) != Some(f)
    ensures Load(k'.mem.ram, f, j) == Load(k.mem.ram, f, j)
  {
    hide Walk, Load;
    assert Walk(k3.mem.ram, k3.mem.pml4, p[..2]) != Some(f);
  }

  /** If the page is mapped as it should be, the frame must have been a table of its own kind. */
  lemma MappedNamesItself(k: Kernel, k3: Kernel, k': Kernel, p: seq<nat>, m: nat, f: nat, e: nat)
    requires ThreeMade(k, k3, p, m) && p[2] == p[3] == 511 && TouchedOnly(k, k3, p, 3) && Replaced(k3, k', p, f, e)
    requires BlankPages(k.mem, m) && MappedPage(k, k', p, f, m)
    ensures NamesItself(k, f)
  {
    hide Walk, Load, Present, Frame, SelfMapped, BlankPages, Blank, ListsValid, LoaderAgrees, Link;
    PathRegular(p, 3);
    assert TablePath(p[..3]) && Walk(k'.mem.ram, k'.mem.pml4, p[..3]) == Some(f);
    assert p == p[..3] + [511];
    forall i | 0 <= i < 3
      ensures Walk(k3.mem.ram, k3.mem.pml4, p[..i]) != Some(f)
    {
      PathRegular(p, i);
      assert !(p[..3] <= p[..i]) && p[..i] != p[..3];
    }
    SameContents(k, k3, k', p, f, e, 511);
    forall j: nat | j < 511
      ensures !Present(Load(k.mem.ram, f, j))
    {
      SameContents(k, k3, k', p, f, e, j);
      StillNone(k, k', p, m, f, j);
    }
    forall q | TablePath(q)
      ensures Walk(k.mem.ram, k.mem.pml4, q) != Some(f)
    {
      if Walk(k.mem.ram, k.mem.pml4, q) == Some(f) {
        assert Walk(k'.mem.ram, k'.mem.pml4, q) == Some(f);
      }
    }
    assert f in View(k').rsrv && f < LOW_PAGES && InRam(k'.mem.ram, f);
    NotTaken(k, m, f);
    assert View(k').rsrv == View(k).rsrv + k.mem.free[..m];
  }

  lemma NotTaken(k: Kernel, m: nat, f: nat)
    requires BlankPages(k.mem, m) && m <= |k.mem.free| && Present(Load(k.mem.ram, f, 511))
    ensures f !in k.mem.free[..m]
  {
    assert !Present(0);
    forall i | 0 <= i < m
      ensures !Present(Load(k.mem.ram, k.mem.free[i], 511))
    {
      assert Blank(k.mem.ram, k.mem.free[i]);
    }
  }

  lemma StillNone(k: Kernel, k': Kernel, p: seq<nat>, m: nat, f: nat, j: nat)
    requires MappedPage(k, k', p, f, m) && |p| == 4 && Regular(p) && p[3] == 511 && j < 511
    requires Walk(k.mem.ram, k.mem.pml4, p[..3]).None?
    ensures Walk(k'.mem.ram, k'.mem.pml4, p[..3] + [j]).None?
  {
    hide Walk, Valid, SelfMapped;
    var r := p[..3] + [j];
    assert r[3] == j && Regular(r) && r != p && r[..3] == p[..3];
    if Walk(k.mem.ram, k.mem.pml4, r).Some? {
      WalkPrefix(k.mem.ram, k.mem.pml4, p[..3], r);
    }
  }

  /** Such a frame is none of the tables either before or after they are made. */
  lemma NoTable(k: Kernel, k3: Kernel, p: seq<nat>, m: nat, f: nat, q: seq<nat>)
    requires ThreeMade(k, k3, p, m) && TouchedOnly(k, k3, p, 3) && NamesItself(k, f) && TablePath(q)
    ensures Walk(k3.mem.ram, k3.mem.pml4, q) != Some(f)
  {
    hide Walk, Load, Present, Frame, SelfMapped, LoaderAgrees, IsTree, TablesReserved;
    NotFree(k, f);
    if Walk(k.mem.ram, k.mem.pml4, q).None? && q <= p[..3] {
      assert q == p[..|q|];
    }
  }

  lemma NotFree(k: Kernel, f: nat)
    requires ListsValid(View(k)) && f in View(k).rsrv
    ensures f !in k.mem.free
  {
    forall i | 0 <= i < |k.mem.free|
      ensures k.mem.free[i] != f
    {
      FreeIsNotReserved(View(k), i);
    }
  }

  lemma ReplacedIsValid(k: Kernel, k3: Kernel, k': Kernel, p: seq<nat>, m: nat, f: nat, flags: nat)
    requires ThreeMade(k, k3, p, m) && p[2] == 511 && TouchedOnly(k, k3, p, 3) && NamesItself(k, f) && Usable(flags, 1)
    requires Replaced(k3, k', p, f, Entry(f * 0x1000, flags))
    ensures Valid(View(k')) && SelfMapped(k'.mem)
  {
    hide Walk, Load, Present, Frame, Entry, CleanFlags, Large, Link;
    var s3, s', q := View(k3), View(k'), p[..2];
    assert p[..3] == q + [511];
    PathRegular(p, 2);
    PathRegular(p, 3);
    LinkEntry(f, flags);
    assert s'.free + s'.rsrv == s3.free + s3.rsrv;
    forall r | TablePath(r)
      ensures Walk(s'.ram, s'.pml4, r) == if r == p[..3] then Some(f) else Walk(s3.ram, s3.pml4, r)
      ensures Walk(s3.ram, s3.pml4, r) != Some(f)
    {
      NoTable(k, k3, p, m, f, r);
    }
    assert f in s3.rsrv;
    assert TablesReserved(s') && IsTree(s');
    forall r, j | TablePath(r + [j]) && Walk(s'.ram, s'.pml4, r).Some?
      ensures var e := Load(s'.ram, Walk(s'.ram, s'.pml4, r).value, j); Present(e) ==> Link(e)
    {
      TablePathPrefix(r, j);
      assert r != p[..3];
    }
    NotTheRoot(s3, q);
    SelfMappedSame(k3.mem, k'.mem);
  }

  lemma NamesItselfWalk(k: Kernel, k3: Kernel, k': Kernel, p: seq<nat>, m: nat, f: nat, e: nat, r: seq<nat>)
    requires ThreeMade(k, k3, p, m) && p[2] == p[3] == 511 && TouchedOnly(k, k3, p, 3) && NamesItself(k, f)
    requires Replaced(k3, k', p, f, e) && Regular(r) && |r| <= 4 && (Walk(k.mem.ram, k.mem.pml4, r).Some? || !(r < p))
    ensures Walk(k'.mem.ram, k'.mem.pml4, r) == if r == p then Some(f) else Walk(k.mem.ram, k.mem.pml4, r)
  {
    hide Walk, Load, Present, Frame, Valid, SelfMapped;
    if p[..3] <= r {
      if Walk(k.mem.ram, k.mem.pml4, r).Some? {
        WalkPrefix(k.mem.ram, k.mem.pml4, p[..3], r);
        assert false;
      }
      assert r != p[..3] && r == p[..3] + [r[3]] && p == p[..3] + [511];
      OffItsPath(k, k3, p, m, f);
      SameContents(k, k3, k', p, f, e, r[3]);
    } else {
      assert r <= p[..3] ==> r <= p;
      assert Walk(k3.mem.ram, k3.mem.pml4, r) == Walk(k.mem.ram, k.mem.pml4, r);
    }
  }

  lemma OffItsPath(k: Kernel, k3: Kernel, p: seq<nat>, m: nat, f: nat)
    requires ThreeMade(k, k3, p, m) && TouchedOnly(k, k3, p, 3) && NamesItself(k, f)
    ensures forall i :: 0 <= i < 3 ==> Walk(k3.mem.ram, k3.mem.pml4, p[..i]) != Some(f)
  {
    hide Walk, Valid, SelfMapped, NamesItself, TouchedOnly;
    forall i | 0 <= i < 3
      ensures Walk(k3.mem.ram, k3.mem.pml4, p[..i]) != Some(f)
    {
      PathRegular(p, i);
      NoTable(k, k3, p, m, f, p[..i]);
    }
  }

  lemma NamesItselfMapped(k: Kernel, k3: Kernel, k': Kernel, p: seq<nat>, m: nat, f: nat, flags: nat)
    requires ThreeMade(k, k3, p, m) && p[2] == p[3] == 511 && TouchedOnly(k, k3, p, 3) && NamesItself(k, f)
    requires Usable(flags, 1) && Replaced(k3, k', p, f, Entry(f * 0x1000, flags))
    ensures MappedPage(k, k', p, f, m)
  {
    hide Walk, Load, Present, Frame, Entry, Valid, SelfMapped, Usable, NamesItself, TouchedOnly, Extends;
    ReplacedIsValid(k, k3, k', p, m, f, flags);
    forall r | Regular(r) && |r| <= 4 && (Walk(k.mem.ram, k.mem.pml4, r).Some? || !(r < p))
      ensures Walk(k'.mem.ram, k'.mem.pml4, r) == if r == p then Some(f) else Walk(k.mem.ram, k.mem.pml4, r)
    {
      NamesItselfWalk(k, k3, k', p, m, f, Entry(f * 0x1000, flags), r);
    }
    assert k3.ptPages == View(k3).rsrv[|k.mem.rsrv|..];
    assert k.ptPages + k.mem.free[..m] == (View(k).rsrv + k.mem.free[..m])[|k.mem.rsrv|..];
  }

  // ----- the exact condition

  /** Where a table is missing the call maps the page as it should exactly if the free pages
      suffice and the swapped indices are the right ones; or else, with indices x, x, 511, 511,
      the frame is a table that names itself and takes the place of the page's new one. */
  ghost predicate RightForNew(k: Kernel, p: seq<nat>, frame: nat, m: nat)
    requires |p| == 4
  {
    && m <= |k.mem.free|
    && p[0] == p[1]
    && (p[1] == p[2] || (p[2] == p[3] == 511 && NamesItself(k, frame)))
  }

  /** From any state, when the written call maps the page and does what the documented one would. */
  ghost predicate WrittenIsRight(k: Kernel, p: seq<nat>, frame: nat, m: nat)
    requires |p| == 4
  {
    if Walk(k.mem.ram, k.mem.pml4, p[..3]).Some? then RightOverTables(k, p, frame) else RightForNew(k, p, frame, m)
  }

  lemma NewEqual(k: Kernel, p: seq<nat>, m: nat, phys: nat, flags: nat)
    requires CanGrow(k, p, m) && Usable(flags, 1) && phys % 0x1000 == 0 && phys < 0x10_0000_0000_0000
    requires p[0] == p[1] == p[2]
    ensures var outcome := MapSinglePage(k, SlotsOf(p), phys, flags);
            outcome.Mapped? && MappedPage(k, outcome.after, p, phys / 0x1000, m) <==> m <= |k.mem.free|
  {
    hide Walk, Valid, SelfMapped, LowPages, BlankPages, MappedPage, Regular, TableVirt, EnsureEntry, OverwriteEntry, Missing;
    assert p[..0] == [] && p[..1] == [p[0]] && p[..2] == [p[1], p[0]] && p[..3] == [p[2], p[1], p[0]];
    assert DescendSlots(k, p, 1, flags) == EnsureEntry(k, SlotsOf(p).pml4e, flags);
    MapAlong(k, p, phys, m, flags);
    FirstThenLast(k, p, phys, flags);
  }

  lemma ThreeSlots(k: Kernel, p: seq<nat>, phys: nat, flags: nat)
    requires |p| == 4 && p[0] == p[1]
    ensures MapSinglePage(k, SlotsOf(p), phys, flags)
            == match DescendSlots(k, p, 3, flags)
               case Mapped(k3) => OverwriteEntry(k3, SlotsOf(p).pte, phys, flags)
               case fail => fail
  {
    hide EnsureEntry, OverwriteEntry, TableVirt;
    assert p[..2] == [p[1], p[0]];
    FirstThenLast(k, p, phys, flags);
  }

  lemma NewReplaced(k: Kernel, k3: Kernel, p: seq<nat>, m: nat, phys: nat, flags: nat)
    requires CanGrow(k, p, m) && ThreeMade(k, k3, p, m) && DescendSlots(k, p, 3, flags) == Mapped(k3)
    requires Usable(flags, 1) && phys % 0x1000 == 0 && phys < 0x10_0000_0000_0000
    requires p[0] == p[1] && p[2] == p[3] == 511
    ensures var outcome := OverwriteEntry(k3, SlotsOf(p).pte, phys, flags);
            outcome.Mapped? && (MappedPage(k, outcome.after, p, phys / 0x1000, m) <==> NamesItself(k, phys / 0x1000))
  {
    hide Walk, Valid, SelfMapped, MappedPage, TableVirt, EnsureEntry, OverwriteEntry, NamesItself, Usable, Replaced, Grown,
         DescendSlots, Regular, TouchedOnly, Entry, BlankPages;
    SlotsTouchOnly(k, p, 3, m, flags);
    ReplacedBy(k, k3, p, m, phys, flags);
    var f, k' := phys / 0x1000, OverwriteEntry(k3, SlotsOf(p).pte, phys, flags).after;
    assert phys == f * 0x1000;
    if MappedPage(k, k', p, f, m) {
      MappedNamesItself(k, k3, k', p, m, f, Entry(phys, flags));
    } else if NamesItself(k, f) {
      NamesItselfMapped(k, k3, k', p, m, f, flags);
    }
  }

  lemma UnmappedPage(k: Kernel, k': Kernel, p: seq<nat>, f: nat, m: nat)
    requires Walk(k'.mem.ram, k'.mem.pml4, p).None?
    ensures !MappedPage(k, k', p, f, m)
  {
  }

  /** With equal first two indices the third entry is the page's own. */
  lemma NewTwoEqual(k: Kernel, p: seq<nat>, m: nat, phys: nat, flags: nat)
    requires CanGrow(k, p, m) && Usable(flags, 1) && phys % 0x1000 == 0 && phys < 0x10_0000_0000_0000
    requires p[0] == p[1] != p[2] && Walk(k.mem.ram, k.mem.pml4, p[..3]).None?
    ensures var outcome := MapSinglePage(k, SlotsOf(p), phys, flags);
            outcome.Mapped? && MappedPage(k, outcome.after, p, phys / 0x1000, m)
            <==> RightForNew(k, p, phys / 0x1000, m)
  {
    hide Walk, Valid, SelfMapped, LowPages, BlankPages, MappedPage, Regular, TableVirt, EnsureEntry, OverwriteEntry,
         Missing, DescendSlots, Descend, NamesItself, Usable, Entry;
    ThreeSlots(k, p, phys, flags);
    UsableFewer(flags, m);
    SlotsDescend(k, p, 3, m, flags);
    DescendCorrect(View(k), p, 3, flags);
    if DescendSlots(k, p, 3, flags).Mapped? {
      var k3 := DescendSlots(k, p, 3, flags).after;
      assert ThreeMade(k, k3, p, m);
      if p[2] == p[3] == 511 {
        NewReplaced(k, k3, p, m, phys, flags);
      } else {
        Aside(k, k3, p, m, phys, flags);
        var outcome := OverwriteEntry(k3, SlotsOf(p).pte, phys, flags);
        if outcome.Mapped? {
          UnmappedPage(k, outcome.after, p, phys / 0x1000, m);
        }
      }
    }
  }

  lemma NewDifferent(k: Kernel, p: seq<nat>, m: nat, phys: nat, flags: nat)
    requires CanGrow(k, p, m) && Usable(flags, 1) && phys % 0x1000 == 0 && phys < 0x10_0000_0000_0000
    requires p[0] != p[1] && Walk(k.mem.ram, k.mem.pml4, p[..3]).None?
    ensures var outcome := MapSinglePage(k, SlotsOf(p), phys, flags);
            !(outcome.Mapped? && MappedPage(k, outcome.after, p, phys / 0x1000, m))
  {
    hide Walk, Valid, SelfMapped, LowPages, BlankPages, MappedPage, Regular, Missing, DescendSlots, MapSinglePage, AtSwapped,
         TwoMade, Usable;
    WrittenOutcome(k, p, m, phys, flags);
    FirstTwoMade(k, p, m, flags);
    if DescendSlots(k, p, 2, flags).Mapped? {
      var k2 := DescendSlots(k, p, 2, flags).after;
      MissingSplit(View(k), p);
      OneMoreLow(k, k2, p, m);
      Crossed(k, k2, p, m, phys, flags);
    }
  }

  lemma OneMoreLow(k: Kernel, k2: Kernel, p: seq<nat>, m: nat)
    requires TwoMade(k, k2, p) && LowPages(k.mem.free, m) && m == Missing(View(k), p, 2) + 1
    ensures LowPages(k2.mem.free, 1)
  {
    hide Walk, Valid, SelfMapped;
  }

  /** From any state the call maps the page, leaving all other walks, the tables and the lists as
      the documented call would, exactly under WrittenIsRight. */
  lemma WrittenMapsExactly(k: Kernel, virt: nat, phys: nat, flags: nat)
    requires Valid(View(k)) && SelfMapped(k.mem) && Pml4Index(virt) != 511 && Usable(flags, 1)
    requires phys % 0x1000 == 0 && phys < 0x10_0000_0000_0000
    requires var m := Missing(View(k), Indices(virt), 3); LowPages(k.mem.free, m) && BlankPages(k.mem, m)
    ensures var (outcome, p, m) := (MapSinglePage(k, WrittenSlots(virt), phys, flags), Indices(virt),
                                    Missing(View(k), Indices(virt), 3));
            outcome.Mapped? && MappedPage(k, outcome.after, p, phys / 0x1000, m) <==> WrittenIsRight(k, p, phys / 0x1000, m)
  {
    hide Indices, WrittenSlots, Walk, MapSinglePage, MappedPage, Valid, SelfMapped, SlotsOf, RightOverTables, NamesItself,
         Missing, LowPages, BlankPages, Regular, Usable;
    IndicesRegular(virt);
    WrittenSlotsOf(virt);
    var p, m := Indices(virt), Missing(View(k), Indices(virt), 3);
    if Walk(k.mem.ram, k.mem.pml4, p[..3]).Some? {
      NoneMissing(View(k), p);
      WrittenOverTables(k, virt, phys, flags);
    } else if p[0] != p[1] {
      NewDifferent(k, p, m, phys, flags);
    } else if p[1] != p[2] {
      NewTwoEqual(k, p, m, phys, flags);
    } else {
      NewEqual(k, p, m, phys, flags);
    }
  }
}
