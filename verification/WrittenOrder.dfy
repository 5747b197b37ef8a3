/** What map_single_page does at the table addresses it really computes, where the tables for the
    page exist (arch/x86-64/mmu.cc:26-29). */
module WrittenOrder {
  import opened Wrappers
  import opened PageEntry
  import opened PageIndex
  import opened PageTable
  import opened PageMapping
  import opened SelfMap
  import opened KernelMapping

  // ----- paths through the self-map

  /** A path without the indices 511 in front, which lead from the root back to the root. */
  function Strip(q: seq<nat>): (r: seq<nat>)
    ensures |r| <= |q|
  {
    if q != [] && q[0] == 511 then Strip(q[1..]) else q
  }

  lemma {:induction false} StripWalks(s: Loader, q: seq<nat>)
    requires SelfMapped(s) && forall j :: 0 <= j < |q| ==> q[j] < 512
    ensures Walk(s.ram, s.pml4, q) == Walk(s.ram, s.pml4, Strip(q))
    ensures Regular(Strip(q))
    ensures q != [] && q[|q| - 1] != 511 ==> Strip(q) != []
  {
    hide Walk, SelfMapped;
    if q != [] && q[0] == 511 {
      assert q == [511] + q[1..];
      SelfMapPrefix(s, q[1..]);
      StripWalks(s, q[1..]);
    }
  }

  // ----- writing one word of one table

  /** Whatever is written to entry i of the table at path q, walks that do not go through it stay
      as they are. */
  lemma {:induction false} OffPathWalks(s: Loader, q: seq<nat>, i: nat, e: nat, r: seq<nat>)
    requires IsTree(s) && TablePath(q) && Regular(q + [i]) && i < 512
    requires Walk(s.ram, s.pml4, q).Some? && InRam(s.ram, Walk(s.ram, s.pml4, q).value)
    requires Regular(r) && |r| <= 4 && !(q + [i] <= r)
    ensures Walk(Store(s.ram, 512 * Walk(s.ram, s.pml4, q).value + i, e), s.pml4, r) == Walk(s.ram, s.pml4, r)
    decreases |r|
  {
    hide Present, Frame;
    if r != [] {
      var r0, j := r[..|r| - 1], r[|r| - 1];
      assert r == r0 + [j];
      var t := Walk(s.ram, s.pml4, q).value;
      var ram' := Store(s.ram, 512 * t + i, e);
      OffPathWalks(s, q, i, e, r0);
      WalkStep(s.ram, s.pml4, r0, j);
      WalkStep(ram', s.pml4, r0, j);
      if Walk(s.ram, s.pml4, r0).Some? {
        if Walk(s.ram, s.pml4, r0).value == t {
          assert r0 == q;
        }
        StoreOne(s.ram, t, i, e, Walk(s.ram, s.pml4, r0).value, j);
      }
    }
  }

  lemma StoreOne(ram: seq<nat>, t: nat, i: nat, e: nat, t': nat, j: nat)
    requires InRam(ram, t) && i < 512 && j < 512
    ensures Load(Store(ram, 512 * t + i, e), t', j) == if (t', j) == (t, i) then e else Load(ram, t', j)
  {
  }

  /** Walks only depend on which entries are present and where they lead. */
  lemma {:induction false} SameFrames(ram: seq<nat>, ram': seq<nat>, root: nat, r: seq<nat>)
    requires forall j :: 0 <= j < |r| ==> r[j] < 512
    requires forall t: nat, j: nat | j < 512 ::
               && (Present(Load(ram', t, j)) <==> Present(Load(ram, t, j)))
               && (Present(Load(ram, t, j)) ==> Frame(Load(ram', t, j)) == Frame(Load(ram, t, j)))
    ensures Walk(ram', root, r) == Walk(ram, root, r)
    decreases |r|
  {
    hide Present, Frame;
    if r != [] {
      var r0, j := r[..|r| - 1], r[|r| - 1];
      assert r == r0 + [j];
      SameFrames(ram, ram', root, r0);
      WalkStep(ram, root, r0, j);
      WalkStep(ram', root, r0, j);
    }
  }

  // ----- the two slots that are computed in the wrong order

  lemma SwappedWalks(s: Loader, q: seq<nat>, i: nat)
    requires SelfMapped(s) && 0 < |q| <= 3 && (forall j :: 0 <= j < |q| ==> q[j] < 512) && i < 512 && q[|q| - 1] != 511
    ensures var q' := Strip(q);
            && TablePath(q') && q' != [] && Regular(q' + [i])
            && Walk(s.ram, s.pml4, q) == Walk(s.ram, s.pml4, q')
            && Walk(s.ram, s.pml4, q + [i]) == Walk(s.ram, s.pml4, q' + [i])
  {
    hide Present, Frame, Load, SelfMapped;
    StripWalks(s, q);
    WalkStep(s.ram, s.pml4, q, i);
    WalkStep(s.ram, s.pml4, Strip(q), i);
  }

  /** Entry i of the table that the swapped indices q lead to. */
  lemma SwappedSlot(s: Loader, q: seq<nat>, i: nat)
    requires Valid(s) && SelfMapped(s) && 0 < |q| <= 3 && (forall j :: 0 <= j < |q| ==> q[j] < 512) && i < 512
    requires q[|q| - 1] != 511
    ensures var q' := Strip(q);
            && TablePath(q') && q' != [] && Regular(q' + [i])
            && Walk(s.ram, s.pml4, q) == Walk(s.ram, s.pml4, q')
            && Walk(s.ram, s.pml4, q + [i]) == Walk(s.ram, s.pml4, q' + [i])
            && (Walk(s.ram, s.pml4, q').Some? ==>
                  var t := Walk(s.ram, s.pml4, q').value;
                  && InRam(s.ram, t) && t != s.pml4
                  && WordOf(s, TableVirt(q) + 8 * i) == Some(512 * t + i)
                  && LoadWord(s, 512 * t + i) == Load(s.ram, t, i)
                  && (Present(Load(s.ram, t, i)) <==> Walk(s.ram, s.pml4, q + [i]).Some?))
            && (Walk(s.ram, s.pml4, q').None? ==> WordOf(s, TableVirt(q) + 8 * i) == None)
  {
    hide Present, Frame, TableVirt, Indices, WordOf, SelfMapped, Walk, Strip, Regular, Valid, TablePath, IsTree;
    SwappedWalks(s, q, i);
    TableSlot(s, q, i);
    WalkStep(s.ram, s.pml4, q, i);
    if Walk(s.ram, s.pml4, q).Some? {
      NotTheRoot(s, Strip(q));
    }
  }

  lemma NotTheRoot(s: Loader, q: seq<nat>)
    requires Valid(s) && TablePath(q) && q != [] && Walk(s.ram, s.pml4, q).Some?
    ensures Walk(s.ram, s.pml4, q).value != s.pml4 && InRam(s.ram, Walk(s.ram, s.pml4, q).value) && IsTree(s)
  {
    hide Present, Frame, Link;
    assert TablePath([]) && Walk(s.ram, s.pml4, []) == Some(s.pml4);
  }

  // ----- the state of the call

  /** The page's first n tables below the root exist; p are the four indices of its address. */
  ghost predicate TablesUpTo(k: Kernel, p: seq<nat>, n: nat) {
    && Valid(View(k)) && SelfMapped(k.mem) && |p| == 4 && Regular(p) && n <= 3
    && Walk(k.mem.ram, k.mem.pml4, p[..n]).Some?
  }

  ghost predicate TablesExist(k: Kernel, p: seq<nat>) {
    TablesUpTo(k, p, 3)
  }

  lemma TwoOfThree(k: Kernel, p: seq<nat>)
    requires TablesExist(k, p)
    ensures TablesUpTo(k, p, 2)
  {
    hide Walk, Valid, SelfMapped;
    WalkPrefix(k.mem.ram, k.mem.pml4, p[..2], p[..3]);
  }

  function SlotsOf(p: seq<nat>): Slots
    requires |p| == 4
  {
    Slots(TableVirt([]) + 8 * p[0], TableVirt([p[0]]) + 8 * p[1],
          TableVirt([p[1], p[0]]) + 8 * p[2], TableVirt([p[2], p[1], p[0]]) + 8 * p[3])
  }

  lemma WrittenSlotsOf(virt: nat)
    requires |Indices(virt)| == 4
    ensures WrittenSlots(virt) == SlotsOf(Indices(virt))
  {
    hide VirtFromIndex;
  }

  /** The first two entries are the right ones and present. */
  lemma FirstTwo(k: Kernel, p: seq<nat>, flags: nat)
    requires TablesExist(k, p)
    ensures EnsureEntry(k, SlotsOf(p).pml4e, flags) == Mapped(k)
    ensures EnsureEntry(k, SlotsOf(p).pdpte, flags) == Mapped(k)
  {
    hide Present, Frame, TableVirt, WordOf, Valid, SelfMapped;
    PresentOnPath(k, p, 0);
    PresentOnPath(k, p, 1);
    assert p[..0] == [] && p[..1] == [p[0]];
  }

  lemma PresentOnPath(k: Kernel, p: seq<nat>, n: nat)
    requires TablesExist(k, p) && n < 3
    ensures Walk(k.mem.ram, k.mem.pml4, p[..n]).Some? && Walk(k.mem.ram, k.mem.pml4, p[..n + 1]).Some?
    ensures var word := WordOf(k.mem, TableVirt(p[..n]) + 8 * p[n]);
            word.Some? && Present(LoadWord(k.mem, word.value))
  {
    hide Frame, TableVirt, WordOf, SelfMapped, Present;
    var s := k.mem;
    assert p[..n + 1] == p[..n] + [p[n]];
    WalkPrefix(s.ram, s.pml4, p[..n], p[..3]);
    WalkPrefix(s.ram, s.pml4, p[..n + 1], p[..3]);
    EntryPresentHere(k, p[..n], p[n], 0);
  }

  /** The third entry, at the swapped indices. */
  lemma ThirdEntry(k: Kernel, p: seq<nat>, flags: nat)
    requires TablesUpTo(k, p, 2)
    ensures var q, z := [p[1], p[0]], p[2];
            EnsureEntry(k, SlotsOf(p).pde, flags)
            == if Walk(k.mem.ram, k.mem.pml4, q).None? then PageFault
               else if Walk(k.mem.ram, k.mem.pml4, q + [z]).Some? then Mapped(k)
               else if k.mem.free == [] then OutOfMemory(k)
               else Mapped(Taken(k, Walk(k.mem.ram, k.mem.pml4, q).value, z, flags))
  {
    hide Present, Frame, TableVirt, WordOf, Valid, SelfMapped, Walk, Entry;
    SameWords(k, SlotsOf(p).pde);
    SwappedSlot(View(k), [p[1], p[0]], p[2]);
  }

  /** The reserved list plays no part in reading memory. */
  lemma SameWords(k: Kernel, va: nat)
    ensures WordOf(View(k), va) == WordOf(k.mem, va)
    ensures forall word :: LoadWord(View(k), word) == LoadWord(k.mem, word)
    ensures SelfMapped(View(k)) <==> SelfMapped(k.mem)
  {
    hide Walk, Indices;
  }

  /** Taking a page for the third entry leaves the self-map and the walk to the last one alone. */
  lemma TakenElsewhere(k: Kernel, p: seq<nat>, flags: nat)
    requires TablesUpTo(k, p, 2) && k.mem.free != [] && !(p[0] == p[1] == p[2])
    requires Walk(k.mem.ram, k.mem.pml4, [p[1], p[0]]).Some?
    requires Walk(k.mem.ram, k.mem.pml4, [p[1], p[0], p[2]]).None?
    ensures var k2 := Taken(k, Walk(k.mem.ram, k.mem.pml4, [p[1], p[0]]).value, p[2], flags);
            var r := [p[2], p[1], p[0]];
            SelfMapped(k2.mem) && Walk(k2.mem.ram, k2.mem.pml4, r) == Walk(k.mem.ram, k.mem.pml4, r)
  {
    hide Present, Frame, TableVirt, WordOf, Entry, Load, Walk, LoadWord;
    var s, q, r := View(k), [p[1], p[0]], [p[2], p[1], p[0]];
    assert q + [p[2]] == [p[1], p[0], p[2]];
    SwappedSlot(s, q, p[2]);
    var q', r', t := Strip(q), Strip(r), Walk(s.ram, s.pml4, q).value;
    StripWalks(s, r);
    var k2 := Taken(k, t, p[2], flags);
    StoreOne(s.ram, t, p[2], Entry(k.mem.free[0] * 0x1000, flags), s.pml4, 511);
    assert SelfMapped(k2.mem);
    StripWalks(k2.mem, r);
    SwapsMeet(p);
    OffPathWalks(s, q', p[2], Entry(k.mem.free[0] * 0x1000, flags), r');
  }

  /** The path of the third entry leads to the last one's table only if it is the page's own. */
  lemma SwapsMeet(p: seq<nat>)
    requires |p| == 4 && Regular(p)
    ensures Strip([p[1], p[0]]) + [p[2]] <= Strip([p[2], p[1], p[0]]) ==> p[0] == p[1] == p[2]
  {
    var x, y, z := p[0], p[1], p[2];
    assert Strip([x]) == [x];
    assert [y, x][1..] == [x];
    assert [z, y, x][1..] == [y, x];
    var a, b := Strip([y, x]) + [z], Strip([z, y, x]);
    if a <= b {
      assert |a| <= |b| && a[0] == b[0] && a[1] == b[1];
      if y != 511 {
        assert a[2] == b[2];
      }
    }
  }

  /** The last two entries of the call, once the first two are made. */
  function LastTwo(k: Kernel, p: seq<nat>, phys: nat, flags: nat): Outcome
    requires |p| == 4
  {
    match EnsureEntry(k, SlotsOf(p).pde, flags)
    case Mapped(k3) => OverwriteEntry(k3, SlotsOf(p).pte, phys, flags)
    case fail => fail
  }

  /** The first two entries are made in documented order. */
  lemma FirstThenLast(k: Kernel, p: seq<nat>, phys: nat, flags: nat)
    requires |p| == 4
    ensures MapSinglePage(k, SlotsOf(p), phys, flags)
            == match DescendSlots(k, p, 2, flags)
               case Mapped(k2) => LastTwo(k2, p, phys, flags)
               case fail => fail
  {
    hide EnsureEntry, OverwriteEntry, TableVirt;
    assert p[..0] == [] && p[..1] == [p[0]];
    assert DescendSlots(k, p, 1, flags) == EnsureEntry(k, SlotsOf(p).pml4e, flags);
  }

  lemma OwnPath(p: seq<nat>)
    requires |p| == 4
    ensures p[0] == p[1] ==> p[..3] == [p[1], p[0], p[2]]
  {
  }

  /** A fault, no memory, or one entry written at the end of the swapped indices. */
  function AtSwapped(k: Kernel, p: seq<nat>, phys: nat, flags: nat): Outcome
    requires |p| == 4
  {
    var (ram, root, q, r) := (k.mem.ram, k.mem.pml4, [p[1], p[0]], [p[2], p[1], p[0]]);
    if Walk(ram, root, q).None? then PageFault
    else if Walk(ram, root, q + [p[2]]).None? && k.mem.free == [] then OutOfMemory(k)
    else if Walk(ram, root, r).None? then PageFault
    else
      var k3 := if Walk(ram, root, q + [p[2]]).Some? then k else Taken(k, Walk(ram, root, q).value, p[2], flags);
      var word := 512 * Walk(ram, root, r).value + p[3];
      Mapped(k3.(mem := k3.mem.(ram := Store(k3.mem.ram, word, Entry(phys, flags)))))
  }

  /** What the last two entries come to, unless they make a table of the page itself, as in
      documented order. */
  lemma LastTwoOutcome(k: Kernel, p: seq<nat>, phys: nat, flags: nat)
    requires TablesUpTo(k, p, 2)
    requires p[0] == p[1] == p[2] ==> Walk(k.mem.ram, k.mem.pml4, p[..3]).Some?
    ensures LastTwo(k, p, phys, flags) == AtSwapped(k, p, phys, flags)
  {
    hide Walk, TableVirt, WordOf, EnsureEntry, Entry, Taken, Store, Valid, SelfMapped, Regular;
    var q, r := [p[1], p[0]], [p[2], p[1], p[0]];
    assert q + [p[2]] == [p[1], p[0], p[2]];
    ThirdEntry(k, p, flags);
    if EnsureEntry(k, SlotsOf(p).pde, flags).Mapped? {
      var k3 := EnsureEntry(k, SlotsOf(p).pde, flags).after;
      OwnPath(p);
      if Walk(k.mem.ram, k.mem.pml4, q + [p[2]]).None? {
        TakenElsewhere(k, p, flags);
      }
      RegularParts(p);
      TableSlot(k3.mem, r, p[3]);
    }
  }

  /** What the written call comes to where the page's tables exist. */
  lemma OutcomeOverTables(k: Kernel, p: seq<nat>, phys: nat, flags: nat)
    requires TablesExist(k, p)
    ensures MapSinglePage(k, SlotsOf(p), phys, flags) == AtSwapped(k, p, phys, flags)
  {
    hide TableVirt, EnsureEntry, OverwriteEntry, Valid, SelfMapped, Regular, AtSwapped;
    FirstTwo(k, p, flags);
    TwoOfThree(k, p);
    LastTwoOutcome(k, p, phys, flags);
  }

  lemma RegularParts(p: seq<nat>)
    requires |p| == 4 && Regular(p)
    ensures p[0] < 511 && p[1] < 512 && p[2] < 512 && p[3] < 512
  {
  }

  // ----- when the call does what it is for

  /** The condition: the third entry exists at the swapped indices, and the last one is either in
      the page's own table or an entry that already leads where the page already leads. */
  predicate RightOverTables(k: Kernel, p: seq<nat>, frame: nat)
    requires |p| == 4
  {
    var (ram, root) := (k.mem.ram, k.mem.pml4);
    && Walk(ram, root, [p[1], p[0], p[2]]).Some?
    && Walk(ram, root, [p[2], p[1], p[0]]).Some?
    && (p[0] == p[2]
        || (Walk(ram, root, p) == Some(frame) && Walk(ram, root, [p[2], p[1], p[0], p[3]]) == Some(frame)))
  }

  /** Overwriting an entry with one that leads to the same page changes no walk and keeps the
      tables valid. */
  lemma SameFrameIsValid(k: Kernel, q: seq<nat>, i: nat, phys: nat, flags: nat)
    requires Valid(View(k)) && SelfMapped(k.mem) && TablePath(q) && q != [] && Regular(q + [i]) && i < 512
    requires Usable(flags, 1) && phys % 0x1000 == 0 && phys < 0x10_0000_0000_0000
    requires Walk(k.mem.ram, k.mem.pml4, q + [i]) == Some(phys / 0x1000)
    requires Walk(k.mem.ram, k.mem.pml4, q).Some?
    ensures var word := 512 * Walk(k.mem.ram, k.mem.pml4, q).value + i;
            var k' := k.(mem := k.mem.(ram := Store(k.mem.ram, word, Entry(phys, flags))));
            && Valid(View(k')) && SelfMapped(k'.mem)
            && forall r :: (forall j :: 0 <= j < |r| ==> r[j] < 512) ==>
                 Walk(k'.mem.ram, k'.mem.pml4, r) == Walk(k.mem.ram, k.mem.pml4, r)
  {
    hide Present, Frame, Entry, Large, TableAddress;
    var s, t, e := View(k), Walk(k.mem.ram, k.mem.pml4, q).value, Entry(phys, flags);
    var k' := k.(mem := k.mem.(ram := Store(k.mem.ram, 512 * t + i, e)));
    var s' := View(k');
    LeafEntry(phys, flags);
    TableInRam(s, q);
    WalkStep(s.ram, s.pml4, q, i);
    assert TablePath([]) && Walk(s.ram, s.pml4, []) == Some(s.pml4);
    forall t': nat, j: nat | j < 512
      ensures Load(s'.ram, t', j) == if (t', j) == (t, i) then e else Load(s.ram, t', j)
    {
      StoreOne(s.ram, t, i, e, t', j);
    }
    forall r | forall j :: 0 <= j < |r| ==> r[j] < 512
      ensures Walk(s'.ram, s'.pml4, r) == Walk(s.ram, s.pml4, r)
    {
      SameFrames(s.ram, s'.ram, s.pml4, r);
    }
    hide Load, Store;
    forall q1, j | TablePath(q1 + [j]) && Walk(s'.ram, s'.pml4, q1).Some?
      ensures var e1 := Load(s'.ram, Walk(s'.ram, s'.pml4, q1).value, j); Present(e1) ==> Link(e1)
    {
      TablePathPrefix(q1, j);
      if (Walk(s.ram, s.pml4, q1).value, j) == (t, i) {
        assert q1 == q;
        assert TablePath(q + [i]);
        assert phys / 0x1000 < LOW_PAGES;
        assert phys == phys / 0x1000 * 0x1000;
        LinkEntry(phys / 0x1000, flags);
      }
    }
    SameWalksValid(s, s');
  }

  lemma SameWalksValid(s: Loader, s': Loader)
    requires Valid(s) && s'.free == s.free && s'.rsrv == s.rsrv && s'.pml4 == s.pml4 && |s'.ram| == |s.ram|
    requires forall q :: TablePath(q) ==> Walk(s'.ram, s'.pml4, q) == Walk(s.ram, s.pml4, q)
    requires LoaderAgrees(s')
    ensures Valid(s')
  {
    hide Walk, LoaderAgrees;
    assert s'.free + s'.rsrv == s.free + s.rsrv;
  }

  /** Over existing tables: what the written call ends in, and that it maps the page, leaving all
      other walks, the tables and the lists alone, exactly under RightOverTables. */
  lemma WrittenOverTables(k: Kernel, virt: nat, phys: nat, flags: nat)
    requires Valid(View(k)) && SelfMapped(k.mem) && Pml4Index(virt) != 511 && Usable(flags, 1)
    requires phys % 0x1000 == 0 && phys < 0x10_0000_0000_0000
    requires Walk(k.mem.ram, k.mem.pml4, Indices(virt)[..3]).Some?
    ensures var (ram, root, p) := (k.mem.ram, k.mem.pml4, Indices(virt));
            var outcome := MapSinglePage(k, WrittenSlots(virt), phys, flags);
            var third, last := Walk(ram, root, [p[1], p[0], p[2]]), Walk(ram, root, [p[2], p[1], p[0]]);
            && |p| == 4
            && (outcome.PageFault? <==> Walk(ram, root, [p[1], p[0]]).None?
                                        || (last.None? && (third.Some? || k.mem.free != [])))
            && (outcome.OutOfMemory? <==> Walk(ram, root, [p[1], p[0]]).Some? && third.None? && k.mem.free == [])
            && (outcome.Mapped? && MappedPage(k, outcome.after, p, phys / 0x1000, 0)
                <==> RightOverTables(k, p, phys / 0x1000))
  {
    IndicesRegular(virt);
    WrittenSlotsOf(virt);
    hide Indices, WrittenSlots, Walk, MapSinglePage, MappedPage, RightOverTables, Valid, SelfMapped, SlotsOf;
    WrittenMapsPath(k, Indices(virt), phys, flags);
  }

  lemma WrittenMapsPath(k: Kernel, p: seq<nat>, phys: nat, flags: nat)
    requires TablesExist(k, p) && Usable(flags, 1) && phys % 0x1000 == 0 && phys < 0x10_0000_0000_0000
    ensures var (ram, root) := (k.mem.ram, k.mem.pml4);
            var outcome := MapSinglePage(k, SlotsOf(p), phys, flags);
            var third, last := Walk(ram, root, [p[1], p[0], p[2]]), Walk(ram, root, [p[2], p[1], p[0]]);
            && (outcome.PageFault? <==> Walk(ram, root, [p[1], p[0]]).None?
                                        || (last.None? && (third.Some? || k.mem.free != [])))
            && (outcome.OutOfMemory? <==> Walk(ram, root, [p[1], p[0]]).Some? && third.None? && k.mem.free == [])
            && (outcome.Mapped? && MappedPage(k, outcome.after, p, phys / 0x1000, 0)
                <==> RightOverTables(k, p, phys / 0x1000))
  {
    hide Walk, MapSinglePage, Valid, SelfMapped, SlotsOf, Regular, Store, Entry, CleanFlags, Large;
    var q, r := [p[1], p[0]], [p[2], p[1], p[0]];
    assert q + [p[2]] == [p[1], p[0], p[2]];
    OutcomeOverTables(k, p, phys, flags);
    if Walk(k.mem.ram, k.mem.pml4, q + [p[2]]).Some? && Walk(k.mem.ram, k.mem.pml4, q).Some?
       && Walk(k.mem.ram, k.mem.pml4, r).Some? {
      LastEntryExactly(k, p, phys, flags);
    } else if MapSinglePage(k, SlotsOf(p), phys, flags).Mapped? {
      assert MapSinglePage(k, SlotsOf(p), phys, flags).after.mem.free == k.mem.free[1..];
    }
    if Walk(k.mem.ram, k.mem.pml4, q + [p[2]]).Some? {
      WalkPrefix(k.mem.ram, k.mem.pml4, q, q + [p[2]]);
    }
  }

  lemma LastEntryExactly(k: Kernel, p: seq<nat>, phys: nat, flags: nat)
    requires TablesExist(k, p) && Usable(flags, 1) && phys % 0x1000 == 0 && phys < 0x10_0000_0000_0000
    requires Walk(k.mem.ram, k.mem.pml4, [p[1], p[0], p[2]]).Some?
    requires Walk(k.mem.ram, k.mem.pml4, [p[2], p[1], p[0]]).Some?
    ensures var word := 512 * Walk(k.mem.ram, k.mem.pml4, [p[2], p[1], p[0]]).value + p[3];
            var k' := k.(mem := k.mem.(ram := Store(k.mem.ram, word, Entry(phys, flags))));
            MappedPage(k, k', p, phys / 0x1000, 0) <==> RightOverTables(k, p, phys / 0x1000)
  {
    hide Walk, Valid, SelfMapped, MappedPage, Regular, Store, Entry, CleanFlags, Large;
    if p[0] == p[2] {
      OwnTable(k, p, phys, flags);
    } else {
      OtherTable(k, p, phys, flags);
    }
  }

  lemma OwnTable(k: Kernel, p: seq<nat>, phys: nat, flags: nat)
    requires TablesExist(k, p) && Usable(flags, 1) && phys % 0x1000 == 0 && phys < 0x10_0000_0000_0000
    requires p[0] == p[2]
    ensures var word := 512 * Walk(k.mem.ram, k.mem.pml4, p[..3]).value + p[3];
            var k' := k.(mem := k.mem.(ram := Store(k.mem.ram, word, Entry(phys, flags))));
            MappedPage(k, k', p, phys / 0x1000, 0)
    ensures [p[2], p[1], p[0]] == p[..3]
  {
    hide Walk, Valid, MappedPage, Store, Entry, CleanFlags, Large, TableVirt, WordOf, Load;
    assert Grown(View(k), View(k), p[..3], 0);
    LastEntry(k, k, p, phys, 0, flags);
    TableSlot(k.mem, p[..3], p[3]);
  }

  lemma OtherTable(k: Kernel, p: seq<nat>, phys: nat, flags: nat)
    requires TablesExist(k, p) && Usable(flags, 1) && phys % 0x1000 == 0 && phys < 0x10_0000_0000_0000
    requires p[0] != p[2] && Walk(k.mem.ram, k.mem.pml4, [p[2], p[1], p[0]]).Some?
    ensures var (ram, root, f) := (k.mem.ram, k.mem.pml4, phys / 0x1000);
            var k' := k.(mem := k.mem.(ram :=
              Store(ram, 512 * Walk(ram, root, [p[2], p[1], p[0]]).value + p[3], Entry(phys, flags))));
            MappedPage(k, k', p, f, 0)
            <==> Walk(ram, root, p) == Some(f) && Walk(ram, root, [p[2], p[1], p[0], p[3]]) == Some(f)
  {
    hide Walk, Valid, Store, Entry, CleanFlags, Large, SelfMapped, MappedPage, Strip, Usable, Regular;
    var s, f, r := View(k), phys / 0x1000, [p[2], p[1], p[0]];
    SameWords(k, 0);
    RegularParts(p);
    SwappedWalks(s, r, p[3]);
    assert r + [p[3]] == [p[2], p[1], p[0], p[3]];
    StripApart(p);
    OtherMapped(k, p, Strip(r), phys, flags);
  }

  lemma StripApart(p: seq<nat>)
    requires |p| == 4 && p[0] != p[2]
    ensures Strip([p[2], p[1], p[0]]) != p[..3]
  {
    var r := [p[2], p[1], p[0]];
    assert r[0] == p[2] && |r[1..]| == 2;
    assert p[..3][0] == p[0];
  }

  lemma OtherMapped(k: Kernel, p: seq<nat>, q: seq<nat>, phys: nat, flags: nat)
    requires TablesExist(k, p) && Usable(flags, 1) && phys % 0x1000 == 0 && phys < 0x10_0000_0000_0000
    requires TablePath(q) && q != [] && Regular(q + [p[3]]) && p[3] < 512 && q != p[..3]
    requires Walk(k.mem.ram, k.mem.pml4, q).Some?
    ensures var (ram, root, f) := (k.mem.ram, k.mem.pml4, phys / 0x1000);
            var k' := k.(mem := k.mem.(ram := Store(ram, 512 * Walk(ram, root, q).value + p[3], Entry(phys, flags))));
            MappedPage(k, k', p, f, 0) <==> Walk(ram, root, p) == Some(f) && Walk(ram, root, q + [p[3]]) == Some(f)
  {
    hide Walk, Valid, Store, Entry, CleanFlags, Large, SelfMapped, Regular;
    var (ram, root, f) := (k.mem.ram, k.mem.pml4, phys / 0x1000);
    var k' := k.(mem := k.mem.(ram := Store(ram, 512 * Walk(ram, root, q).value + p[3], Entry(phys, flags))));
    if Walk(ram, root, q + [p[3]]) == Some(f) {
      SameFrameIsValid(k, q, p[3], phys, flags);
      SameWalksMapped(k, k', p, f);
    } else if MappedPage(k, k', p, f, 0) {
      OtherWritten(k, p, q, phys, flags);
    }
  }

  lemma SameWalksMapped(k: Kernel, k': Kernel, p: seq<nat>, f: nat)
    requires Valid(View(k')) && SelfMapped(k'.mem) && |p| == 4 && Regular(p)
    requires k'.ptPages == k.ptPages && k'.mem.free == k.mem.free && k'.mem.rsrv == k.mem.rsrv
    requires forall r :: (forall j :: 0 <= j < |r| ==> r[j] < 512) ==>
               Walk(k'.mem.ram, k'.mem.pml4, r) == Walk(k.mem.ram, k.mem.pml4, r)
    ensures MappedPage(k, k', p, f, 0) <==> Walk(k.mem.ram, k.mem.pml4, p) == Some(f)
  {
    hide Walk, Valid, SelfMapped;
    assert k.mem.free[0..] == k.mem.free && k.ptPages + k.mem.free[..0] == k.ptPages;
  }

  /** The entry of another table that the call writes leads to the page afterwards; leaving all
      other walks alone, it must have done so before. */
  lemma OtherWritten(k: Kernel, p: seq<nat>, q: seq<nat>, phys: nat, flags: nat)
    requires TablesExist(k, p) && CleanFlags(flags) && phys % 0x1000 == 0 && phys < 0x10_0000_0000_0000
    requires TablePath(q) && Regular(q + [p[3]]) && p[3] < 512 && q != p[..3] && Walk(k.mem.ram, k.mem.pml4, q).Some?
    requires var word := 512 * Walk(k.mem.ram, k.mem.pml4, q).value + p[3];
             MappedPage(k, k.(mem := k.mem.(ram := Store(k.mem.ram, word, Entry(phys, flags)))), p, phys / 0x1000, 0)
    ensures Walk(k.mem.ram, k.mem.pml4, q + [p[3]]) == Some(phys / 0x1000)
  {
    hide Valid, Entry, CleanFlags, Present, Frame, SelfMapped, Store, Load, Walk;
    var s, t, e := View(k), Walk(k.mem.ram, k.mem.pml4, q).value, Entry(phys, flags);
    var ram' := Store(s.ram, 512 * t + p[3], e);
    LeafEntry(phys, flags);
    TableInRam(s, q);
    OffPathWalks(s, q, p[3], e, q);
    StoreOne(s.ram, t, p[3], e, t, p[3]);
    WalkStep(ram', s.pml4, q, p[3]);
    var r := q + [p[3]];
    assert r[..|q|] == q;
    if r <= p {
      assert r <= p[..3];
      WalkPrefix(s.ram, s.pml4, r, p[..3]);
    }
  }

  // ----- a state in which it does not

  const EXAMPLE := 0x20_0000

  /** Eight pages of zeros, of which five are free. */
  function EmptyMemory(): Loader {
    Loader(seq(8 * 512, _ => 0), [1, 2, 3, 4, 5], [], 0)
  }

  lemma ExampleSetUp() returns (s: Loader)
    ensures Valid(s) && SelfMapped(s) && |s.free| == 4 && LowPages(s.free, 4)
    ensures forall p :: Regular(p) && p != [] ==> Walk(s.ram, s.pml4, p).None?
  {
    hide Walk, OrSelf, Frame, Present, Large, LoaderAgrees, TablesReserved, IsTree;
    var s0 := EmptyMemory();
    assert s0.free + s0.rsrv == [1, 2, 3, 4, 5];
    assert forall x :: x in s0.free ==> x <= 5 && InRam(s0.ram, x);
    SetupPagingCorrect(s0);
    s := SetupPaging(s0).value;
    assert s.free == [2, 3, 4, 5];
  }

  lemma ExampleIndices()
    ensures Indices(EXAMPLE) == [0, 0, 1, 0] && Pml4Index(EXAMPLE) == 0
  {
    hide Indices, Pml4Index;
    IndicesAreArithmetic(EXAMPLE);
    FirstIndex(EXAMPLE);
  }

  lemma FirstIndex(virt: nat)
    ensures |Indices(virt)| == 4 && Indices(virt)[0] == Pml4Index(virt)
  {
    hide Pml4Index, PdptIndex, PdIndex, PtIndex;
  }

  /** The first page above 2 MiB, mapped by the loader: the kernel's call for it goes through the
      tables of an address that is not mapped and faults; in documented order it would succeed. */
  lemma WrittenFaultsAt() returns (k: Kernel)
    ensures Valid(View(k)) && SelfMapped(k.mem) && Pml4Index(EXAMPLE) != 511
    ensures Walk(k.mem.ram, k.mem.pml4, Indices(EXAMPLE)).Some?
    ensures MapSinglePage(k, WrittenSlots(EXAMPLE), 0x5000, 0) == PageFault
    ensures MapSinglePage(k, DocumentedSlots(EXAMPLE), 0x5000, 0).Mapped?
  {
    hide Walk, Indices, WrittenSlots, DocumentedSlots, MapSinglePage, Valid, SelfMapped, MapPage, Pml4Index, Entry, Load;
    ExampleIndices();
    var s1 := ExampleSetUp();
    var p := Indices(EXAMPLE);
    NoFlags();
    MapPageCorrect(s1, 0x5000, EXAMPLE, 0);
    var s := MapPage(s1, 0x5000, EXAMPLE, 0).value;
    k := Kernel(s, []);
    assert View(k) == s && Regular([1, 0, 0]);
    SelfMappedSame(s1, s);
    WalkPrefix(s.ram, s.pml4, [0, 0], p);
    WalkPrefix(s.ram, s.pml4, [0, 0, 1], p);
    WalkPrefix(s.ram, s.pml4, p[..3], p);
    WrittenOverTables(k, EXAMPLE, 0x5000, 0);
    NoneMissing(s, p);
    MapSinglePageCorrect(k, EXAMPLE, 0x5000, 0);
  }

  lemma NoFlags()
    ensures forall n :: Usable(0, n)
  {
  }

  lemma NoneMissing(s: Loader, p: seq<nat>)
    requires |p| == 4 && Walk(s.ram, s.pml4, p[..3]).Some?
    ensures Missing(s, p, 3) == 0
  {
    hide Walk;
    WalkPrefix(s.ram, s.pml4, p[..1], p[..3]);
    WalkPrefix(s.ram, s.pml4, p[..2], p[..3]);
    assert Missing(s, p, 1) == 0 && Missing(s, p, 2) == 0;
  }
}
