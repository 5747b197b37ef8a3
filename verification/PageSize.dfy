/** The page-size bit.  A page's flags also go into the tables made for it, where bit 7 means a
    large page: what the processor then translates the page to (Intel SDM Volume 3, section
    4.5.4; loader/x86-64-multiboot2/mem.cc). */
module PageSize {
  import opened Wrappers
  import opened PageEntry
  import opened PageIndex
  import opened PageTable
  import opened PageMapping
  import opened SelfMap

  // ----- the processor's translation

  /** The page that an entry of level n with the page-size bit gives to the indices p; the bit is
      reserved in the root table, and so are the low address bits of a large page. */
  function LargeFrame(e: nat, p: seq<nat>, n: nat): Option<nat>
    requires |p| == 4
  {
    if n == 1 && Frame(e) % 0x40000 <= 1 then Some(Frame(e) - Frame(e) % 0x40000 + p[2] * 512 + p[3])
    else if n == 2 && Frame(e) % 512 <= 1 then Some(Frame(e) - Frame(e) % 512 + p[3])
    else None
  }

  /** The translation from a table of level n on. */
  function TranslateFrom(ram: seq<nat>, table: nat, p: seq<nat>, n: nat): Option<nat>
    requires |p| == 4 && n <= 3
    decreases 3 - n
  {
    var e := Load(ram, table, p[n]);
    if !Present(e) then None
    else if n == 3 then Some(Frame(e))
    else if Large(e) then LargeFrame(e, p, n)
    else TranslateFrom(ram, Frame(e), p, n + 1)
  }

  function Translate(ram: seq<nat>, root: nat, p: seq<nat>): Option<nat>
    requires |p| == 4
  {
    TranslateFrom(ram, root, p, 0)
  }

  /** No entry above the last level on the path has the page-size bit. */
  predicate Plain(ram: seq<nat>, root: nat, p: seq<nat>)
    requires |p| == 4
  {
    forall j :: 0 <= j < 3 && Walk(ram, root, p[..j]).Some? ==>
      var e := Load(ram, Walk(ram, root, p[..j]).value, p[j]); Present(e) ==> !Large(e)
  }

  lemma {:induction false} PlainFrom(ram: seq<nat>, root: nat, p: seq<nat>, n: nat)
    requires |p| == 4 && n <= 3 && Plain(ram, root, p) && Walk(ram, root, p[..n]).Some?
    ensures TranslateFrom(ram, Walk(ram, root, p[..n]).value, p, n) == Walk(ram, root, p)
    decreases 3 - n
  {
    hide Present, Frame, Large;
    assert p[..n + 1] == p[..n] + [p[n]];
    WalkStep(ram, root, p[..n], p[n]);
    if n == 3 {
      assert p[..4] == p;
    } else if Walk(ram, root, p[..n + 1]).Some? {
      PlainFrom(ram, root, p, n + 1);
    } else if Walk(ram, root, p).Some? {
      WalkPrefix(ram, root, p[..n + 1], p);
    }
  }

  /** In a valid state the walk is the processor's translation. */
  lemma TranslateIsWalk(s: Loader, p: seq<nat>)
    requires Valid(s) && Regular(p) && |p| == 4
    ensures Translate(s.ram, s.pml4, p) == Walk(s.ram, s.pml4, p)
  {
    hide Present, Frame, Large;
    forall j | 0 <= j < 3 && Walk(s.ram, s.pml4, p[..j]).Some?
      ensures var e := Load(s.ram, Walk(s.ram, s.pml4, p[..j]).value, p[j]); Present(e) ==> !Large(e)
    {
      assert p[..j] + [p[j]] == p[..j + 1];
      assert TablePath(p[..j] + [p[j]]);
    }
    PlainFrom(s.ram, s.pml4, p, 0);
  }

  /** So it is for the addresses of the self-map. */
  lemma SelfMapTranslates(s: Loader, p: seq<nat>)
    requires Valid(s) && SelfMapped(s) && |p| == 4 && p[0] == 511 && forall j :: 0 <= j < 4 ==> p[j] < 512
    ensures Translate(s.ram, s.pml4, p) == Walk(s.ram, s.pml4, p)
  {
    hide Present, Frame, Large;
    forall j | 0 <= j < 3 && Walk(s.ram, s.pml4, p[..j]).Some?
      ensures var e := Load(s.ram, Walk(s.ram, s.pml4, p[..j]).value, p[j]); Present(e) ==> !Large(e)
    {
      if j > 0 {
        assert p[..j] == [511] + p[1..j];
        SelfMapPrefix(s, p[1..j]);
        PlainBehind(s, p[1..j], p[j]);
      }
    }
    PlainFrom(s.ram, s.pml4, p, 0);
  }

  lemma PlainAt(s: Loader, q: seq<nat>, i: nat)
    requires Valid(s) && TablePath(q + [i]) && Walk(s.ram, s.pml4, q).Some?
    ensures var e := Load(s.ram, Walk(s.ram, s.pml4, q).value, i); Present(e) ==> !Large(e)
  {
    hide Present, Frame, Large, TableAddress, IsTree, TablesReserved, ListsValid;
  }

  lemma PlainBehind(s: Loader, q: seq<nat>, i: nat)
    requires Valid(s) && SelfMapped(s) && |q| <= 1 && (forall j :: 0 <= j < |q| ==> q[j] < 512) && i < 512
    requires Walk(s.ram, s.pml4, q).Some?
    ensures var e := Load(s.ram, Walk(s.ram, s.pml4, q).value, i); Present(e) ==> !Large(e)
  {
    hide Present, Frame, Large, Valid;
    if q == [511] {
      SelfMapPrefix(s, []);
      assert q == [511] + [];
      PlainBehind(s, [], i);
    } else if q != [] || i != 511 {
      var p := q + [i];
      assert p[0] != 511 && (forall j :: 0 <= j < |p| ==> p[j] < 512) && |p| <= 3;
      PlainAt(s, q, i);
    }
  }

  // ----- what the bit does to map_page

  /** Present words outside free pages stay as they are, and no page becomes free. */
  ghost predicate Kept(s: Loader, s': Loader) {
    && |s'.ram| == |s.ram| && s'.pml4 == s.pml4 && (forall x :: x in s'.free ==> x in s.free)
    && forall w :: 0 <= w < |s.ram| && Present(s.ram[w]) && w / 512 !in s.free ==> s'.ram[w] == s.ram[w]
  }

  lemma EnsureKeeps(s: Loader, t: nat, i: nat, flags: nat)
    requires EnsureTable(s, t, i, flags).Some?
    ensures Kept(s, EnsureTable(s, t, i, flags).value.0)
  {
    hide Present, Entry, TableAddress;
  }

  lemma KeptTwice(s: Loader, s1: Loader, s2: Loader)
    requires Kept(s, s1) && Kept(s1, s2)
    ensures Kept(s, s2)
  {
    hide Present;
  }

  lemma {:induction false} DescendKeeps(s: Loader, p: seq<nat>, m: nat, n: nat, flags: nat)
    requires m <= n <= |p| && Descend(s, p, n, flags).Some?
    ensures Descend(s, p, m, flags).Some?
    ensures Kept(Descend(s, p, m, flags).value.0, Descend(s, p, n, flags).value.0)
  {
    hide EnsureTable, Present;
    if m < n {
      DescendKeeps(s, p, m, n - 1, flags);
      var (s1, t) := Descend(s, p, n - 1, flags).value;
      EnsureKeeps(s1, t, p[n - 1], flags);
      KeptTwice(Descend(s, p, m, flags).value.0, s1, Descend(s, p, n, flags).value.0);
    }
  }

  lemma LeafKeeps(s: Loader, t: nat, i: nat, phys: nat, flags: nat)
    ensures Kept(s, SetLeaf(s, t, i, phys, flags))
  {
    hide Present, Entry;
  }

  lemma LoadKept(s: Loader, s': Loader, t: nat, i: nat)
    requires Kept(s, s') && t !in s.free && i < 512 && Present(Load(s.ram, t, i))
    ensures Load(s'.ram, t, i) == Load(s.ram, t, i)
  {
    assert !Present(0);
    assert (512 * t + i) / 512 == t;
  }

  /** The first level of which p has no table yet. */
  function FirstMissing(s: Loader, p: seq<nat>, n: nat): (m: nat)
    requires n <= 3 && |p| == 4
    ensures n <= m <= 3
    decreases 3 - n
  {
    if n == 3 || Walk(s.ram, s.pml4, p[..n + 1]).None? then n else FirstMissing(s, p, n + 1)
  }

  lemma {:induction false} FirstMissingIs(s: Loader, p: seq<nat>, n: nat)
    requires n <= 3 && |p| == 4 && Walk(s.ram, s.pml4, p[..n]).Some? && Missing(s, p, n) == 0
    ensures var m := FirstMissing(s, p, n);
            && Walk(s.ram, s.pml4, p[..m]).Some? && Missing(s, p, m) == 0
            && (m < 3 ==> Walk(s.ram, s.pml4, p[..m + 1]).None?) && (m == 3 <==> Missing(s, p, 3) == 0)
    decreases 3 - n
  {
    hide Walk;
    if n < 3 {
      if Walk(s.ram, s.pml4, p[..n + 1]).Some? {
        FirstMissingIs(s, p, n + 1);
      } else {
        MissingGrows(s, p, n + 1, 3);
      }
    }
  }

  lemma {:induction false} MissingGrows(s: Loader, p: seq<nat>, m: nat, n: nat)
    requires m <= n <= |p|
    ensures Missing(s, p, m) <= Missing(s, p, n)
  {
    if m < n {
      MissingGrows(s, p, m, n - 1);
    }
  }

  /** Over existing tables the descent changes nothing. */
  lemma {:induction false} DescendPresent(s: Loader, p: seq<nat>, n: nat, flags: nat)
    requires Valid(s) && Regular(p) && n <= |p| && n <= 3 && Missing(s, p, n) == 0
    ensures Walk(s.ram, s.pml4, p[..n]).Some?
    ensures Descend(s, p, n, flags) == Some((s, Walk(s.ram, s.pml4, p[..n]).value))
  {
    hide Walk, Valid, EnsureTable;
    if n == 0 {
      DescendNowhere(s, p, flags);
    } else {
      DescendPresent(s, p, n - 1, flags);
      assert p[..n] == p[..n - 1] + [p[n - 1]];
      PresentTable(s, p[..n - 1], p[n - 1], flags);
    }
  }

  /** The entries on the way to level n are those of ram: the translation comes by there. */
  lemma {:induction false} Follow(ram: seq<nat>, ram': seq<nat>, root: nat, p: seq<nat>, j: nat, n: nat)
    requires |p| == 4 && j <= n <= 3 && Walk(ram, root, p[..n]).Some?
    requires forall i :: 0 <= i < n ==> Walk(ram, root, p[..i]).Some?
    requires forall i :: 0 <= i < n ==>
               var e := Load(ram, Walk(ram, root, p[..i]).value, p[i]);
               Present(e) && !Large(e) && Load(ram', Walk(ram, root, p[..i]).value, p[i]) == e
    ensures Walk(ram, root, p[..j]).Some?
    ensures TranslateFrom(ram', Walk(ram, root, p[..j]).value, p, j)
         == TranslateFrom(ram', Walk(ram, root, p[..n]).value, p, n)
    decreases n - j
  {
    hide Present, Frame, Large;
    if j < n {
      Follow(ram, ram', root, p, j + 1, n);
      assert p[..j + 1] == p[..j] + [p[j]];
      WalkStep(ram, root, p[..j], p[j]);
    }
  }

  lemma {:induction false} SameWalk(ram: seq<nat>, ram': seq<nat>, root: nat, p: seq<nat>, n: nat)
    requires n <= |p| && Walk(ram, root, p[..n]).Some?
    requires forall i :: 0 <= i < n && Walk(ram, root, p[..i]).Some? ==>
               Load(ram', Walk(ram, root, p[..i]).value, p[i]) == Load(ram, Walk(ram, root, p[..i]).value, p[i])
    ensures Walk(ram', root, p[..n]) == Walk(ram, root, p[..n])
  {
    hide Present, Frame;
    if n > 0 {
      assert p[..n] == p[..n - 1] + [p[n - 1]];
      WalkStep(ram, root, p[..n - 1], p[n - 1]);
      SameWalk(ram, ram', root, p, n - 1);
      WalkStep(ram', root, p[..n - 1], p[n - 1]);
    }
  }

  /** The entries above level n of p, and the one made at level n, as map_page leaves them. */
  lemma LinkedAndKept(s: Loader, phys: nat, virt: nat, flags: nat, n: nat)
    requires Valid(s) && Pml4Index(virt) != 511 && MapPage(s, phys, virt, flags).Some? && n < 3
    requires |Indices(virt)| == 4 && Regular(Indices(virt))
    requires LowPages(s.free, 1)
    requires var p := Indices(virt);
             Missing(s, p, n) == 0 && Walk(s.ram, s.pml4, p[..n]).Some? && Walk(s.ram, s.pml4, p[..n + 1]).None?
    ensures var s', p := MapPage(s, phys, virt, flags).value, Indices(virt);
            && s.free != [] && s'.pml4 == s.pml4
            && Load(s'.ram, Walk(s.ram, s.pml4, p[..n]).value, p[n]) == Entry(s.free[0] * 0x1000, flags)
            && (forall i :: 0 <= i < n ==> Walk(s.ram, s.pml4, p[..i]).Some?)
            && forall i :: 0 <= i < n ==>
                 var e := Load(s.ram, Walk(s.ram, s.pml4, p[..i]).value, p[i]);
                 Present(e) && !Large(e) && Load(s'.ram, Walk(s.ram, s.pml4, p[..i]).value, p[i]) == e
  {
    hide Present, Frame, Large, Entry, TableAddress, Link, Indices, Walk, Missing;
    var p, s' := Indices(virt), MapPage(s, phys, virt, flags).value;
    var q, t := p[..n], Walk(s.ram, s.pml4, p[..n]).value;
    assert q + [p[n]] == p[..n + 1];
    DescendPresent(s, p, n, flags);
    DescendKeeps(s, p, n + 1, 3, flags);
    WalkStep(s.ram, s.pml4, q, p[n]);
    var s1 := Descend(s, p, n + 1, flags).value.0;
    var (s3, t3) := Descend(s, p, 3, flags).value;
    assert s.free != [];
    LoadsAfterLink(s, q, p[n], flags);
    LeafKeeps(s3, t3, PtIndex(virt), phys, flags);
    KeptTwice(s1, s3, s');
    TablesStayUsed(s, s1, q);
    EntryPresent(s.free[0] * 0x1000, flags);
    LoadKept(s1, s', t, p[n]);
    forall i | 0 <= i < n
      ensures Walk(s.ram, s.pml4, p[..i]).Some?
      ensures var e := Load(s.ram, Walk(s.ram, s.pml4, p[..i]).value, p[i]);
              Present(e) && !Large(e) && Load(s'.ram, Walk(s.ram, s.pml4, p[..i]).value, p[i]) == e
    {
      OnTheWay(s, p, i, n);
      TablesStayUsed(s, s1, p[..i]);
      LoadKept(s1, s', Walk(s.ram, s.pml4, p[..i]).value, p[i]);
    }
  }

  /** A table is not the page just taken, nor one that is still free. */
  lemma TablesStayUsed(s: Loader, s1: Loader, q: seq<nat>)
    requires Valid(s) && TablePath(q) && Walk(s.ram, s.pml4, q).Some? && s.free != [] && s1.free == s.free[1..]
    ensures Walk(s.ram, s.pml4, q).value !in s1.free && Walk(s.ram, s.pml4, q).value != s.free[0]
  {
    var t := Walk(s.ram, s.pml4, q).value;
    assert t in s.rsrv;
    forall k | 0 <= k < |s.free|
      ensures s.free[k] != t
    {
      FreeIsNotReserved(s, k);
    }
  }

  lemma OnTheWay(s: Loader, p: seq<nat>, i: nat, n: nat)
    requires Valid(s) && Regular(p) && |p| == 4 && i < n < 3 && Walk(s.ram, s.pml4, p[..n]).Some?
    ensures Walk(s.ram, s.pml4, p[..i]).Some? && TablePath(p[..i])
    ensures var e := Load(s.ram, Walk(s.ram, s.pml4, p[..i]).value, p[i]); Present(e) && !Large(e)
  {
    hide Present, Frame, Large;
    WalkPrefix(s.ram, s.pml4, p[..i], p[..n]);
    WalkPrefix(s.ram, s.pml4, p[..i + 1], p[..n]);
    assert p[..i + 1] == p[..i] + [p[i]];
    WalkStep(s.ram, s.pml4, p[..i], p[i]);
    assert TablePath(p[..i] + [p[i]]);
  }

  /** What the processor makes of a page after map_page, whatever bit 7 of its flags: the page it
      was mapped to before, else the page asked for; but if a table had to be made and the bit is
      set, the large page that the first new entry stands for, if any.  Exactly then the tables
      are no longer valid. */
  lemma MapPageTranslates(s: Loader, phys: nat, virt: nat, flags: nat)
    requires Valid(s) && CleanFlags(flags) && Pml4Index(virt) != 511 && phys < 0x10_0000_0000_0000
    requires LowPages(s.free, Missing(s, Indices(virt), 3)) && MapPage(s, phys, virt, flags).Some?
    ensures |Indices(virt)| == 4
    ensures var s', p, m := MapPage(s, phys, virt, flags).value, Indices(virt), Missing(s, Indices(virt), 3);
            && (Valid(s') <==> Usable(flags, m))
            && (!Usable(flags, m) ==> s.free != [])
            && Translate(s'.ram, s'.pml4, p)
               == (if Walk(s.ram, s.pml4, p).Some? then Walk(s.ram, s.pml4, p)
                   else if Usable(flags, m) then Some(phys / 0x1000)
                   else LargeFrame(Entry(s.free[0] * 0x1000, flags), p, FirstMissing(s, p, 0)))
  {
    hide Present, Frame, Large, Entry, TableAddress, Link, Indices, Walk;
    IndicesRegular(virt);
    var s', p, m := MapPage(s, phys, virt, flags).value, Indices(virt), Missing(s, Indices(virt), 3);
    if Usable(flags, m) {
      MapPageCorrect(s, phys, virt, flags);
      TranslateIsWalk(s', p);
    } else {
      LargeTranslates(s, phys, virt, flags);
    }
  }

  lemma LargeTranslates(s: Loader, phys: nat, virt: nat, flags: nat)
    requires Valid(s) && Pml4Index(virt) != 511 && MapPage(s, phys, virt, flags).Some?
    requires |Indices(virt)| == 4 && Regular(Indices(virt)) && Large(flags)
    requires Missing(s, Indices(virt), 3) > 0 && LowPages(s.free, Missing(s, Indices(virt), 3))
    ensures var s', p := MapPage(s, phys, virt, flags).value, Indices(virt);
            && s.free != [] && Walk(s.ram, s.pml4, p).None? && !Valid(s')
            && Translate(s'.ram, s'.pml4, p)
               == LargeFrame(Entry(s.free[0] * 0x1000, flags), p, FirstMissing(s, p, 0))
  {
    hide Present, Frame, Large, Entry, Link, Indices, MapPage, Walk, TranslateFrom, LargeFrame, Valid;
    var s', p := MapPage(s, phys, virt, flags).value, Indices(virt);
    RootWalk(s.ram, s.pml4, p);
    FirstMissingIs(s, p, 0);
    var n := FirstMissing(s, p, 0);
    LinkedAndKept(s, phys, virt, flags, n);
    EntryPresent(s.free[0] * 0x1000, flags);
    EntryLarge(s.free[0] * 0x1000, flags);
    Follow(s.ram, s'.ram, s.pml4, p, 0, n);
    SameWalk(s.ram, s'.ram, s.pml4, p, n);
    if Walk(s.ram, s.pml4, p).Some? {
      WalkPrefix(s.ram, s.pml4, p[..n + 1], p);
    }
    LargeHere(s', p, n);
  }

  lemma RootWalk(ram: seq<nat>, root: nat, p: seq<nat>)
    ensures Walk(ram, root, p[..0]) == Some(root)
  {
  }

  lemma LargeHere(s: Loader, p: seq<nat>, n: nat)
    requires |p| == 4 && Regular(p) && n < 3 && Walk(s.ram, s.pml4, p[..n]).Some?
    requires var e := Load(s.ram, Walk(s.ram, s.pml4, p[..n]).value, p[n]); Present(e) && Large(e)
    ensures !Valid(s)
    ensures var t := Walk(s.ram, s.pml4, p[..n]).value;
            TranslateFrom(s.ram, t, p, n) == LargeFrame(Load(s.ram, t, p[n]), p, n)
  {
    hide Present, Frame, Large, TableAddress;
    assert p[..n] + [p[n]] == p[..n + 1];
    assert TablePath(p[..n] + [p[n]]);
    assert !LoaderAgrees(s);
  }
}
