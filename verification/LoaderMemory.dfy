/** The loader's memory as the program sees it: words changed in place and two page lists
    (loader/x86-64-multiboot2/mem.cc). */
module LoaderMemory {
  import opened Wrappers
  import opened PageEntry
  import opened PageIndex
  import opened PageTable
  import opened PageMapping
  import opened SelfMap

  class LoaderMemory {
    const ram: array<nat>
    var freelist: seq<nat>
    var rsrvlist: seq<nat>
    var pml4: nat

    constructor (ram: array<nat>, freelist: seq<nat>, rsrvlist: seq<nat>)
      ensures this.ram == ram && Abs() == Loader(ram[..], freelist, rsrvlist, 0)
    {
      this.ram, this.freelist, this.rsrvlist, this.pml4 := ram, freelist, rsrvlist, 0;
    }

    ghost function Abs(): Loader
      reads this, ram
    {
      Loader(ram[..], freelist, rsrvlist, pml4)
    }

    method Memset(page: nat)
      requires InRam(ram[..], page)
      modifies ram
      ensures ram[..] == ZeroPage(old(ram[..]), page)
      ensures forall w :: 0 <= w < ram.Length ==> ram[w] == if w / 512 == page then 0 else old(ram[w])
    {
      var k := 512 * page;
      while k < 512 * (page + 1)
        invariant 512 * page <= k <= 512 * (page + 1)
        invariant forall w :: 0 <= w < ram.Length ==>
                    ram[w] == if 512 * page <= w < k then 0 else old(ram[w])
      {
        ram[k] := 0;
        k := k + 1;
      }
    }

    /** pmm_alloc_page; ok is false where the source panics. */
    method PmmAllocPage() returns (ok: bool, page: nat)
      requires forall x :: x in freelist ==> InRam(ram[..], x)
      modifies this`freelist, this`rsrvlist, ram
      ensures ok <==> TakePage(old(Abs())).Some?
      ensures ok ==> (Abs(), page) == TakePage(old(Abs())).value
      ensures ok ==>
                && page == old(freelist)[0] && freelist == old(freelist)[1..] && rsrvlist == old(rsrvlist) + [page]
                && forall w :: 0 <= w < ram.Length ==> ram[w] == if w / 512 == page then 0 else old(ram[w])
      ensures !ok ==> Abs() == old(Abs())
    {
      ok, page := freelist != [], 0;
      if ok {
        page := freelist[0];
        freelist := freelist[1..];
        rsrvlist := rsrvlist + [page];
        Memset(page);
      }
    }

    /** The table behind slot i of a table, made if the entry is not present. */
    method FollowOrMake(table: nat, i: nat, flags: nat) returns (ok: bool, next: nat)
      requires InRam(ram[..], table) && i < 512
      requires forall x :: x in freelist ==> InRam(ram[..], x)
      modifies this`freelist, this`rsrvlist, ram
      ensures ok <==> EnsureTable(old(Abs()), table, i, flags).Some?
      ensures ok ==> (Abs(), next) == EnsureTable(old(Abs()), table, i, flags).value
      ensures !ok ==> Abs() == old(Abs())
    {
      hide Present, TableAddress, Entry;
      ok := true;
      if !Present(ram[512 * table + i]) {
        ok, next := PmmAllocPage();
        if ok {
          ram[512 * table + i] := Entry(next * 0x1000, flags);
        }
      } else {
        next := TableAddress(ram[512 * table + i]) / 0x1000;
      }
    }

    /** The last level: an entry is only written where none is present. */
    method SetLeafEntry(table: nat, i: nat, phys: nat, flags: nat)
      requires InRam(ram[..], table) && i < 512
      modifies ram
      ensures Abs() == SetLeaf(old(Abs()), table, i, phys, flags)
    {
      hide Present, Entry;
      if !Present(ram[512 * table + i]) {
        ram[512 * table + i] := Entry(phys, flags);
      }
    }

    /** map_page; ok is false where the source panics. */
    method MapPage(phys: nat, virt: nat, flags: nat) returns (ok: bool)
      requires Valid(Abs()) && Usable(flags, Missing(Abs(), Indices(virt), 3)) && Pml4Index(virt) != 511
      requires phys < 0x10_0000_0000_0000
      requires LowPages(freelist, Missing(Abs(), Indices(virt), 3))
      modifies this`freelist, this`rsrvlist, ram
      ensures ok <==> PageTable.MapPage(old(Abs()), phys, virt, flags).Some?
      ensures ok ==> Abs() == PageTable.MapPage(old(Abs()), phys, virt, flags).value
      ensures ok ==> Grown(old(Abs()), Abs(), Indices(virt), Missing(old(Abs()), Indices(virt), 3))
      ensures ok ==> var was := Walk(old(ram[..]), pml4, Indices(virt));
                     Walk(ram[..], pml4, Indices(virt)) == if was.Some? then was else Some(phys / 0x1000)
    {
      hide Present, Frame, TableAddress, Entry, Walk, Valid, EnsureTable, PtIndex, PdIndex, PdptIndex, Pml4Index;
      ghost var s, p := Abs(), Indices(virt);
      MapPageCorrect(s, phys, virt, flags);
      IndicesRegular(virt);
      assert p[0] == Pml4Index(virt) < 512 && p[1] == PdptIndex(virt) < 512;
      assert p[2] == PdIndex(virt) < 512 && p[3] == PtIndex(virt) < 512;
      if phys % 0x1000 != 0 || virt % 0x1000 != 0 {
        return false;
      }
      var pdpt, pd, pt;
      LevelInRam(s, p, 0, flags);
      ok, pdpt := FollowOrMake(pml4, Pml4Index(virt), flags);
      assert Descend(s, p, 1, flags) == EnsureTable(s, pml4, p[0], flags);
      if !ok {
        assert Descend(s, p, 2, flags).None?;
        return;
      }
      LevelInRam(s, p, 1, flags);
      ok, pd := FollowOrMake(pdpt, PdptIndex(virt), flags);
      if !ok {
        assert Descend(s, p, 2, flags).None?;
        return;
      }
      LevelInRam(s, p, 2, flags);
      ok, pt := FollowOrMake(pd, PdIndex(virt), flags);
      if !ok {
        return;
      }
      LevelInRam(s, p, 3, flags);
      var i := PtIndex(virt);
      SetLeafEntry(pt, i, phys, flags);
    }

    /** A mapping loop: n pages from phys on, mapped at virt on. */
    method MapRun(phys: nat, virt: nat, n: nat, flags: nat) returns (ok: bool)
      requires Valid(Abs()) && forall r :: r in Run(phys, virt, n, flags) ==> r.Proper()
      requires LowPages(freelist, |NewTables(Abs(), Run(phys, virt, n, flags))|)
      modifies this`freelist, this`rsrvlist, ram
      ensures ok <==> |NewTables(old(Abs()), Run(phys, virt, n, flags))| <= |old(freelist)|
      ensures ok ==> Mapped(old(Abs()), Abs(), Run(phys, virt, n, flags))
      ensures ok ==> forall i: nat | i < n && FirstInRun(virt, i) ::
                var p := Indices(virt + i * 0x1000);
                Walk(ram[..], pml4, p) == if Walk(old(ram[..]), pml4, p).Some? then Walk(old(ram[..]), pml4, p)
                                          else Some(phys / 0x1000 + i)
    {
      hide Valid, Walk, NewTables, Grown, Request.Proper, MapAll, PageTable.MapPage, Mapped, Missing,
           Pml4Index, LowPages, Usable;
      ghost var s, reqs := Abs(), Run(phys, virt, n, flags);
      MapAllCorrect(s, reqs);
      assert reqs[0..] == reqs;
      var i := 0;
      while i < n
        invariant i <= n
        invariant Valid(Abs()) && LowPages(freelist, |NewTables(Abs(), reqs[i..])|)
        invariant MapAll(Abs(), reqs[i..]) == MapAll(s, reqs)
      {
        ghost var s1, rest := Abs(), reqs[i..];
        assert rest[0] == reqs[i] == Request(phys + i * 0x1000, virt + i * 0x1000, flags);
        assert rest[1..] == reqs[i + 1..];
        NextRequest(s1, rest);
        ok := MapPage(phys + i * 0x1000, virt + i * 0x1000, flags);
        if !ok {
          return;
        }
        i := i + 1;
      }
      ok := true;
      NoRequests(Abs());
      assert reqs[i..] == [];
      RunMaps(s, Abs(), phys, virt, n, flags);
    }

    /** setup_paging; ok is false where the source panics. */
    method SetupPaging() returns (ok: bool)
      requires ListsValid(Abs()) && LowPages(freelist, 1)
      modifies this, ram
      ensures ok <==> SelfMap.SetupPaging(old(Abs())).Some?
      ensures ok ==> Abs() == SelfMap.SetupPaging(old(Abs())).value && Valid(Abs()) && SelfMapped(Abs())
    {
      SetupPagingCorrect(Abs());
      var page;
      ok, page := PmmAllocPage();
      if ok {
        assert page == old(freelist)[0] && page in old(freelist);
        pml4 := page;
        Memset(page);
        ram[512 * page + 511] := OrSelf(page);
      }
    }
  }

  function Run(phys: nat, virt: nat, n: nat, flags: nat): seq<Request> {
    seq(n, k requires 0 <= k < n => Request(phys + k * 0x1000, virt + k * 0x1000, flags))
  }

  /** No page of the loop before page i has its indices: so it is while the loop does not come
      round the address space. */
  predicate FirstInRun(virt: nat, i: nat) {
    forall j: nat | j < i :: Indices(virt + j * 0x1000) != Indices(virt + i * 0x1000)
  }

  lemma {:induction false} FirstOf(phys: nat, virt: nat, n: nat, flags: nat, reqs: seq<Request>, k: nat, i: nat)
    requires phys % 0x1000 == 0 && k <= i < n && FirstInRun(virt, i) && reqs == Run(phys, virt, n, flags)[k..]
    ensures FirstFor(reqs, Indices(virt + i * 0x1000)) == Some(phys / 0x1000 + i)
    decreases i - k
  {
    hide Indices;
    assert reqs[0] == Request(phys + k * 0x1000, virt + k * 0x1000, flags);
    if k < i {
      assert reqs[1..] == Run(phys, virt, n, flags)[k + 1..];
      FirstOf(phys, virt, n, flags, reqs[1..], k + 1, i);
    }
  }

  /** Consecutive pages go to consecutive pages. */
  lemma RunMaps(s: Loader, s': Loader, phys: nat, virt: nat, n: nat, flags: nat)
    requires Mapped(s, s', Run(phys, virt, n, flags)) && forall r :: r in Run(phys, virt, n, flags) ==> r.Proper()
    ensures forall i: nat | i < n && FirstInRun(virt, i) ::
              var p := Indices(virt + i * 0x1000);
              Walk(s'.ram, s'.pml4, p) == if Walk(s.ram, s.pml4, p).Some? then Walk(s.ram, s.pml4, p)
                                          else Some(phys / 0x1000 + i)
  {
    hide Walk, PageTable.Valid, Pml4Index, PdptIndex, PdIndex, PtIndex, NewTables, FirstInRun;
    var reqs := Run(phys, virt, n, flags);
    assert reqs[0..] == reqs;
    forall i: nat | i < n && FirstInRun(virt, i)
      ensures var p := Indices(virt + i * 0x1000);
              Walk(s'.ram, s'.pml4, p) == if Walk(s.ram, s.pml4, p).Some? then Walk(s.ram, s.pml4, p)
                                          else Some(phys / 0x1000 + i)
    {
      assert reqs[i] in reqs && reqs[0] in reqs && reqs[0] == Request(phys, virt, flags);
      IndicesRegular(virt + i * 0x1000);
      FirstOf(phys, virt, n, flags, reqs, 0, i);
    }
  }

  lemma NoRequests(s: Loader)
    ensures MapAll(s, []) == Some(s)
  {
  }

  lemma NextRequest(s: Loader, reqs: seq<Request>)
    requires PageTable.Valid(s) && reqs != [] && forall r :: r in reqs ==> r.Proper()
    requires LowPages(s.free, |NewTables(s, reqs)|)
    ensures var r := reqs[0];
            && Usable(r.flags, Missing(s, Indices(r.virt), 3)) && Pml4Index(r.virt) != 511 && r.phys < 0x10_0000_0000_0000
            && LowPages(s.free, Missing(s, Indices(r.virt), 3))
            && (PageTable.MapPage(s, r.phys, r.virt, r.flags).Some? ==>
                  var s1 := PageTable.MapPage(s, r.phys, r.virt, r.flags).value;
                  && PageTable.Valid(s1) && LowPages(s1.free, |NewTables(s1, reqs[1..])|)
                  && MapAll(s1, reqs[1..]) == MapAll(s, reqs))
            && (PageTable.MapPage(s, r.phys, r.virt, r.flags).None? ==> MapAll(s, reqs).None?)
  {
    var r := reqs[0];
    assert r in reqs;
    FirstTablesAreNew(s, reqs);
    MapPageCorrect(s, r.phys, r.virt, r.flags);
    if PageTable.MapPage(s, r.phys, r.virt, r.flags).Some? {
      NewTablesCount(s, PageTable.MapPage(s, r.phys, r.virt, r.flags).value, reqs);
    }
  }

  /** Each level's table and the free pages lie in memory. */
  lemma LevelInRam(s: Loader, p: seq<nat>, n: nat, flags: nat)
    requires PageTable.Valid(s) && Regular(p) && |p| == 4 && n <= 3 && Usable(flags, Missing(s, p, 3))
    requires LowPages(s.free, Missing(s, p, 3))
    ensures Missing(s, p, n) <= Missing(s, p, 3)
    ensures Descend(s, p, n, flags).Some? ==>
              var (s', t) := Descend(s, p, n, flags).value;
              InRam(s'.ram, t) && (forall x :: x in s'.free ==> InRam(s'.ram, x))
              && s'.pml4 == s.pml4 && |s'.ram| == |s.ram|
  {
    assert Missing(s, p, 3) >= Missing(s, p, 2) >= Missing(s, p, 1) >= Missing(s, p, 0);
    DescendCorrect(s, p, n, flags);
    if Descend(s, p, n, flags).Some? {
      var (s', t) := Descend(s, p, n, flags).value;
      assert TablePath(p[..n]);
    }
  }
}
