/** Slot 511 of the root table points back at the root.  What the recursive mapping gives
    access to (arch/x86-64/mmu.cc, loader/x86-64-multiboot2/mem.cc). */
module SelfMap {
  import opened Bits
  import opened Wrappers
  import opened PageEntry
  import opened PageIndex
  import opened PageTable
  import opened PageMapping

  // Present and writable
  const SELF_FLAGS := 3

  ghost predicate SelfMapped(s: Loader) {
    var e := Load(s.ram, s.pml4, 511);
    Present(e) && Frame(e) == s.pml4 && !Large(e)
  }

  function OrSelf(page: nat): nat { Or(page * 0x1000, SELF_FLAGS) }

  /** setup_paging: a zeroed root table whose last entry is itself. */
  function SetupPaging(s: Loader): Option<Loader> {
    var (s1, page) :- TakePage(s);
    Some(s1.(ram := Store(ZeroPage(s1.ram, page), 512 * page + 511, OrSelf(page)), pml4 := page))
  }

  lemma SelfEntry(page: nat)
    requires page < LOW_PAGES
    ensures Present(OrSelf(page)) && Frame(OrSelf(page)) == page && !Large(OrSelf(page))
  {
    hide And, Or;
    var e := OrSelf(page);
    Pow2Values();
    OrAdd(page * 0x1000, SELF_FLAGS, 12);
    assert e == page * 0x1000 + 3;
    QuotientUnique(e, 0x1000, page, 3);
    QuotientUnique(e, 2, page * 0x800 + 1, 1);
    AndOne(e);
    AndFrameMask(e);
    AndSizeBit(e);
    QuotientUnique(e, 0x80, page * 0x20, 3);
    QuotientUnique(e, 0x100, page * 0x10, 3);
  }

  /** The tables set up first are valid, self-mapped and map nothing else. */
  lemma SetupPagingCorrect(s: Loader)
    requires ListsValid(s) && LowPages(s.free, 1)
    ensures SetupPaging(s).Some? <==> s.free != []
    ensures SetupPaging(s).Some? ==>
              var s' := SetupPaging(s).value;
              && Valid(s') && SelfMapped(s')
              && MovedPages(s, s'.(pml4 := s.pml4), 1)
              && forall p :: Regular(p) && p != [] ==> Walk(s'.ram, s'.pml4, p).None?
  {
    if s.free != [] {
      var page, s' := s.free[0], SetupPaging(s).value;
      assert page in s.free && InRam(s.ram, page);
      assert forall j: nat :: j < 511 ==> Load(s'.ram, page, j) == 0;
      SelfEntry(page);
      forall p | Regular(p) && p != []
        ensures Walk(s'.ram, s'.pml4, p).None?
      {
        EmptyRoot(s'.ram, page, p);
      }
      forall x | x in s'.free
        ensures InRam(s'.ram, x)
      {
        assert x in s.free;
      }
      RotateKeepsDistinct(s.free, s.rsrv);
      assert !Present(0);
      forall q, j | TablePath(q + [j]) && Walk(s'.ram, s'.pml4, q).Some?
        ensures !Present(Load(s'.ram, Walk(s'.ram, s'.pml4, q).value, j))
      {
        TablePathPrefix(q, j);
        WalkStep(s'.ram, s'.pml4, q, j);
        assert Walk(s'.ram, s'.pml4, q + [j]).None?;
      }
    }
  }

  lemma {:induction false} EmptyRoot(ram: seq<nat>, root: nat, p: seq<nat>)
    requires Regular(p) && p != []
    requires forall j: nat :: j < 511 ==> Load(ram, root, j) == 0
    ensures Walk(ram, root, p).None?
    decreases |p|
  {
    if |p| == 1 {
      assert p == [] + [p[0]];
      WalkStep(ram, root, [], p[0]);
      assert !Present(0);
    } else {
      var q := p[..|p| - 1];
      assert q[0] == p[0];
      EmptyRoot(ram, root, q);
    }
  }

  lemma RotateKeepsDistinct(a: seq<nat>, b: seq<nat>)
    requires a != [] && Distinct(a + b)
    ensures Distinct(a[1..] + (b + [a[0]]))
  {
    var all, all' := a + b, a[1..] + (b + [a[0]]);
    forall j, k | 0 <= j < k < |all'|
      ensures all'[j] != all'[k]
    {
      assert all'[j] == all[j + 1];
      assert all'[k] == if k + 1 < |all| then all[k + 1] else all[0];
    }
  }

  /** An index 511 in front of a path changes nothing: the walk stays at the root. */
  lemma {:induction false} SelfMapPrefix(s: Loader, p: seq<nat>)
    requires SelfMapped(s)
    ensures Walk(s.ram, s.pml4, [511] + p) == Walk(s.ram, s.pml4, p)
    decreases |p|
  {
    if p == [] {
      assert [511] + p == [] + [511];
      WalkStep(s.ram, s.pml4, [], 511);
    } else {
      var q, i := p[..|p| - 1], p[|p| - 1];
      assert p == q + [i] && [511] + p == ([511] + q) + [i];
      SelfMapPrefix(s, q);
      WalkStep(s.ram, s.pml4, q, i);
      WalkStep(s.ram, s.pml4, [511] + q, i);
    }
  }

  /** The address of the table at the end of a path of up to three indices. */
  function TableVirt(p: seq<nat>): nat
    requires |p| <= 3
  {
    match |p|
    case 0 => VirtFromIndex(511, 511, 511, 511)
    case 1 => VirtFromIndex(511, 511, 511, p[0])
    case 2 => VirtFromIndex(511, 511, p[0], p[1])
    case _ => VirtFromIndex(511, p[0], p[1], p[2])
  }

  /** Walking a self-mapped address ends at the table the address is named after. */
  lemma SelfMapReachesTables(s: Loader, p: seq<nat>)
    requires SelfMapped(s) && |p| <= 3 && forall i :: 0 <= i < |p| ==> p[i] < 512
    ensures Walk(s.ram, s.pml4, Indices(TableVirt(p))) == Walk(s.ram, s.pml4, p)
  {
    TableVirtIndices(p);
    match |p|
    case 0 =>
      SelfMapPrefix(s, [511, 511, 511] + p);
      SelfMapThrice(s, p);
    case 1 => SelfMapThrice(s, p);
    case 2 => SelfMapTwice(s, p);
    case _ => SelfMapPrefix(s, p);
  }

  lemma TableVirtIndices(p: seq<nat>)
    requires |p| <= 3 && forall i :: 0 <= i < |p| ==> p[i] < 512
    ensures Indices(TableVirt(p))
         == match |p|
            case 0 => [511] + ([511, 511, 511] + p)
            case 1 => [511, 511, 511] + p
            case 2 => [511, 511] + p
            case _ => [511] + p
  {
    match |p|
    case 0 => IndicesOfVirt(511, 511, 511, 511);
    case 1 => IndicesOfVirt(511, 511, 511, p[0]);
    case 2 => IndicesOfVirt(511, 511, p[0], p[1]);
    case _ => IndicesOfVirt(511, p[0], p[1], p[2]);
  }

  lemma SelfMapTwice(s: Loader, p: seq<nat>)
    requires SelfMapped(s)
    ensures Walk(s.ram, s.pml4, [511, 511] + p) == Walk(s.ram, s.pml4, p)
  {
    assert [511, 511] + p == [511] + ([511] + p);
    SelfMapPrefix(s, [511] + p);
    SelfMapPrefix(s, p);
  }

  lemma SelfMapThrice(s: Loader, p: seq<nat>)
    requires SelfMapped(s)
    ensures Walk(s.ram, s.pml4, [511, 511, 511] + p) == Walk(s.ram, s.pml4, p)
  {
    assert [511, 511, 511] + p == [511] + ([511, 511] + p);
    SelfMapPrefix(s, [511, 511] + p);
    SelfMapTwice(s, p);
  }
}
