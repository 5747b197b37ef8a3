/** map_page as a whole, and any sequence of calls to it: the page tables refine a map from
    virtual pages to physical pages (loader/x86-64-multiboot2/mem.cc and main.cc). */
module PageMapping {
  import opened Wrappers
  import opened PageEntry
  import opened PageIndex
  import opened PageTable

  lemma IndicesRegular(virt: nat)
    requires Pml4Index(virt) != 511
    ensures Regular(Indices(virt)) && |Indices(virt)| == 4
  {
    IndicesAreArithmetic(virt);
  }

  /** What one call of map_page does to every walk, to the page lists and to the tree. */
  lemma MapPageCorrect(s: Loader, phys: nat, virt: nat, flags: nat)
    requires Valid(s) && Usable(flags, Missing(s, Indices(virt), 3)) && Pml4Index(virt) != 511
    requires phys < 0x10_0000_0000_0000
    requires LowPages(s.free, Missing(s, Indices(virt), 3))
    ensures MapPage(s, phys, virt, flags).Some?
            <==> phys % 0x1000 == 0 && virt % 0x1000 == 0 && Missing(s, Indices(virt), 3) <= |s.free|
    ensures MapPage(s, phys, virt, flags).Some? ==>
              var s', p := MapPage(s, phys, virt, flags).value, Indices(virt);
              && Grown(s, s', p, Missing(s, p, 3))
              && Walk(s'.ram, s'.pml4, p)
                 == (if Walk(s.ram, s.pml4, p).Some? then Walk(s.ram, s.pml4, p) else Some(phys / 0x1000))
  {
    hide Present, Frame, TableAddress, Entry, Pml4Index;
    var p := Indices(virt);
    IndicesRegular(virt);
    DescendCorrect(s, p, 3, flags);
    if MapPage(s, phys, virt, flags).Some? {
      var (s1, t) := Descend(s, p, 3, flags).value;
      var s' := MapPage(s, phys, virt, flags).value;
      var q, i, k := p[..3], p[3], Missing(s, p, 3);
      assert p == q + [i];
      LeafWalks(s1, q, i, phys, flags);
      LeafIsValid(s1, q, i, phys, flags);
      assert Walk(s1.ram, s1.pml4, p) == Walk(s.ram, s.pml4, p);
      assert Grown(s1, s', q + [i], 0);
      GrownTwice(s, s1, s', q, i, k, 0);
    }
  }

  // ----- sequences of calls

  datatype Request = Request(phys: nat, virt: nat, flags: nat) {
    predicate Proper() {
      && phys % 0x1000 == 0 && virt % 0x1000 == 0 && phys < 0x10_0000_0000_0000
      && Usable(flags, 1) && Pml4Index(virt) != 511
    }
  }

  function MapAll(s: Loader, reqs: seq<Request>): Option<Loader>
    decreases |reqs|
  {
    if reqs == [] then Some(s)
    else
      var s1 :- MapPage(s, reqs[0].phys, reqs[0].virt, reqs[0].flags);
      MapAll(s1, reqs[1..])
  }

  /** The page the first request for path p asks for. */
  function FirstFor(reqs: seq<Request>, p: seq<nat>): Option<nat> {
    if reqs == [] then None
    else if Indices(reqs[0].virt) == p then Some(reqs[0].phys / 0x1000)
    else FirstFor(reqs[1..], p)
  }

  /** The table prefixes the requests pass through that have no table yet. */
  ghost function NewTables(s: Loader, reqs: seq<Request>): set<seq<nat>> {
    set k, n | 0 <= k < |reqs| && 1 <= n <= 3 && Walk(s.ram, s.pml4, Indices(reqs[k].virt)[..n]).None? ::
      Indices(reqs[k].virt)[..n]
  }

  ghost function MissingPrefixes(s: Loader, p: seq<nat>, n: nat): set<seq<nat>>
    requires n <= |p|
  {
    set m | 1 <= m <= n && Walk(s.ram, s.pml4, p[..m]).None? :: p[..m]
  }

  lemma {:induction false} MissingIsCardinality(s: Loader, p: seq<nat>, n: nat)
    requires n <= |p|
    ensures |MissingPrefixes(s, p, n)| == Missing(s, p, n)
  {
    hide Walk;
    if n > 0 {
      MissingIsCardinality(s, p, n - 1);
      var before := MissingPrefixes(s, p, n - 1);
      forall q | q in before
        ensures |q| < n
      {
      }
      if Walk(s.ram, s.pml4, p[..n]).None? {
        assert MissingPrefixes(s, p, n) == before + {p[..n]};
      } else {
        assert MissingPrefixes(s, p, n) == before;
      }
    }
  }

  /** After a call for path p, exactly the tables on p are no longer missing. */
  lemma StillMissing(s: Loader, s1: Loader, p: seq<nat>, k: nat, q: seq<nat>)
    requires Grown(s, s1, p, k) && Regular(q) && |q| <= 4
    ensures Walk(s1.ram, s1.pml4, q).None? <==> Walk(s.ram, s.pml4, q).None? && !(q <= p)
  {
    if q <= p {
      WalkPrefix(s1.ram, s1.pml4, q, p);
    }
  }

  lemma RequestPrefix(r: Request, n: nat)
    requires r.Proper() && n <= 4
    ensures |Indices(r.virt)| == 4 && Regular(Indices(r.virt)[..n])
  {
    IndicesRegular(r.virt);
  }

  lemma LaterTablesAreNew(s: Loader, s1: Loader, reqs: seq<Request>, q: seq<nat>)
    requires reqs != [] && forall r :: r in reqs ==> r.Proper()
    requires Grown(s, s1, Indices(reqs[0].virt), Missing(s, Indices(reqs[0].virt), 3))
    requires q in NewTables(s1, reqs[1..])
    ensures q in NewTables(s, reqs) && q !in MissingPrefixes(s, Indices(reqs[0].virt), 3)
  {
    hide Present, Frame, TableAddress, Entry, Pml4Index;
    var p, rest := Indices(reqs[0].virt), reqs[1..];
    var k, n :| 0 <= k < |rest| && 1 <= n <= 3 && Walk(s1.ram, s1.pml4, Indices(rest[k].virt)[..n]).None?
                && q == Indices(rest[k].virt)[..n];
    assert reqs[k + 1] == rest[k];
    RequestPrefix(rest[k], n);
    StillMissing(s, s1, p, Missing(s, p, 3), q);
    assert forall m :: m in MissingPrefixes(s, p, 3) ==> m <= p;
  }

  lemma NewTablesAreFirstOrLater(s: Loader, s1: Loader, reqs: seq<Request>, q: seq<nat>)
    requires reqs != [] && forall r :: r in reqs ==> r.Proper()
    requires Grown(s, s1, Indices(reqs[0].virt), Missing(s, Indices(reqs[0].virt), 3))
    requires q in NewTables(s, reqs)
    ensures q in MissingPrefixes(s, Indices(reqs[0].virt), 3) || q in NewTables(s1, reqs[1..])
  {
    hide Present, Frame, TableAddress, Entry, Pml4Index;
    var p, rest := Indices(reqs[0].virt), reqs[1..];
    var k, n :| 0 <= k < |reqs| && 1 <= n <= 3 && Walk(s.ram, s.pml4, Indices(reqs[k].virt)[..n]).None?
                && q == Indices(reqs[k].virt)[..n];
    RequestPrefix(reqs[k], n);
    StillMissing(s, s1, p, Missing(s, p, 3), q);
    if q <= p {
      assert q == p[..n];
    } else {
      assert rest[k - 1] == reqs[k];
    }
  }

  lemma {:induction false} SubsetSize<T>(a: set<T>, b: set<T>)
    requires a <= b
    ensures |a| <= |b|
  {
    if a != {} {
      var x :| x in a;
      SubsetSize(a - {x}, b - {x});
    }
  }

  lemma FirstTablesAreNew(s: Loader, reqs: seq<Request>)
    requires reqs != [] && forall r :: r in reqs ==> r.Proper()
    ensures MissingPrefixes(s, Indices(reqs[0].virt), 3) <= NewTables(s, reqs)
    ensures Missing(s, Indices(reqs[0].virt), 3) <= |NewTables(s, reqs)|
  {
    var p := Indices(reqs[0].virt);
    assert MissingPrefixes(s, p, 3) <= NewTables(s, reqs);
    MissingIsCardinality(s, p, 3);
    SubsetSize(MissingPrefixes(s, p, 3), NewTables(s, reqs));
  }

  lemma NewTablesCount(s: Loader, s1: Loader, reqs: seq<Request>)
    requires reqs != [] && forall r :: r in reqs ==> r.Proper()
    requires Grown(s, s1, Indices(reqs[0].virt), Missing(s, Indices(reqs[0].virt), 3))
    ensures |NewTables(s, reqs)| == Missing(s, Indices(reqs[0].virt), 3) + |NewTables(s1, reqs[1..])|
  {
    var p := Indices(reqs[0].virt);
    var a, b := MissingPrefixes(s, p, 3), NewTables(s1, reqs[1..]);
    forall q | q in NewTables(s, reqs)
      ensures q in a + b
    {
      NewTablesAreFirstOrLater(s, s1, reqs, q);
    }
    forall q | q in b
      ensures q in NewTables(s, reqs) && q !in a
    {
      LaterTablesAreNew(s, s1, reqs, q);
    }
    FirstTablesAreNew(s, reqs);
    assert NewTables(s, reqs) == a + b;
    assert a !! b;
    MissingIsCardinality(s, p, 3);
  }

  /** s' is s with the requests applied: each still unmapped page goes to the first request
      for it, every other page keeps its mapping, and the tables made are exactly the
      missing prefixes, taken in order from the front of the free list. */
  ghost predicate Mapped(s: Loader, s': Loader, reqs: seq<Request>) {
    && Valid(s')
    && MovedPages(s, s', |NewTables(s, reqs)|)
    && Load(s'.ram, s.pml4, 511) == Load(s.ram, s.pml4, 511)
    && forall p :: Regular(p) && |p| == 4 ==>
         Walk(s'.ram, s'.pml4, p)
         == if Walk(s.ram, s.pml4, p).Some? then Walk(s.ram, s.pml4, p) else FirstFor(reqs, p)
  }

  lemma MappedThenMapped(s: Loader, s1: Loader, s2: Loader, reqs: seq<Request>)
    requires reqs != [] && forall r :: r in reqs ==> r.Proper()
    requires var p, r := Indices(reqs[0].virt), reqs[0];
             && Grown(s, s1, p, Missing(s, p, 3))
             && Walk(s1.ram, s1.pml4, p)
                == (if Walk(s.ram, s.pml4, p).Some? then Walk(s.ram, s.pml4, p) else Some(r.phys / 0x1000))
    requires Mapped(s1, s2, reqs[1..])
    ensures Mapped(s, s2, reqs)
  {
    hide Present, Walk, Valid, Load, Extends, Missing, NewTables, FirstFor, Request.Proper, Regular, MovedPages, Mapped, Grown;
    var p := Indices(reqs[0].virt);
    assert |p| == 4;
    GrownParts(s, s1, p, Missing(s, p, 3));
    MappedParts(s1, s2, reqs[1..]);
    NewTablesCount(s, s1, reqs);
    MovedTwice(s, s1, s2, Missing(s, p, 3), |NewTables(s1, reqs[1..])|);
    MappedWalks(s, s1, s2, reqs);
    MappedWhole(s, s2, reqs);
  }

  lemma GrownParts(s: Loader, s1: Loader, p: seq<nat>, k: nat)
    requires Grown(s, s1, p, k)
    ensures Extends(s, s1, p) && MovedPages(s, s1, k) && s1.pml4 == s.pml4
    ensures Load(s1.ram, s.pml4, 511) == Load(s.ram, s.pml4, 511)
  {
  }

  lemma MappedParts(s: Loader, s': Loader, reqs: seq<Request>)
    requires Mapped(s, s', reqs)
    ensures Valid(s') && MovedPages(s, s', |NewTables(s, reqs)|) && Load(s'.ram, s.pml4, 511) == Load(s.ram, s.pml4, 511)
  {
  }

  lemma MappedWhole(s: Loader, s': Loader, reqs: seq<Request>)
    requires Valid(s') && MovedPages(s, s', |NewTables(s, reqs)|) && Load(s'.ram, s.pml4, 511) == Load(s.ram, s.pml4, 511)
    requires forall p :: Regular(p) && |p| == 4 ==>
               Walk(s'.ram, s'.pml4, p)
               == if Walk(s.ram, s.pml4, p).Some? then Walk(s.ram, s.pml4, p) else FirstFor(reqs, p)
    ensures Mapped(s, s', reqs)
  {
    hide Walk, Valid, NewTables, FirstFor, Load;
  }

  lemma MappedWalks(s: Loader, s1: Loader, s2: Loader, reqs: seq<Request>)
    requires reqs != [] && forall r :: r in reqs ==> r.Proper()
    requires var p, r := Indices(reqs[0].virt), reqs[0];
             && Extends(s, s1, p)
             && Walk(s1.ram, s1.pml4, p)
                == (if Walk(s.ram, s.pml4, p).Some? then Walk(s.ram, s.pml4, p) else Some(r.phys / 0x1000))
    requires Mapped(s1, s2, reqs[1..])
    ensures forall q :: Regular(q) && |q| == 4 ==>
              Walk(s2.ram, s2.pml4, q)
              == if Walk(s.ram, s.pml4, q).Some? then Walk(s.ram, s.pml4, q) else FirstFor(reqs, q)
  {
    hide Present, Walk, Valid, Load, Extends, NewTables, FirstFor, Request.Proper, Regular, MovedPages, Indices;
    forall q | Regular(q) && |q| == 4
      ensures Walk(s2.ram, s2.pml4, q)
              == if Walk(s.ram, s.pml4, q).Some? then Walk(s.ram, s.pml4, q) else FirstFor(reqs, q)
    {
      MappedAt(s, s1, s2, reqs, q);
    }
  }

  lemma MappedAt(s: Loader, s1: Loader, s2: Loader, reqs: seq<Request>, q: seq<nat>)
    requires reqs != [] && reqs[0].Proper() && Regular(q) && |q| == 4
    requires var p, r := Indices(reqs[0].virt), reqs[0];
             && Extends(s, s1, p)
             && Walk(s1.ram, s1.pml4, p)
                == (if Walk(s.ram, s.pml4, p).Some? then Walk(s.ram, s.pml4, p) else Some(r.phys / 0x1000))
    requires Walk(s2.ram, s2.pml4, q)
             == if Walk(s1.ram, s1.pml4, q).Some? then Walk(s1.ram, s1.pml4, q) else FirstFor(reqs[1..], q)
    ensures Walk(s2.ram, s2.pml4, q)
            == if Walk(s.ram, s.pml4, q).Some? then Walk(s.ram, s.pml4, q) else FirstFor(reqs, q)
  {
    hide Present, Frame, TableAddress, Entry, Pml4Index;
    var p := Indices(reqs[0].virt);
    if q != p {
      assert !(q <= p);
      assert Walk(s1.ram, s1.pml4, q) == Walk(s.ram, s.pml4, q);
    }
  }

  /** Any sequence of map_page calls refines the map of first requests, and succeeds exactly
      when there are enough free pages for the tables that are missing. */
  lemma {:induction false} MapAllCorrect(s: Loader, reqs: seq<Request>)
    requires Valid(s) && forall r :: r in reqs ==> r.Proper()
    requires LowPages(s.free, |NewTables(s, reqs)|)
    ensures MapAll(s, reqs).Some? <==> |NewTables(s, reqs)| <= |s.free|
    ensures MapAll(s, reqs).Some? ==> Mapped(s, MapAll(s, reqs).value, reqs)
    decreases |reqs|
  {
    if reqs == [] {
      assert NewTables(s, reqs) == {};
    } else {
      var r := reqs[0];
      assert r.Proper();
      FirstTablesAreNew(s, reqs);
      MapPageCorrect(s, r.phys, r.virt, r.flags);
      if MapPage(s, r.phys, r.virt, r.flags).Some? {
        var s1 := MapPage(s, r.phys, r.virt, r.flags).value;
        NewTablesCount(s, s1, reqs);
        MapAllCorrect(s1, reqs[1..]);
        if MapAll(s, reqs).Some? {
          MappedThenMapped(s, s1, MapAll(s, reqs).value, reqs);
        }
      }
    }
  }
}
