/** Boot: paging is set up, then pages are mapped in any order, some of them to pages taken from
    the free list for it (loader/x86-64-multiboot2/main.cc). */
module BootRun {
  import opened Wrappers
  import opened PageEntry
  import opened PageIndex
  import opened PageTable
  import opened PageMapping
  import opened SelfMap

  datatype Step =
    | Map(request: Request)         // map_page
    | Fresh(virt: nat, flags: nat)  // map_page of what pmm_alloc_page returns
  {
    predicate Proper() {
      Request(0).Proper()
    }

    /** The request that a step comes to, if its own page is the given one. */
    function Request(phys: nat): Request {
      match this
      case Map(r) => r
      case Fresh(v, f) => PageMapping.Request(phys, v, f)
    }
  }

  /** The state and the page that map_page is called with. */
  function Prepare(s: Loader, step: Step): Option<(Loader, nat)> {
    if step.Map? then Some((s, 0)) else TakePage(s)
  }

  function Next(s: Loader, step: Step): Option<Loader> {
    var (s0, page) :- Prepare(s, step);
    var r := step.Request(page * 0x1000);
    MapPage(s0, r.phys, r.virt, r.flags)
  }

  function Run(s: Loader, steps: seq<Step>): Option<Loader>
    decreases |steps|
  {
    if steps == [] then Some(s)
    else
      var s1 :- Next(s, steps[0]);
      Run(s1, steps[1..])
  }

  /** The requests that the steps come to. */
  function Requests(s: Loader, steps: seq<Step>): seq<Request>
    decreases |steps|
  {
    if steps == [] || Next(s, steps[0]).None? then []
    else [steps[0].Request(Prepare(s, steps[0]).value.1 * 0x1000)] + Requests(Next(s, steps[0]).value, steps[1..])
  }

  /** The same addresses, whatever the pages. */
  function Asked(steps: seq<Step>): (r: seq<Request>)
    ensures |r| == |steps|
  {
    if steps == [] then [] else [steps[0].Request(0)] + Asked(steps[1..])
  }

  function FreshPages(steps: seq<Step>): nat {
    if steps == [] then 0 else (if steps[0].Fresh? then 1 else 0) + FreshPages(steps[1..])
  }

  /** The pages that the steps take: one for each missing table, one for each fresh page. */
  ghost function PagesFor(s: Loader, steps: seq<Step>): nat {
    |NewTables(s, Asked(steps))| + FreshPages(steps)
  }

  // ----- taking a page

  /** Clearing a page that is no table changes no walk. */
  lemma {:induction false} ZeroWalks(s: Loader, page: nat, r: seq<nat>)
    requires TablesReserved(s) && page !in s.rsrv && Regular(r) && |r| <= 4
    ensures Walk(ZeroPage(s.ram, page), s.pml4, r) == Walk(s.ram, s.pml4, r)
    decreases |r|
  {
    hide Present, Frame;
    if r != [] {
      var q, i := r[..|r| - 1], r[|r| - 1];
      assert r == q + [i];
      ZeroWalks(s, page, q);
      WalkStep(s.ram, s.pml4, q, i);
      WalkStep(ZeroPage(s.ram, page), s.pml4, q, i);
      if Walk(s.ram, s.pml4, q).Some? {
        assert TablePath(q);
        ZeroElsewhere(s.ram, page, Walk(s.ram, s.pml4, q).value, i);
      }
    }
  }

  lemma ZeroElsewhere(ram: seq<nat>, page: nat, t: nat, i: nat)
    requires t != page && i < 512
    ensures Load(ZeroPage(ram, page), t, i) == Load(ram, t, i)
  {
  }

  /** A page is taken, and all else stays. */
  ghost predicate OnlyTaken(s: Loader, s': Loader, k: nat) {
    && Valid(s') && MovedPages(s, s', k) && Load(s'.ram, s.pml4, 511) == Load(s.ram, s.pml4, 511)
    && forall r :: Regular(r) && |r| <= 4 ==> Walk(s'.ram, s'.pml4, r) == Walk(s.ram, s.pml4, r)
  }

  lemma TakeKeeps(s: Loader)
    requires Valid(s) && s.free != []
    ensures OnlyTaken(s, TakePage(s).value.0, 1)
  {
    hide Present, Frame, Link, Load;
    var s', page := TakePage(s).value.0, s.free[0];
    FreeIsNotReserved(s, 0);
    assert Walk(s.ram, s.pml4, []) == Some(s.pml4) && TablePath([]);
    ZeroElsewhere(s.ram, page, s.pml4, 511);
    forall r | Regular(r) && |r| <= 4
      ensures Walk(s'.ram, s'.pml4, r) == Walk(s.ram, s.pml4, r)
    {
      ZeroWalks(s, page, r);
    }
    hide Walk;
    RotateKeepsDistinct(s.free, s.rsrv);
    forall q, j | TablePath(q + [j]) && Walk(s'.ram, s'.pml4, q).Some?
      ensures var e := Load(s'.ram, Walk(s'.ram, s'.pml4, q).value, j); Present(e) ==> Link(e)
    {
      TablePathPrefix(q, j);
      ZeroElsewhere(s.ram, page, Walk(s.ram, s.pml4, q).value, j);
    }
    assert s.free[..1] == [page];
    assert forall x :: x in s'.free ==> x in s.free && InRam(s.ram, x);
    assert ListsValid(s') && TablesReserved(s') && IsTree(s');
  }

  lemma PrepareKeeps(s: Loader, step: Step)
    requires Valid(s)
    ensures var k := if step.Fresh? then 1 else 0;
            && (Prepare(s, step).Some? <==> k <= |s.free|)
            && (Prepare(s, step).Some? ==>
                  && OnlyTaken(s, Prepare(s, step).value.0, k)
                  && Prepare(s, step).value.1 == if k == 1 then s.free[0] else 0)
  {
    hide Valid, Walk, Load;
    if step.Fresh? && s.free != [] {
      TakeKeeps(s);
    }
    assert s.free[0..] == s.free && s.rsrv + s.free[..0] == s.rsrv;
  }

  // ----- runs

  lemma {:induction false} AskedProper(steps: seq<Step>)
    requires forall x :: x in steps ==> x.Proper()
    ensures forall r :: r in Asked(steps) ==> r.Proper()
  {
    if steps != [] {
      assert steps[0].Proper() && forall x :: x in steps[1..] ==> x in steps;
      AskedProper(steps[1..]);
    }
  }

  lemma SameNewTables(s: Loader, s0: Loader, k: nat, reqs: seq<Request>)
    requires OnlyTaken(s, s0, k) && forall r :: r in reqs ==> r.Proper()
    ensures NewTables(s0, reqs) == NewTables(s, reqs)
  {
    hide Walk, Valid, Load, Pml4Index, PdptIndex, PdIndex, PtIndex;
    forall i, n | 0 <= i < |reqs| && 1 <= n <= 3
      ensures Walk(s0.ram, s0.pml4, Indices(reqs[i].virt)[..n]) == Walk(s.ram, s.pml4, Indices(reqs[i].virt)[..n])
    {
      RequestPrefix(reqs[i], n);
    }
  }

  /** What a run does: pages are taken from the front of the free list, each page still unmapped
      goes to the first request for it, all else stays. */
  ghost predicate RanTo(s: Loader, s': Loader, reqs: seq<Request>, k: nat) {
    && Valid(s') && MovedPages(s, s', k) && Load(s'.ram, s.pml4, 511) == Load(s.ram, s.pml4, 511)
    && forall q :: Regular(q) && |q| == 4 ==>
         Walk(s'.ram, s'.pml4, q) == if Walk(s.ram, s.pml4, q).Some? then Walk(s.ram, s.pml4, q) else FirstFor(reqs, q)
  }

  /** One step: taking a page of its own if it does, then map_page. */
  lemma NextCorrect(s: Loader, steps: seq<Step>)
    requires Valid(s) && steps != [] && (forall x :: x in steps ==> x.Proper())
    requires LowPages(s.free, PagesFor(s, steps))
    ensures var (c, p) := (if steps[0].Fresh? then 1 else 0, Indices(steps[0].Request(0).virt));
            var (s0, m) := (Prepare(s, steps[0]), Missing(s, p, 3));
            && (Next(s, steps[0]).Some? <==> c + m <= |s.free|)
            && c + m <= PagesFor(s, steps)
            && (Next(s, steps[0]).Some? ==>
                  var (s1, r) := (Next(s, steps[0]).value, steps[0].Request(s0.value.1 * 0x1000));
                  && r.Proper() && r.virt == steps[0].Request(0).virt
                  && OnlyTaken(s, s0.value.0, c) && Grown(s0.value.0, s1, p, m)
                  && PagesFor(s, steps) == c + m + PagesFor(s1, steps[1..])
                  && Walk(s1.ram, s1.pml4, p)
                     == (if Walk(s.ram, s.pml4, p).Some? then Walk(s.ram, s.pml4, p) else Some(r.phys / 0x1000)))
  {
    hide Walk, Valid, Load, NewTables, Indices, CleanFlags, Large, Pml4Index, MapPage, Missing, Extends;
    var step, asked := steps[0], Asked(steps);
    AskedProper(steps);
    assert step.Proper();
    PrepareKeeps(s, step);
    FirstTablesAreNew(s, asked);
    if Prepare(s, step).Some? {
      var (s0, page) := Prepare(s, step).value;
      var r, p := step.Request(page * 0x1000), Indices(step.Request(0).virt);
      IndicesRegular(step.Request(0).virt);
      SameMissing(s, s0, if step.Fresh? then 1 else 0, p, 3);
      MapPageCorrect(s0, r.phys, r.virt, r.flags);
      SameNewTables(s, s0, if step.Fresh? then 1 else 0, asked);
      if Next(s, step).Some? {
        NewTablesCount(s0, Next(s, step).value, asked);
      }
    }
  }

  /** The page of a step is mapped to the page asked for, or to the first free one. */
  lemma NextMaps(s: Loader, step: Step)
    requires Valid(s) && step.Proper() && LowPages(s.free, PagesFor(s, [step])) && Next(s, step).Some?
    ensures var s1 := Next(s, step).value;
            var p := Indices(if step.Map? then step.request.virt else step.virt);
            Walk(s.ram, s.pml4, p).None? ==>
              && (step.Fresh? ==> s.free != [] && Walk(s1.ram, s1.pml4, p) == Some(s.free[0]))
              && (step.Map? ==> Walk(s1.ram, s1.pml4, p) == Some(step.request.phys / 0x1000))
  {
    hide Walk, Valid, Load, NewTables, Indices, Pml4Index, PagesFor, MapPage, CleanFlags, Large;
    NextCorrect(s, [step]);
    PrepareKeeps(s, step);
  }

  lemma {:induction false} SameMissing(s: Loader, s0: Loader, k: nat, p: seq<nat>, n: nat)
    requires OnlyTaken(s, s0, k) && Regular(p) && |p| == 4 && n <= 3
    ensures Missing(s0, p, n) == Missing(s, p, n)
    ensures Walk(s0.ram, s0.pml4, p) == Walk(s.ram, s.pml4, p)
  {
    hide Walk, Valid, Load;
    if n > 0 {
      SameMissing(s, s0, k, p, n - 1);
      assert Regular(p[..n]);
    }
  }

  lemma RanOn(s: Loader, s0: Loader, s1: Loader, s2: Loader, c: nat, m: nat, n: nat, reqs: seq<Request>)
    requires reqs != [] && reqs[0].Proper() && OnlyTaken(s, s0, c) && Grown(s0, s1, Indices(reqs[0].virt), m)
    requires var p, r := Indices(reqs[0].virt), reqs[0];
             Walk(s1.ram, s1.pml4, p)
             == (if Walk(s.ram, s.pml4, p).Some? then Walk(s.ram, s.pml4, p) else Some(r.phys / 0x1000))
    requires RanTo(s1, s2, reqs[1..], n)
    ensures RanTo(s, s2, reqs, c + m + n)
  {
    hide Walk, Valid, Load, Indices, Request.Proper, Extends, FirstFor, MovedPages;
    RequestIndices(reqs[0]);
    MovedTwice(s, s0, s1, c, m);
    MovedTwice(s, s1, s2, c + m, n);
    SamePml4(s, s0, c);
    SamePml4(s0, s1, m);
    forall q | Regular(q) && |q| == 4
      ensures Walk(s2.ram, s2.pml4, q) == if Walk(s.ram, s.pml4, q).Some? then Walk(s.ram, s.pml4, q) else FirstFor(reqs, q)
    {
      MappedAt(s0, s1, s2, reqs, q);
    }
  }

  lemma RequestIndices(r: Request)
    requires r.Proper()
    ensures Regular(Indices(r.virt)) && |Indices(r.virt)| == 4
  {
    IndicesRegular(r.virt);
  }

  lemma SamePml4(s: Loader, s': Loader, k: nat)
    requires MovedPages(s, s', k)
    ensures s'.pml4 == s.pml4
  {
  }

  /** Any run of such steps succeeds exactly if the free pages suffice for the missing tables and
      the fresh pages, takes exactly those, and gives each page still unmapped to its first
      request. */
  lemma {:induction false} RunCorrect(s: Loader, steps: seq<Step>)
    requires Valid(s) && (forall x :: x in steps ==> x.Proper()) && LowPages(s.free, PagesFor(s, steps))
    ensures Run(s, steps).Some? <==> PagesFor(s, steps) <= |s.free|
    ensures Run(s, steps).Some? ==> RanTo(s, Run(s, steps).value, Requests(s, steps), PagesFor(s, steps))
    decreases |steps|
  {
    hide Walk, Valid, Load, Pml4Index, PdptIndex, PdIndex, PtIndex, Step.Proper, NewTables, Grown, OnlyTaken, Next, Prepare,
         Missing;
    if steps == [] {
      NothingToDo(s);
    } else {
      NextCorrect(s, steps);
      if Next(s, steps[0]).Some? {
        var s1, c := Next(s, steps[0]).value, if steps[0].Fresh? then 1 else 0;
        NextState(s, steps);
        RunCorrect(s1, steps[1..]);
        if Run(s, steps).Some? {
          PreparedFirst(s, steps[0]);
          var s0, m := Prepare(s, steps[0]).value.0, Missing(s, Indices(steps[0].Request(0).virt), 3);
          RanOn(s, s0, s1, Run(s, steps).value, c, m, PagesFor(s1, steps[1..]), Requests(s, steps));
        }
      }
    }
  }

  lemma PreparedFirst(s: Loader, step: Step)
    requires Next(s, step).Some?
    ensures Prepare(s, step).Some?
  {
    hide Indices;
  }

  lemma NothingToDo(s: Loader)
    requires Valid(s)
    ensures PagesFor(s, []) == 0 && RanTo(s, s, [], 0)
  {
    hide Walk, Valid, Load;
    assert s.free[0..] == s.free && s.rsrv + s.free[..0] == s.rsrv;
    assert NewTables(s, []) == {};
  }

  lemma NextState(s: Loader, steps: seq<Step>)
    requires Valid(s) && steps != [] && (forall x :: x in steps ==> x.Proper())
    requires LowPages(s.free, PagesFor(s, steps)) && Next(s, steps[0]).Some?
    ensures var s1 := Next(s, steps[0]).value;
            Valid(s1) && LowPages(s1.free, PagesFor(s1, steps[1..])) && |s1.free| + PagesFor(s, steps) == |s.free| + PagesFor(s1, steps[1..])
  {
    hide Walk, Valid, Load, Pml4Index, PdptIndex, PdIndex, PtIndex, Step.Proper, NewTables, Next, Prepare, Missing, PagesFor;
    NextCorrect(s, steps);
    var c, m := if steps[0].Fresh? then 1 else 0, Missing(s, Indices(steps[0].Request(0).virt), 3);
    var s1 := Next(s, steps[0]).value;
    assert forall i :: 0 <= i < |s1.free| ==> s1.free[i] == s.free[c + m + i];
  }

  /** Boot: set up paging, then run any such steps.  The result maps exactly the requested pages
      and still reaches every table through the self-map. */
  lemma BootMapsRequests(s: Loader, steps: seq<Step>, p: seq<nat>)
    requires ListsValid(s) && LowPages(s.free, 1) && SetupPaging(s).Some? && Regular(p)
    requires forall x :: x in steps ==> x.Proper()
    requires LowPages(SetupPaging(s).value.free, PagesFor(SetupPaging(s).value, steps))
    ensures var s1 := SetupPaging(s).value;
            && (Run(s1, steps).Some? <==> PagesFor(s1, steps) < |s.free|)
            && (Run(s1, steps).Some? ==>
                  var s' := Run(s1, steps).value;
                  && Valid(s') && SelfMapped(s')
                  && (|p| == 4 ==> Walk(s'.ram, s'.pml4, p) == FirstFor(Requests(s1, steps), p))
                  && (|p| <= 3 ==> Walk(s'.ram, s'.pml4, Indices(TableVirt(p))) == Walk(s'.ram, s'.pml4, p)))
  {
    hide Walk, Valid, Load, Indices, Step.Proper, PagesFor, Requests, Run, SetupPaging, TableVirt, FirstFor;
    SetupPagingCorrect(s);
    var s1 := SetupPaging(s).value;
    RunCorrect(s1, steps);
    if Run(s1, steps).Some? {
      var s' := Run(s1, steps).value;
      StillSelfMapped(s1, s');
      if |p| <= 3 {
        SelfMapReachesTables(s', p);
      }
    }
  }

  lemma StillSelfMapped(s: Loader, s': Loader)
    requires SelfMapped(s) && s'.pml4 == s.pml4 && Load(s'.ram, s.pml4, 511) == Load(s.ram, s.pml4, 511)
    ensures SelfMapped(s')
  {
  }
}
