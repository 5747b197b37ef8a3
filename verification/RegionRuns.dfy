/** Sequences of allocations and destroys of children in a region that starts at 0
    (core/vmregion.cc). */
module RegionRuns {
  import Bits
  import opened Wrappers
  import opened RegionEdges
  import opened RegionSearch
  import LinkedList

  // ----- one allocation

  ghost predicate PageAligned(cs: seq<Interval>) {
    forall i :: 0 <= i < |cs| ==> cs[i].base % PAGE == 0 && cs[i].size % PAGE == 0
  }

  /** Inserting before the child behind the gap keeps the children ordered and apart. */
  lemma InsertKeepsOrder(base: nat, size: nat, cs: seq<Interval>, j: nat, x: Interval)
    requires Ordered(base, size, cs) && j <= |cs|
    requires GapStart(base, cs, j) <= x.base && x.End() <= GapEnd(base, size, cs, j)
    ensures Ordered(base, size, LinkedList.Insert(cs, j, x))
  {
    GapsInside(base, size, cs, j);
    forall i | 0 <= i < |cs|
      ensures i < j ==> cs[i].End() <= x.base
      ensures i >= j ==> x.End() <= cs[i].base
    {
      AroundGap(base, size, cs, j, i);
    }
    InsertOrdered(base, size, cs, j, x);
  }

  lemma AroundGap(base: nat, size: nat, cs: seq<Interval>, j: nat, i: nat)
    requires Ordered(base, size, cs) && j <= |cs| && i < |cs|
    ensures i < j ==> cs[i].End() <= GapStart(base, cs, j)
    ensures i >= j ==> GapEnd(base, size, cs, j) <= cs[i].base
  {
    if i < j - 1 {
      assert cs[i].End() <= cs[j - 1].base;
    } else if i > j {
      assert cs[j].End() <= cs[i].base;
    }
  }

  lemma InsertOrdered(base: nat, size: nat, cs: seq<Interval>, j: nat, x: Interval)
    requires Ordered(base, size, cs) && j <= |cs| && base <= x.base && x.End() <= base + size
    requires forall i :: 0 <= i < |cs| ==> if i < j then cs[i].End() <= x.base else x.End() <= cs[i].base
    ensures Ordered(base, size, LinkedList.Insert(cs, j, x))
  {
    hide Interval.End;
    var cs' := LinkedList.Insert(cs, j, x);
    forall i, k | 0 <= i < k < |cs'|
      ensures cs'[i].End() <= cs'[k].base
    {
      assert cs'[i] == if i < j then cs[i] else if i == j then x else cs[i - 1];
      assert cs'[k] == if k < j then cs[k] else if k == j then x else cs[k - 1];
    }
  }

  lemma RemoveKeepsOrder(base: nat, size: nat, cs: seq<Interval>, j: nat)
    requires Ordered(base, size, cs) && j < |cs|
    ensures Ordered(base, size, LinkedList.Remove(cs, j))
  {
  }

  /** If no sum wraps, no bytes included, the place found lies in the gap it is found for. */
  lemma {:induction false} FoundInGap(size: nat, cs: seq<Interval>, n: nat, align: nat, k: nat, i: nat)
    requires Ordered(0, size, cs) && Aligning(align, k) && NoWrap(0, size, n, align) && i <= |cs|
    ensures var found := Search(0, size, cs, n, align, i, GapStart(0, cs, i));
            found.Some? ==>
              && i <= found.value.index <= |cs| && found.value.base == AlignUp(GapStart(0, cs, found.value.index), align)
              && found.value.base + n <= GapEnd(0, size, cs, found.value.index)
    decreases |cs| - i
  {
    hide AlignUp, TryHole, Bits.Pow2, Ordered, Search;
    GapsInside(0, size, cs, i);
    AlignUpIsLeast(GapStart(0, cs, i), k, 0);
    HoleTaken(GapStart(0, cs, i), GapEnd(0, size, cs, i), n, align);
    SearchRound(0, size, cs, n, align, i);
    if i < |cs| {
      FoundInGap(size, cs, n, align, k, i + 1);
    }
  }

  /** For a request of any size it does, unless the sum wraps into the gap. */
  lemma FoundThere(size: nat, cs: seq<Interval>, n: nat, align: nat, k: nat)
    requires Ordered(0, size, cs) && Aligning(align, k) && size + align < WORD && n < WORD
    ensures var found := Search(0, size, cs, n, align, 0, 0);
            found.Some? ==>
              && found.value.index <= |cs| && found.value.base == AlignUp(GapStart(0, cs, found.value.index), align)
              && (found.value.base + n <= GapEnd(0, size, cs, found.value.index)
                  <==> !WrapsInto(0, size, cs, n, align, found.value.index))
  {
    hide AlignUp, Bits.Pow2, Ordered, Search;
    if n == 0 {
      FoundInGap(size, cs, n, align, k, 0);
    } else {
      AnySearch(0, size, cs, n, align, k, 0);
    }
    if Search(0, size, cs, n, align, 0, 0).Some? {
      var f := Search(0, size, cs, n, align, 0, 0).value;
      GapsInside(0, size, cs, f.index);
      AlignUpIsLeast(GapStart(0, cs, f.index), k, 0);
    }
  }

  /** The place found is page-aligned, and the child inserted before keeps the order exactly if
      the sum did not wrap. */
  lemma FoundKeepsOrder(size: nat, cs: seq<Interval>, n: nat, k: nat)
    requires Ordered(0, size, cs) && k < 32 && size + AlignOf(k) < WORD && n < WORD
    requires Search(0, size, cs, n, AlignOf(k), 0, 0).Some?
    ensures var f := Search(0, size, cs, n, AlignOf(k), 0, 0).value;
            && f.index <= |cs| && f.base % PAGE == 0
            && (Ordered(0, size, LinkedList.Insert(cs, f.index, Interval(f.base, n)))
                <==> !WrapsInto(0, size, cs, n, AlignOf(k), f.index))
  {
    hide AlignUp, Search, Ordered, WrapsInto;
    var k' := if k < 12 then 12 else k;
    AlignOfIsPower(k);
    FoundThere(size, cs, n, AlignOf(k), k');
    var f := Search(0, size, cs, n, AlignOf(k), 0, 0).value;
    GapsInside(0, size, cs, f.index);
    AlignUpIsLeast(GapStart(0, cs, f.index), k', 0);
    AlignedToPage(f.base, k);
    if WrapsInto(0, size, cs, n, AlignOf(k), f.index) {
      WrapReaches(size, cs, n, AlignOf(k), f.index);
      OutsideIsNotOrdered(size, cs, f.index, Interval(f.base, n));
    } else {
      InsertKeepsOrder(0, size, cs, f.index, Interval(f.base, n));
    }
  }

  lemma SmallKeepsOrder(size: nat, cs: seq<Interval>, n: nat, k: nat)
    requires Ordered(0, size, cs) && k < 32 && NoWrap(0, size, n, AlignOf(k))
    requires Search(0, size, cs, n, AlignOf(k), 0, 0).Some?
    ensures var f := Search(0, size, cs, n, AlignOf(k), 0, 0).value;
            f.index <= |cs| && Ordered(0, size, LinkedList.Insert(cs, f.index, Interval(f.base, n)))
  {
    hide AlignUp, Search, Ordered, LinkedList.Insert, WrapsInto;
    AlignOfIsPower(k);
    FoundKeepsOrder(size, cs, n, k);
    var f := Search(0, size, cs, n, AlignOf(k), 0, 0).value;
    GapsInside(0, size, cs, f.index);
    AlignUpIsLeast(GapStart(0, cs, f.index), if k < 12 then 12 else k, 0);
    if WrapsInto(0, size, cs, n, AlignOf(k), f.index) {
      WrapReaches(size, cs, n, AlignOf(k), f.index);
    }
  }

  lemma WrapReaches(size: nat, cs: seq<Interval>, n: nat, align: nat, i: nat)
    requires i <= |cs| && 0 < align <= WORD && WrapsInto(0, size, cs, n, align, i)
    ensures AlignUp(GapStart(0, cs, i), align) + n >= WORD
  {
    hide AlignUp;
  }

  lemma OutsideIsNotOrdered(size: nat, cs: seq<Interval>, i: nat, x: Interval)
    requires i <= |cs| && x.End() > size
    ensures !Ordered(0, size, LinkedList.Insert(cs, i, x))
  {
    assert LinkedList.Insert(cs, i, x)[i] == x;
  }

  lemma AlignedToPage(x: nat, k: nat)
    requires x % AlignOf(k) == 0
    ensures x % PAGE == 0
  {
    hide AlignOf, Bits.Pow2;
    Bits.Pow2Values();
    AlignOfIsPower(k);
    if k >= 12 {
      Bits.Pow2Add(k - 12, 12);
      var q, r := x / AlignOf(k), Bits.Pow2(k - 12);
      assert x == q * (r * PAGE) == (q * r) * PAGE;
      Bits.QuotientUnique(x, PAGE, q * r, 0);
    }
  }

  // ----- runs

  /** Broken: the list of children has a removed node for its root. */
  datatype Children = Intact(cs: seq<Interval>) | Broken

  datatype Op =
    | Allocate(n: nat, alignPow2: nat)
    | DestroyChild(index: nat)

  predicate ProperOp(size: nat, op: Op) {
    op.Allocate? ==> op.n % PAGE == 0 && op.n < WORD && op.alignPow2 < 32 && size + AlignOf(op.alignPow2) < WORD
  }

  /** Nothing is defined for a broken list. */
  function Apply(size: nat, s: Children, op: Op): Children
    requires ProperOp(size, op)
  {
    if s.Broken? then s
    else
      match op
      case Allocate(n, k) => (
        AlignBelowWord(k);
        match Search(0, size, s.cs, n, AlignOf(k), 0, 0)
        case Some(f) => if f.index <= |s.cs| then Intact(LinkedList.Insert(s.cs, f.index, Interval(f.base, n))) else s
        case None => s)
      case DestroyChild(i) =>
        if i >= |s.cs| then s
        else if |s.cs| == 1 then Broken
        else Intact(LinkedList.Remove(s.cs, i))
  }

  lemma AlignBelowWord(k: nat)
    requires k < 32
    ensures AlignOf(k) <= WORD
  {
    AlignOfIsPower(k);
    Bits.Pow2Values();
    Pow2Increases(if k < 12 then 12 else k, 32);
  }

  function ApplyAll(size: nat, s: Children, ops: seq<Op>): Children
    requires forall op :: op in ops ==> ProperOp(size, op)
    decreases |ops|
  {
    if ops == [] then s else ApplyAll(size, Apply(size, s, ops[0]), ops[1..])
  }

  /** At some point of the run the only child is destroyed. */
  predicate DestroysOnlyChild(size: nat, s: Children, ops: seq<Op>)
    requires forall op :: op in ops ==> ProperOp(size, op)
    decreases |ops|
  {
    ops != [] && s.Intact? &&
    ((ops[0].DestroyChild? && ops[0].index == 0 && |s.cs| == 1)
     || DestroysOnlyChild(size, Apply(size, s, ops[0]), ops[1..]))
  }

  /** No child is empty. */
  predicate NonEmpty(s: Children) {
    s.Intact? ==> forall i :: 0 <= i < |s.cs| ==> s.cs[i].size > 0
  }

  /** Children that are in order and not empty have strictly increasing bases. */
  lemma StrictlySorted(size: nat, cs: seq<Interval>, i: nat, j: nat)
    requires Ordered(0, size, cs) && NonEmpty(Intact(cs)) && i < j < |cs|
    ensures cs[i].base < cs[j].base
  {
    assert cs[i].End() <= cs[j].base;
  }

  ghost predicate Good(size: nat, s: Children) {
    s.Intact? ==> Ordered(0, size, s.cs) && PageAligned(s.cs)
  }

  /** The operation is a request whose sum wraps into the gap it is given. */
  predicate OpWraps(size: nat, s: Children, op: Op)
    requires ProperOp(size, op)
  {
    s.Intact? && op.Allocate? &&
    (AlignBelowWord(op.alignPow2);
     match Search(0, size, s.cs, op.n, AlignOf(op.alignPow2), 0, 0)
     case Some(f) => f.index <= |s.cs| && WrapsInto(0, size, s.cs, op.n, AlignOf(op.alignPow2), f.index)
     case None => false)
  }

  predicate RunWraps(size: nat, s: Children, ops: seq<Op>)
    requires forall op :: op in ops ==> ProperOp(size, op)
    decreases |ops|
  {
    ops != [] && (OpWraps(size, s, ops[0]) || RunWraps(size, Apply(size, s, ops[0]), ops[1..]))
  }

  /** Every state of the run is good. */
  ghost predicate AlwaysGood(size: nat, s: Children, ops: seq<Op>)
    requires forall op :: op in ops ==> ProperOp(size, op)
    decreases |ops|
  {
    Good(size, s) && (ops == [] || AlwaysGood(size, Apply(size, s, ops[0]), ops[1..]))
  }

  lemma ApplyKeepsGood(size: nat, s: Children, op: Op)
    requires ProperOp(size, op) && Good(size, s)
    ensures Good(size, Apply(size, s, op)) <==> !OpWraps(size, s, op)
  {
    hide Search, AlignUp, AlignOf, WrapsInto, Ordered;
    if s.Intact? {
      match op
      case Allocate(n, k) =>
        AlignBelowWord(k);
        if Search(0, size, s.cs, n, AlignOf(k), 0, 0).Some? {
          FoundKeepsOrder(size, s.cs, n, k);
        }
      case DestroyChild(i) =>
        if i < |s.cs| {
          RemoveKeepsOrder(0, size, s.cs, i);
        }
    }
  }

  /** Over any run the children stay page-aligned, inside the region, apart and in order exactly
      while no sum wraps into the gap it is given. */
  lemma {:induction false} RunsKeepChildren(size: nat, s: Children, ops: seq<Op>)
    requires (forall op :: op in ops ==> ProperOp(size, op)) && Good(size, s)
    ensures AlwaysGood(size, s, ops) <==> !RunWraps(size, s, ops)
    ensures !RunWraps(size, s, ops) ==> Good(size, ApplyAll(size, s, ops))
    decreases |ops|
  {
    hide Good, OpWraps, Apply;
    if ops != [] {
      assert ops[0] in ops;
      ApplyKeepsGood(size, s, ops[0]);
      if OpWraps(size, s, ops[0]) {
        NotAlwaysGood(size, Apply(size, s, ops[0]), ops[1..]);
      } else {
        RunsKeepChildren(size, Apply(size, s, ops[0]), ops[1..]);
      }
    }
  }

  lemma NotAlwaysGood(size: nat, s: Children, ops: seq<Op>)
    requires (forall op :: op in ops ==> ProperOp(size, op)) && !Good(size, s)
    ensures !AlwaysGood(size, s, ops)
  {
  }

  /** Over any run the list breaks exactly if the only child is destroyed; without requests for no
      bytes no child is ever empty. */
  lemma {:induction false} RunsBreakChildren(size: nat, s: Children, ops: seq<Op>)
    requires forall op :: op in ops ==> ProperOp(size, op)
    ensures ApplyAll(size, s, ops).Broken? <==> s.Broken? || DestroysOnlyChild(size, s, ops)
    ensures NonEmpty(s) && (forall op :: op in ops && op.Allocate? ==> op.n > 0) ==> NonEmpty(ApplyAll(size, s, ops))
    decreases |ops|
  {
    hide Search, AlignOf;
    if ops != [] {
      assert ops[0] in ops;
      ApplyShape(size, s, ops[0]);
      RunsBreakChildren(size, Apply(size, s, ops[0]), ops[1..]);
    }
  }

  lemma ApplyShape(size: nat, s: Children, op: Op)
    requires ProperOp(size, op)
    ensures NonEmpty(s) && (op.Allocate? ==> op.n > 0) ==> NonEmpty(Apply(size, s, op))
    ensures Apply(size, s, op).Broken? <==> s.Broken? || (op.DestroyChild? && op.index == 0 && |s.cs| == 1)
  {
    hide Search, AlignOf;
  }

  /** Destroying the child just allocated, beside another, and repeating the allocation gives
      the same place again. */
  lemma ReallocateAfterDestroy(size: nat, cs: seq<Interval>, n: nat, k: nat)
    requires ProperOp(size, Allocate(n, k)) && Ordered(0, size, cs) && cs != []
    requires AlignOf(k) <= WORD && Search(0, size, cs, n, AlignOf(k), 0, 0).Some?
    ensures var f := Search(0, size, cs, n, AlignOf(k), 0, 0).value;
            var once := Apply(size, Intact(cs), Allocate(n, k));
            && Apply(size, once, DestroyChild(f.index)) == Intact(cs)
            && Apply(size, Apply(size, once, DestroyChild(f.index)), Allocate(n, k)) == once
  {
    hide Search, AlignUp, AlignOf, NoWrap, Ordered;
    AlignBelowWord(k);
    FoundKeepsOrder(size, cs, n, k);
    var f := Search(0, size, cs, n, AlignOf(k), 0, 0).value;
    assert LinkedList.Remove(LinkedList.Insert(cs, f.index, Interval(f.base, n)), f.index) == cs;
  }

  /** An instance: a request for no bytes is placed behind a child at 0, although it fits in
      front. */
  lemma ZeroBytesBehind()
    ensures Search(0, 2 * PAGE, [Interval(0, PAGE)], 0, PAGE, 0, 0) == Some(Found(PAGE, 1))
    ensures !MeetsFirstFit(0, 2 * PAGE, [Interval(0, PAGE)], 0, PAGE)
  {
    hide Bits.Pow2;
    Bits.Pow2Values();
    var cs := [Interval(0, PAGE)];
    ZeroBytesCondition(2 * PAGE, cs, PAGE, 12);
    ZeroBytesInFront(2 * PAGE, cs);
    AlignUpIsLeast(PAGE, 12, PAGE);
    hide AlignUp;
  }
}
