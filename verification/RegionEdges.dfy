/** Exactly when the search for a place is a first fit: with requests for no bytes, requests whose
    sums wrap around, bases other than 0, and in the upper half of the address space
    (core/include/core/vmregion.h). */
module RegionEdges {
  import opened Bits
  import opened Wrappers
  import opened RegionSearch

  // ----- requests for no bytes

  /** The callback's test on a hole from offset to end. */
  lemma HoleTried(offset: nat, end: nat, n: nat, align: nat)
    requires 0 < align <= WORD && end < WORD
    ensures TryHole(offset, (end - offset) % WORD, n, align)
         == if (AlignUp(offset, align) + n) % WORD <= end then Some(AlignUp(offset, align)) else None
  {
    hide AlignUp;
    HoleEnd(offset, end);
    Small(end);
  }

  /** From gap i on, some gap that is not empty starts at 0. */
  ghost predicate OpenAtZero(size: nat, cs: seq<Interval>, i: nat)
    requires i <= |cs|
  {
    exists j :: i <= j <= |cs| && GapStart(0, cs, j) == 0 && GapEnd(0, size, cs, j) > 0
  }

  lemma ZeroHole(size: nat, o: nat, e: nat, align: nat, k: nat)
    requires Aligning(align, k) && NoWrap(0, size, 0, align) && o <= e <= size
    ensures var found := if e > o % WORD then TryHole(o, (e - o) % WORD, 0, align) else None;
            && (found.Some? ==> found.value == AlignUp(o, align) >= o)
            && (found.Some? && found.value == 0 <==> o == 0 && e > 0)
  {
    hide AlignUp, Pow2, TryHole;
    AlignUpIsLeast(o, k, o);
    AlignZero(align, k);
    HoleTried(o, e, 0, align);
    Small(o);
    Small(AlignUp(o, align));
  }

  /** The gap in question is this one or a later one. */
  lemma OpenHere(size: nat, cs: seq<Interval>, i: nat)
    requires Ordered(0, size, cs) && i <= |cs|
    ensures OpenAtZero(size, cs, i)
            <==> (GapStart(0, cs, i) == 0 && GapEnd(0, size, cs, i) > 0) || (i < |cs| && OpenAtZero(size, cs, i + 1))
    ensures OpenAtZero(size, cs, i) ==> GapStart(0, cs, i) == 0
  {
    hide Ordered;
    GapsInside(0, size, cs, i);
    if OpenAtZero(size, cs, i) {
      var j :| i <= j <= |cs| && GapStart(0, cs, j) == 0 && GapEnd(0, size, cs, j) > 0;
      GapsRise(size, cs, i, j);
    }
  }

  lemma {:induction false} ZeroBytesSearch(size: nat, cs: seq<Interval>, align: nat, k: nat, i: nat)
    requires Ordered(0, size, cs) && Aligning(align, k) && NoWrap(0, size, 0, align) && i <= |cs|
    ensures Search(0, size, cs, 0, align, i, GapStart(0, cs, i)) == None
            || Search(0, size, cs, 0, align, i, GapStart(0, cs, i)).value.base >= GapStart(0, cs, i)
    ensures OpenAtZero(size, cs, i)
            <==> Search(0, size, cs, 0, align, i, GapStart(0, cs, i)).Some?
                 && Search(0, size, cs, 0, align, i, GapStart(0, cs, i)).value.base == 0
    decreases |cs| - i
  {
    hide AlignUp, Pow2, Ordered, TryHole, OpenAtZero, Search;
    GapsInside(0, size, cs, i);
    ZeroHole(size, GapStart(0, cs, i), GapEnd(0, size, cs, i), align, k);
    OpenHere(size, cs, i);
    SearchRound(0, size, cs, 0, align, i);
    if i < |cs| {
      GapsInside(0, size, cs, i + 1);
      ZeroBytesSearch(size, cs, align, k, i + 1);
      OpenHere(size, cs, i + 1);
    }
  }

  lemma {:induction false} GapsRise(size: nat, cs: seq<Interval>, i: nat, j: nat)
    requires Ordered(0, size, cs) && i <= j <= |cs|
    ensures GapStart(0, cs, i) <= GapStart(0, cs, j)
    decreases j
  {
    if i < j {
      LaterGapStartsLater(0, size, cs, i, j);
      GapsInside(0, size, cs, i);
    }
  }

  /** A request for no bytes fits at 0 always, and is placed there exactly if a gap at 0 is not
      empty: empty gaps are skipped. */
  lemma ZeroBytesCondition(size: nat, cs: seq<Interval>, align: nat, k: nat)
    requires Ordered(0, size, cs) && Aligning(align, k) && NoWrap(0, size, 0, align)
    ensures Fits(0, size, cs, 0, align, 0)
    ensures MeetsFirstFit(0, size, cs, 0, align) <==> OpenAtZero(size, cs, 0)
  {
    ZeroBytesSearch(size, cs, align, k, 0);
    hide Search, OpenAtZero;
    assert Fits(0, size, cs, 0, align, 0);
  }

  /** With children that are not empty, that is a gap in front of the first one. */
  lemma ZeroBytesInFront(size: nat, cs: seq<Interval>)
    requires Ordered(0, size, cs) && forall i :: 0 <= i < |cs| ==> cs[i].size > 0
    ensures OpenAtZero(size, cs, 0) <==> (if cs == [] then size > 0 else cs[0].base > 0)
  {
    if cs != [] && cs[0].base > 0 {
      assert GapStart(0, cs, 0) == 0 && GapEnd(0, size, cs, 0) > 0;
    } else if cs == [] && size > 0 {
      assert GapStart(0, cs, 0) == 0 && GapEnd(0, size, cs, 0) > 0;
    }
  }

  // ----- requests of any size

  /** The code's test of gap i holds only because the sum wraps around. */
  predicate WrapsInto(base: nat, size: nat, cs: seq<Interval>, n: nat, align: nat, i: nat)
    requires i <= |cs| && 0 < align <= WORD
  {
    var (sum, end) := (AlignUp(GapStart(base, cs, i), align) + n, GapEnd(base, size, cs, i));
    sum >= WORD && end > (base + GapStart(base, cs, i)) % WORD && sum % WORD + base <= end
  }

  /** The code takes gap i. */
  predicate Takes(base: nat, size: nat, cs: seq<Interval>, n: nat, align: nat, i: nat)
    requires i <= |cs| && 0 < align <= WORD
  {
    || AlignUp(GapStart(base, cs, i), align) + n + base <= GapEnd(base, size, cs, i)
    || WrapsInto(base, size, cs, n, align, i)
  }

  lemma AnyHole(base: nat, size: nat, offset: nat, end: nat, n: nat, align: nat, k: nat)
    requires base + size + align < WORD && 0 < n < WORD && Aligning(align, k)
    requires offset <= base + size && base <= end <= base + size
    ensures var found := if end > (base + offset) % WORD then TryHole(offset, (end - base - offset) % WORD, n, align)
                         else None;
            var sum := AlignUp(offset, align) + n;
            found == if sum + base <= end || (sum >= WORD && end > (base + offset) % WORD && sum % WORD + base <= end)
                     then Some(AlignUp(offset, align)) else None
  {
    hide AlignUp, Pow2, TryHole;
    AlignUpIsLeast(offset, k, offset);
    HoleTried(offset, end - base, n, align);
    var sum := AlignUp(offset, align) + n;
    if sum < WORD {
      Small(sum);
      if sum + base <= end {
        Small(base + offset);
      }
    }
  }

  /** From gap i on, the code finds the first gap that it takes. */
  lemma {:induction false} AnySearch(base: nat, size: nat, cs: seq<Interval>, n: nat, align: nat, k: nat, i: nat)
    requires Ordered(base, size, cs) && base + size + align < WORD && 0 < n < WORD && Aligning(align, k) && i <= |cs|
    ensures match Search(base, size, cs, n, align, i, GapStart(base, cs, i))
            case Some(f) =>
              && i <= f.index <= |cs| && f.base == AlignUp(GapStart(base, cs, f.index), align)
              && Takes(base, size, cs, n, align, f.index)
              && forall j :: i <= j < f.index ==> !Takes(base, size, cs, n, align, j)
            case None => forall j :: i <= j <= |cs| ==> !Takes(base, size, cs, n, align, j)
    decreases |cs| - i
  {
    hide AlignUp, TryHole, Pow2, Ordered, Search;
    GapsInside(base, size, cs, i);
    AnyHole(base, size, GapStart(base, cs, i), GapEnd(base, size, cs, i), n, align, k);
    SearchRound(base, size, cs, n, align, i);
    if i < |cs| {
      AnySearch(base, size, cs, n, align, k, i + 1);
    }
  }

  /** The region's base, if not 0, does not let the first hole take the request and can be spared
      in the gap of the first fit; and no sum wraps into a gap before that one. */
  ghost predicate SearchIsRight(base: nat, size: nat, cs: seq<Interval>, n: nat, align: nat)
    requires 0 < align <= WORD
  {
    var g := FirstGap(base, size, cs, n, align, 0, 0);
    && (base == 0 || n + base > GapEnd(base, size, cs, 0))
    && (base == 0 || g.None?
        || AlignUp(GapStart(base, cs, g.value), align) + n + base <= GapEnd(base, size, cs, g.value))
    && forall i :: 0 < i <= |cs| && (g.None? || i < g.value) ==> !WrapsInto(base, size, cs, n, align, i)
  }

  lemma {:induction false} FirstGapIs(base: nat, size: nat, cs: seq<Interval>, n: nat, align: nat, i: nat)
    requires 0 < align <= WORD && i <= |cs|
    ensures match FirstGap(base, size, cs, n, align, 0, i)
            case Some(g) =>
              forall j :: i <= j < g ==> AlignUp(GapStart(base, cs, j), align) + n > GapEnd(base, size, cs, j)
            case None =>
              forall j :: i <= j <= |cs| ==> AlignUp(GapStart(base, cs, j), align) + n > GapEnd(base, size, cs, j)
    decreases |cs| - i
  {
    hide AlignUp;
    if i < |cs| {
      FirstGapIs(base, size, cs, n, align, i + 1);
    }
  }

  /** A gap the code takes by wrapping is no fit, and lies wholly outside those that are. */
  lemma WrapIsNoFit(base: nat, size: nat, cs: seq<Interval>, n: nat, align: nat, i: nat)
    requires Ordered(base, size, cs) && base + size < WORD && 0 < align <= WORD && i <= |cs|
    requires WrapsInto(base, size, cs, n, align, i)
    ensures !Fits(base, size, cs, n, align, AlignUp(GapStart(base, cs, i), align))
    ensures AlignUp(GapStart(base, cs, i), align) + n > GapEnd(base, size, cs, i)
  {
    hide AlignUp;
    GapsInside(base, size, cs, i);
  }

  /** From gap i on: the first gap with a fit is there, has the region's base to spare, and no gap
      before it is taken by wrapping. */
  predicate RightFrom(base: nat, size: nat, cs: seq<Interval>, n: nat, align: nat, i: nat)
    requires 0 < align <= WORD
  {
    var g := FirstGap(base, size, cs, n, align, 0, 0);
    && (g.None? || (i <= g.value && AlignUp(GapStart(base, cs, g.value), align) + n + base
                                    <= GapEnd(base, size, cs, g.value)))
    && forall j :: i <= j <= |cs| && (g.None? || j < g.value) ==> !WrapsInto(base, size, cs, n, align, j)
  }

  lemma NothingTaken(base: nat, size: nat, cs: seq<Interval>, n: nat, align: nat, k: nat, i: nat)
    requires Ordered(base, size, cs) && base + size + align < WORD && 0 < n < WORD && Aligning(align, k)
    requires forall j :: i <= j <= |cs| ==> !Takes(base, size, cs, n, align, j)
    ensures (forall b :: b >= 0 ==> !Fits(base, size, cs, n, align, b)) <==> RightFrom(base, size, cs, n, align, i)
  {
    hide AlignUp, Pow2, LeastFit, Fits, Ordered, WrapsInto;
    FirstGapIsLeastFitAt(base, size, cs, n, align, k);
    var g := FirstGap(base, size, cs, n, align, 0, 0);
    if g.Some? {
      LeastFitFits(base, size, cs, n, align, AlignUp(GapStart(base, cs, g.value), align));
      assert i <= g.value ==> !Takes(base, size, cs, n, align, g.value);
    } else {
      assert forall j :: i <= j <= |cs| && WrapsInto(base, size, cs, n, align, j) ==> Takes(base, size, cs, n, align, j);
    }
  }

  lemma GapTaken(base: nat, size: nat, cs: seq<Interval>, n: nat, align: nat, k: nat, i: nat, f: nat)
    requires Ordered(base, size, cs) && base + size + align < WORD && 0 < n < WORD && Aligning(align, k)
    requires i <= f <= |cs| && Takes(base, size, cs, n, align, f)
    requires forall j :: i <= j < f ==> !Takes(base, size, cs, n, align, j)
    ensures LeastFit(base, size, cs, n, align, AlignUp(GapStart(base, cs, f), align))
            <==> RightFrom(base, size, cs, n, align, i)
  {
    hide AlignUp, Pow2, LeastFit, Fits, Ordered, WrapsInto;
    FirstGapIsLeastFitAt(base, size, cs, n, align, k);
    FirstGapIs(base, size, cs, n, align, 0);
    var g, b := FirstGap(base, size, cs, n, align, 0, 0), AlignUp(GapStart(base, cs, f), align);
    assert g.Some? && i <= g.value < f ==> !Takes(base, size, cs, n, align, g.value);
    if WrapsInto(base, size, cs, n, align, f) {
      WrapIsNoFit(base, size, cs, n, align, f);
      NotLeast(base, size, cs, n, align, b);
    } else if g.value < f {
      GapsInside(base, size, cs, g.value);
      LaterGapStartsLater(base, size, cs, g.value, f);
      GapsInside(base, size, cs, f);
      AlignUpIsLeast(GapStart(base, cs, f), k, 0);
      OneLeastFit(base, size, cs, n, align, AlignUp(GapStart(base, cs, g.value), align), b);
    } else {
      assert forall j :: i <= j < f && WrapsInto(base, size, cs, n, align, j) ==> Takes(base, size, cs, n, align, j);
    }
  }

  lemma FoundIsLeast(base: nat, size: nat, cs: seq<Interval>, n: nat, align: nat, k: nat, i: nat)
    requires Ordered(base, size, cs) && base + size + align < WORD && 0 < n < WORD && Aligning(align, k) && i <= |cs|
    ensures (match Search(base, size, cs, n, align, i, GapStart(base, cs, i))
             case Some(f) => LeastFit(base, size, cs, n, align, f.base)
             case None => forall b :: b >= 0 ==> !Fits(base, size, cs, n, align, b))
            <==> RightFrom(base, size, cs, n, align, i)
  {
    hide AlignUp, Search, Pow2, LeastFit, Fits, Ordered, Takes, RightFrom;
    AnySearch(base, size, cs, n, align, k, i);
    match Search(base, size, cs, n, align, i, GapStart(base, cs, i))
    case None => NothingTaken(base, size, cs, n, align, k, i);
    case Some(f) => GapTaken(base, size, cs, n, align, k, i, f.index);
  }

  lemma NotLeast(base: nat, size: nat, cs: seq<Interval>, n: nat, align: nat, b: nat)
    requires align > 0 && !Fits(base, size, cs, n, align, b)
    ensures !LeastFit(base, size, cs, n, align, b)
  {
  }

  /** The first hole away from 0: it is taken to start at 0. */
  lemma FirstHole(base: nat, size: nat, cs: seq<Interval>, n: nat, align: nat, k: nat)
    requires Ordered(base, size, cs) && base + size + align < WORD && 0 < n < WORD && Aligning(align, k)
    ensures Search(base, size, cs, n, align, 0, 0)
            == if n + base <= GapEnd(base, size, cs, 0) then Some(Found(0, 0))
               else if cs == [] then None
               else Search(base, size, cs, n, align, 1, GapStart(base, cs, 1))
  {
    hide AlignUp, TryHole, Pow2;
    GapsInside(base, size, cs, 0);
    AlignZero(align, k);
    AnyHole(base, size, 0, GapEnd(base, size, cs, 0), n, align, k);
    Small(base + size);
    Small(base);
    if cs != [] {
      GapsInside(base, size, cs, 1);
      Small(cs[0].End());
    }
  }

  /** The search is a first fit exactly when no sum wraps into a gap before the first fit, and,
      away from 0, the region's base can be spared; whatever the size of the request. */
  lemma AnySizeCondition(base: nat, size: nat, cs: seq<Interval>, n: nat, align: nat, k: nat)
    requires Ordered(base, size, cs) && base + size + align < WORD && 0 < n < WORD && Aligning(align, k)
    ensures MeetsFirstFit(base, size, cs, n, align) <==> SearchIsRight(base, size, cs, n, align)
  {
    hide Search, Pow2, LeastFit, Fits, Ordered, WrapsInto;
    FirstHole(base, size, cs, n, align, k);
    GapsInside(base, size, cs, 0);
    FirstGapIsLeastFitAt(base, size, cs, n, align, k);
    FoundIsLeast(base, size, cs, n, align, k, if base == 0 || cs == [] then 0 else 1);
    if base == 0 {
      NoWrapAtZero(size, cs, n, align, k);
    } else {
      BelowRegion(base, size, cs, n, align);
    }
  }

  lemma NoWrapAtZero(size: nat, cs: seq<Interval>, n: nat, align: nat, k: nat)
    requires 0 < n < WORD && Aligning(align, k)
    ensures !WrapsInto(0, size, cs, n, align, 0)
  {
    hide AlignUp, Pow2;
    AlignZero(align, k);
  }

  /** The code finds the first fit exactly when the region starts at 0, or the first gap is too
      small for the request and the gap of the first fit, if any, has the region's base to
      spare. */
  lemma FirstFitCondition(base: nat, size: nat, cs: seq<Interval>, n: nat, align: nat, k: nat)
    requires Ordered(base, size, cs) && n > 0 && Aligning(align, k) && NoWrap(base, size, n, align)
    ensures var g := FirstGap(base, size, cs, n, align, 0, 0);
            MeetsFirstFit(base, size, cs, n, align)
            <==> base == 0
                 || (n + base > GapEnd(base, size, cs, 0)
                     && (g.None? || AlignUp(GapStart(base, cs, g.value), align) + n + base
                                    <= GapEnd(base, size, cs, g.value)))
  {
    hide AlignUp, Pow2, MeetsFirstFit, FirstGap;
    AnySizeCondition(base, size, cs, n, align, k);
    forall i | 0 < i <= |cs|
      ensures !WrapsInto(base, size, cs, n, align, i)
    {
      GapsInside(base, size, cs, i);
      AlignUpIsLeast(GapStart(base, cs, i), k, 0);
    }
  }

  // ----- regions in the upper half

  /** Every region below the kernel's root is one of these, and so is the root itself. */
  predicate UpperHalf(base: nat, size: nat) {
    WORD / 2 <= base && base + size < WORD
  }

  /** The least multiple of align at or above x, without wrapping. */
  function Ceiling(x: nat, align: nat): nat
    requires align > 0
  {
    (x + align - 1) - (x + align - 1) % align
  }

  /** The aligned request does not fit gap i. */
  predicate TooSmall(base: nat, size: nat, cs: seq<Interval>, n: nat, align: nat, i: nat)
    requires i <= |cs| && align > 0
  {
    Ceiling(GapStart(base, cs, i), align) + n > GapEnd(base, size, cs, i)
  }

  /** Behind a child the code's test of gap i holds: a sum has wrapped around. */
  predicate WrapsPast(base: nat, size: nat, cs: seq<Interval>, n: nat, align: nat, i: nat)
    requires i <= |cs| && 0 < align <= WORD
  {
    (AlignUp(GapStart(base, cs, i), align) + n) % WORD <= GapEnd(base, size, cs, i) as int - base
  }

  lemma WrappedDoesNotFit(base: nat, size: nat, cs: seq<Interval>, n: nat, align: nat, i: nat)
    requires Ordered(base, size, cs) && UpperHalf(base, size) && 0 < n < WORD && 0 < align <= WORD && i <= |cs|
    requires WrapsPast(base, size, cs, n, align, i)
    ensures !Fits(base, size, cs, n, align, AlignUp(GapStart(base, cs, i), align))
  {
    hide AlignUp;
    var a := AlignUp(GapStart(base, cs, i), align);
    GapsInside(base, size, cs, i);
    if base <= a && a + n <= base + size {
      Small(a + n);
      assert false;
    }
  }

  /** Behind the first child the code takes a gap only if a sum wraps, and never rightly. */
  lemma {:induction false} UpperHalfBehind(base: nat, size: nat, cs: seq<Interval>, n: nat, align: nat, i: nat)
    requires Ordered(base, size, cs) && UpperHalf(base, size) && 0 < n < WORD && 0 < align <= WORD && 0 < i <= |cs|
    ensures var found := Search(base, size, cs, n, align, i, GapStart(base, cs, i));
            && (found.Some? <==> exists j :: i <= j <= |cs| && WrapsPast(base, size, cs, n, align, j))
            && (found.Some? ==> !Fits(base, size, cs, n, align, found.value.base))
    decreases |cs| - i
  {
    hide AlignUp, Ordered, Fits, Search, TryHole;
    var o, e := GapStart(base, cs, i), GapEnd(base, size, cs, i);
    GapsInside(base, size, cs, i);
    SearchRound(base, size, cs, n, align, i);
    HoleTried(o, e - base, n, align);
    WrapOnce(base + o);
    if WrapsPast(base, size, cs, n, align, i) {
      WrappedDoesNotFit(base, size, cs, n, align, i);
    } else if i < |cs| {
      UpperHalfBehind(base, size, cs, n, align, i + 1);
    }
  }

  lemma WrapOnce(x: nat)
    requires WORD <= x < 2 * WORD
    ensures x % WORD == x - WORD
  {
  }

  /** Whatever the code finds in such a region is no fit: the first hole is taken to start at
      address 0, and the later ones pass the test only when a sum wraps. */
  lemma UpperHalfSearch(base: nat, size: nat, cs: seq<Interval>, n: nat, align: nat, k: nat)
    requires Ordered(base, size, cs) && UpperHalf(base, size) && 0 < n < WORD && Aligning(align, k)
    ensures var found := Search(base, size, cs, n, align, 0, 0);
            && (found.Some? <==> n <= GapEnd(base, size, cs, 0) - base
                                 || exists i :: 0 < i <= |cs| && WrapsPast(base, size, cs, n, align, i))
            && (found.Some? ==> !Fits(base, size, cs, n, align, found.value.base))
            && (n <= GapEnd(base, size, cs, 0) - base ==> found == Some(Found(0, 0)))
  {
    hide AlignUp, Pow2;
    var e := GapEnd(base, size, cs, 0);
    GapsInside(base, size, cs, 0);
    AlignZero(align, k);
    HoleEnd(0, e - base);
    Small(e - base);
    Small(base);
    Small(n);
    Small(base + size);
    if cs != [] {
      GapsInside(base, size, cs, 1);
      Small(cs[0].End());
      UpperHalfBehind(base, size, cs, n, align, 1);
    }
  }

  lemma AlignZero(align: nat, k: nat)
    requires Aligning(align, k)
    ensures AlignUp(0, align) == 0
  {
    hide And, Pow2;
    WordIsPower();
    AndRange(align - 1, k, 64);
    assert (align - 1) % align == align - 1 by {
      QuotientUnique(align - 1, align, 0, align - 1);
    }
    Small(align - 1);
  }

  /** A fit lies in one of the gaps. */
  lemma {:induction false} FitInGap(base: nat, size: nat, cs: seq<Interval>, n: nat, align: nat, b: nat, i: nat)
    returns (j: nat)
    requires Ordered(base, size, cs) && align > 0 && n > 0 && Fits(base, size, cs, n, align, b)
    requires i <= |cs| && GapStart(base, cs, i) <= b
    ensures i <= j <= |cs| && GapStart(base, cs, j) <= b && b + n <= GapEnd(base, size, cs, j)
    decreases |cs| - i
  {
    if i == |cs| || b + n <= cs[i].base {
      j := i;
    } else {
      j := FitInGap(base, size, cs, n, align, b, i + 1);
    }
  }

  lemma CeilingIsLeast(x: nat, align: nat, y: nat)
    requires align > 0
    ensures x <= Ceiling(x, align) && Ceiling(x, align) % align == 0
    ensures x <= y && y % align == 0 ==> Ceiling(x, align) <= y
  {
    RoundDown(x + align - 1, align);
    if x <= y && y % align == 0 {
      MultipleAbove(Ceiling(x, align), x, y, align);
    }
  }

  /** Nothing fits anywhere exactly when every gap is too small. */
  lemma NothingFits(base: nat, size: nat, cs: seq<Interval>, n: nat, align: nat)
    requires Ordered(base, size, cs) && align > 0 && n > 0
    ensures (forall b :: b >= 0 ==> !Fits(base, size, cs, n, align, b))
            <==> forall i :: 0 <= i <= |cs| ==> TooSmall(base, size, cs, n, align, i)
  {
    hide Ceiling;
    if i :| 0 <= i <= |cs| && !TooSmall(base, size, cs, n, align, i) {
      CeilingIsLeast(GapStart(base, cs, i), align, 0);
      FitsInGap(base, size, cs, n, align, i, Ceiling(GapStart(base, cs, i), align));
    }
    if b :| b >= 0 && Fits(base, size, cs, n, align, b) {
      var j := FitInGap(base, size, cs, n, align, b, 0);
      CeilingIsLeast(GapStart(base, cs, j), align, b);
      assert !TooSmall(base, size, cs, n, align, j);
    }
  }

  /** In the upper half the code meets the first fit only by rightly finding nothing: every gap
      is too small, the first one even from 0, and no sum wraps. */
  lemma UpperHalfCondition(base: nat, size: nat, cs: seq<Interval>, n: nat, align: nat, k: nat)
    requires Ordered(base, size, cs) && UpperHalf(base, size) && 0 < n < WORD && Aligning(align, k)
    ensures MeetsFirstFit(base, size, cs, n, align)
            <==> && n > GapEnd(base, size, cs, 0) - base
                 && (forall i :: 0 <= i <= |cs| ==> TooSmall(base, size, cs, n, align, i))
                 && (forall i :: 0 < i <= |cs| ==> !WrapsPast(base, size, cs, n, align, i))
  {
    hide Search, Ordered, Fits, TooSmall, WrapsPast, Pow2, GapEnd;
    UpperHalfSearch(base, size, cs, n, align, k);
    NothingFits(base, size, cs, n, align);
  }

  const KERNEL_BASE := 0xFFFF_8000_0000_0000
  const KERNEL_SIZE := 0x7FFF_FFFF_FFFF

  /** The kernel's root region: while it is empty, every request that fits it is given address
      0, although the region's own base fits. */
  lemma KernelRootStartsAtZero(n: nat, k: nat)
    requires 0 < n <= KERNEL_SIZE && k <= 47
    ensures UpperHalf(KERNEL_BASE, KERNEL_SIZE)
    ensures Aligning(Pow2(k), k)
    ensures Search(KERNEL_BASE, KERNEL_SIZE, [], n, Pow2(k), 0, 0) == Some(Found(0, 0))
    ensures LeastFit(KERNEL_BASE, KERNEL_SIZE, [], n, Pow2(k), KERNEL_BASE)
  {
    hide Pow2, Search;
    Pow2Values();
    Pow2Add(k, 47 - k);
    Pow2Add(39, 3);
    Pow2Add(42, 5);
    assert Pow2(3) == 8 && Pow2(5) == 32 by {
      Pow2Add(3, 2);
      SmallPowers();
    }
    WordIsPower();
    QuotientUnique(KERNEL_BASE, Pow2(k), 0x1_FFFF * Pow2(47 - k), 0);
    UpperHalfSearch(KERNEL_BASE, KERNEL_SIZE, [], n, Pow2(k), k);
  }

  lemma SmallPowers()
    ensures Pow2(2) == 4 && Pow2(3) == 8 && Pow2(5) == 32
  {
  }
}
