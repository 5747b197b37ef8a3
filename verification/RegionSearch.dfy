/** The search for a place in a virtual memory region: what the code looks for and what a
    first fit is (core/include/core/vmregion.h, core/vmregion.cc). */
module RegionSearch {
  import opened Bits
  import opened Wrappers

  const WORD := 0x1_0000_0000_0000_0000
  const PAGE := 4096

  datatype Interval = Interval(base: nat, size: nat) {
    function End(): nat {
      base + size
    }
  }

  // ----- what is wanted

  /** Children in order, apart, and inside a region at base of the given size. */
  ghost predicate Ordered(base: nat, size: nat, cs: seq<Interval>) {
    && (forall i :: 0 <= i < |cs| ==> base <= cs[i].base && cs[i].End() <= base + size)
    && forall i, j :: 0 <= i < j < |cs| ==> cs[i].End() <= cs[j].base
  }

  /** The interval of n bytes at b is aligned, inside the region, and meets no child. */
  ghost predicate Fits(base: nat, size: nat, cs: seq<Interval>, n: nat, align: nat, b: nat)
    requires align > 0
  {
    && b % align == 0 && base <= b && b + n <= base + size
    && forall i :: 0 <= i < |cs| ==> b + n <= cs[i].base || cs[i].End() <= b
  }

  ghost predicate LeastFit(base: nat, size: nat, cs: seq<Interval>, n: nat, align: nat, b: nat)
    requires align > 0
  {
    && Fits(base, size, cs, n, align, b)
    && forall b' :: 0 <= b' < b ==> !Fits(base, size, cs, n, align, b')
  }

  // ----- alignment

  /** ebl::align_up on 64-bit words. */
  function AlignUp(x: nat, align: nat): nat
    requires 0 < align <= WORD
  {
    And((x + align - 1) % WORD, WORD - align)
  }

  /** max(1 << k, page size) */
  function AlignOf(k: nat): (align: nat)
    ensures align >= PAGE
  {
    if Pow2(k) < PAGE then PAGE else Pow2(k)
  }

  lemma AlignOfIsPower(k: nat)
    ensures AlignOf(k) == Pow2(if k < 12 then 12 else k)
  {
    Pow2Values();
    if k < 12 {
      Pow2Increases(k, 12);
    } else if k > 12 {
      Pow2Increases(12, k);
    }
  }

  lemma {:induction false} Pow2Increases(j: nat, k: nat)
    requires j < k
    ensures Pow2(j) < Pow2(k)
  {
    if j + 1 < k {
      Pow2Increases(j, k - 1);
    }
  }

  lemma AlignUpValue(x: nat, k: nat)
    requires k <= 64 && x + Pow2(k) - 1 < WORD && Pow2(k) <= WORD
    ensures var z := x + Pow2(k) - 1; AlignUp(x, Pow2(k)) == z - z % Pow2(k)
  {
    hide And, Pow2;
    WordIsPower();
    AndRange(x + Pow2(k) - 1, k, 64);
  }

  /** Without wrapping, AlignUp is the least multiple of a power of two at or above x. */
  lemma AlignUpIsLeast(x: nat, k: nat, y: nat)
    requires k <= 64 && x + Pow2(k) - 1 < WORD && Pow2(k) <= WORD
    ensures AlignUp(x, Pow2(k)) % Pow2(k) == 0 && x <= AlignUp(x, Pow2(k)) < x + Pow2(k)
    ensures x <= y && y % Pow2(k) == 0 ==> AlignUp(x, Pow2(k)) <= y
  {
    hide AlignUp, Pow2;
    var a, z := Pow2(k), x + Pow2(k) - 1;
    AlignUpValue(x, k);
    RoundDown(z, a);
    if x <= y && y % a == 0 {
      MultipleAbove(z - z % a, x, y, a);
    }
  }

  lemma WordIsPower()
    ensures Pow2(64) == WORD
  {
    Pow2Values();
    Pow2Add(32, 32);
  }

  lemma RoundDown(z: nat, a: nat)
    requires a > 0
    ensures (z - z % a) % a == 0
  {
    QuotientUnique(z - z % a, a, z / a, 0);
  }

  lemma MultipleAbove(m: nat, x: nat, y: nat, a: nat)
    requires a > 0 && m % a == 0 && y % a == 0 && m < x + a && x <= y
    ensures m <= y
  {
    var p, q := m / a, y / a;
    assert m == p * a && y == q * a;
    assert (p - q) * a == m - y;
    MulSpread(p - q, a);
  }

  // ----- what the code does

  datatype Found = Found(base: nat, index: nat)

  /** The callback: a place in the hole, if the aligned request still fits. */
  function TryHole(holeBase: nat, holeSize: nat, n: nat, align: nat): Option<nat>
    requires 0 < align <= WORD
  {
    var aligned := AlignUp(holeBase, align);
    if (aligned + n) % WORD > (holeBase + holeSize) % WORD then None else Some(aligned)
  }

  /** foreach_hole from child i on, with its running offset; index |cs| stands for no child. */
  function Search(base: nat, size: nat, cs: seq<Interval>, n: nat, align: nat, i: nat, offset: nat): Option<Found>
    requires 0 < align <= WORD && i <= |cs|
    decreases |cs| - i
  {
    if i == |cs| then
      if (base + size) % WORD > (base + offset) % WORD then
        match TryHole(offset, (size - offset) % WORD, n, align)
        case Some(b) => Some(Found(b, i))
        case None => None
      else None
    else
      var found :=
        if cs[i].base > (base + offset) % WORD
        then TryHole(offset, (cs[i].base - base - offset) % WORD, n, align)
        else None;
      match found
      case Some(b) => Some(Found(b, i))
      case None => Search(base, size, cs, n, align, i + 1, cs[i].End() % WORD)
  }

  /** No sum in the search reaches 2^64. */
  predicate NoWrap(base: nat, size: nat, n: nat, align: nat) {
    base + size + n + align < WORD
  }

  // ----- gaps between children

  /** Gap i lies before child i; the last one ends with the region. */
  function GapStart(base: nat, cs: seq<Interval>, i: nat): nat
    requires i <= |cs|
  {
    if i == 0 then base else cs[i - 1].End()
  }

  function GapEnd(base: nat, size: nat, cs: seq<Interval>, i: nat): nat
    requires i <= |cs|
  {
    if i < |cs| then cs[i].base else base + size
  }

  /** The first gap from i on that takes the aligned request and leaves slack bytes behind it. */
  function FirstGap(base: nat, size: nat, cs: seq<Interval>, n: nat, align: nat, slack: nat, i: nat)
      : (r: Option<nat>)
    requires 0 < align <= WORD && i <= |cs|
    ensures r.Some? ==>
              && i <= r.value <= |cs|
              && AlignUp(GapStart(base, cs, r.value), align) + n + slack <= GapEnd(base, size, cs, r.value)
    decreases |cs| - i
  {
    if AlignUp(GapStart(base, cs, i), align) + n + slack <= GapEnd(base, size, cs, i) then Some(i)
    else if i == |cs| then None
    else FirstGap(base, size, cs, n, align, slack, i + 1)
  }

  /** A usable alignment: a power of two that fits the region's words. */
  predicate Aligning(align: nat, k: nat) {
    k <= 64 && align == Pow2(k) && align <= WORD
  }

  // ----- the first gap is the first fit

  lemma {:induction false} FirstGapIsLeastFit(base: nat, size: nat, cs: seq<Interval>, n: nat, align: nat, k: nat, i: nat)
    requires Ordered(base, size, cs) && n > 0 && Aligning(align, k) && i <= |cs|
    requires base + size + align < WORD
    requires forall b :: 0 <= b < GapStart(base, cs, i) ==> !Fits(base, size, cs, n, align, b)
    ensures match FirstGap(base, size, cs, n, align, 0, i)
            case Some(j) => LeastFit(base, size, cs, n, align, AlignUp(GapStart(base, cs, j), align))
            case None => forall b :: b >= 0 ==> !Fits(base, size, cs, n, align, b)
    decreases |cs| - i
  {
    hide AlignUp, Ordered, Fits, Pow2;
    var start := GapStart(base, cs, i);
    GapsInside(base, size, cs, i);
    AlignUpIsLeast(start, k, start);
    if AlignUp(start, align) + n <= GapEnd(base, size, cs, i) {
      FitsInGap(base, size, cs, n, align, i, AlignUp(start, align));
      forall b | 0 <= b < AlignUp(start, align)
        ensures !Fits(base, size, cs, n, align, b)
      {
        FitsAreAligned(base, size, cs, n, align, b);
        AlignUpIsLeast(start, k, b);
      }
    } else {
      forall b | 0 <= b && (i == |cs| || b < GapStart(base, cs, i + 1))
        ensures !Fits(base, size, cs, n, align, b)
      {
        AlignUpIsLeast(start, k, b);
        NoFitBeforeNextGap(base, size, cs, n, align, i, b);
      }
      if i < |cs| {
        FirstGapIsLeastFit(base, size, cs, n, align, k, i + 1);
      }
    }
  }

  lemma GapsInside(base: nat, size: nat, cs: seq<Interval>, i: nat)
    requires Ordered(base, size, cs) && i <= |cs|
    ensures base <= GapStart(base, cs, i) <= GapEnd(base, size, cs, i) <= base + size
    ensures i < |cs| ==> GapEnd(base, size, cs, i) <= GapStart(base, cs, i + 1)
  {
  }

  lemma FitsInGap(base: nat, size: nat, cs: seq<Interval>, n: nat, align: nat, i: nat, b: nat)
    requires Ordered(base, size, cs) && i <= |cs| && align > 0 && b % align == 0
    requires GapStart(base, cs, i) <= b && b + n <= GapEnd(base, size, cs, i)
    ensures Fits(base, size, cs, n, align, b)
  {
    GapsInside(base, size, cs, i);
    forall j | 0 <= j < |cs|
      ensures b + n <= cs[j].base || cs[j].End() <= b
    {
      if j < i - 1 {
        assert cs[j].End() <= cs[i - 1].base;
      } else if j > i {
        assert cs[i].End() <= cs[j].base;
      }
    }
  }

  lemma FitsAreAligned(base: nat, size: nat, cs: seq<Interval>, n: nat, align: nat, b: nat)
    requires align > 0
    ensures Fits(base, size, cs, n, align, b) ==> b % align == 0
  {
  }

  /** A gap too small for the aligned request holds no fit. */
  lemma NoFitBeforeNextGap(base: nat, size: nat, cs: seq<Interval>, n: nat, align: nat, i: nat, b: nat)
    requires Ordered(base, size, cs) && n > 0 && 0 < align <= WORD && i <= |cs|
    requires b < GapStart(base, cs, i) ==> !Fits(base, size, cs, n, align, b)
    requires GapStart(base, cs, i) <= b && b % align == 0 ==> AlignUp(GapStart(base, cs, i), align) <= b
    requires AlignUp(GapStart(base, cs, i), align) + n > GapEnd(base, size, cs, i)
    requires i < |cs| ==> b < GapStart(base, cs, i + 1)
    ensures !Fits(base, size, cs, n, align, b)
  {
    hide AlignUp;
  }

  // ----- the code's search

  /** The place at the start of gap j. */
  function InGap(base: nat, cs: seq<Interval>, align: nat, gap: Option<nat>): Option<Found>
    requires 0 < align <= WORD && (gap.Some? ==> gap.value <= |cs|)
  {
    match gap
    case Some(j) => Some(Found(AlignUp(GapStart(base, cs, j), align), j))
    case None => None
  }

  /** A hole is tested with its size short by the region's base. */
  lemma HoleTest(base: nat, size: nat, offset: nat, end: nat, n: nat, align: nat, k: nat)
    requires NoWrap(base, size, n, align) && n > 0 && Aligning(align, k)
    requires offset <= base + size && base <= end <= base + size
    ensures var found := if end > (base + offset) % WORD then TryHole(offset, (end - base - offset) % WORD, n, align)
                         else None;
            found == if AlignUp(offset, align) + n + base <= end then Some(AlignUp(offset, align)) else None
  {
    hide AlignUp, Pow2, TryHole;
    AlignUpIsLeast(offset, k, offset);
    HoleTaken(offset, end - base, n, align);
    if base + offset < WORD {
      Small(base + offset);
    }
  }

  /** The callback's test on a hole from offset to end, when the request does not wrap. */
  lemma HoleTaken(offset: nat, end: nat, n: nat, align: nat)
    requires 0 < align <= WORD && AlignUp(offset, align) + n < WORD && end < WORD
    ensures TryHole(offset, (end - offset) % WORD, n, align)
         == if AlignUp(offset, align) + n <= end then Some(AlignUp(offset, align)) else None
  {
    hide AlignUp;
    Small(AlignUp(offset, align) + n);
    HoleEnd(offset, end);
    Small(end);
  }

  /** The end of a hole, computed modulo the word size. */
  lemma HoleEnd(offset: nat, end: nat)
    ensures (offset + (end - offset) % WORD) % WORD == end % WORD
  {
  }

  lemma Small(x: nat)
    requires x < WORD
    ensures x % WORD == x
  {
  }

  /** What the callback says to the gap before child i. */
  function Hole(base: nat, size: nat, cs: seq<Interval>, n: nat, align: nat, i: nat): Option<nat>
    requires 0 < align <= WORD && i <= |cs|
  {
    var (o, end) := (GapStart(base, cs, i), GapEnd(base, size, cs, i));
    if end > (base + o) % WORD then TryHole(o, (end - base - o) % WORD, n, align) else None
  }

  /** One round of the loop whose offset is the absolute one. */
  lemma SearchRound(base: nat, size: nat, cs: seq<Interval>, n: nat, align: nat, i: nat)
    requires Ordered(base, size, cs) && base + size < WORD && 0 < align <= WORD && i <= |cs|
    ensures Search(base, size, cs, n, align, i, GapStart(base, cs, i))
            == match Hole(base, size, cs, n, align, i)
               case Some(b) => Some(Found(b, i))
               case None => if i == |cs| then None else Search(base, size, cs, n, align, i + 1, GapStart(base, cs, i + 1))
  {
    hide TryHole, Ordered;
    GapsInside(base, size, cs, i);
    Small(base + size);
    if i < |cs| {
      GapsInside(base, size, cs, i + 1);
      Small(cs[i].End());
    }
  }

  /** From any gap whose offset is the absolute one, the code takes the first gap that leaves
      the region's base to spare. */
  lemma {:induction false} SearchTakesFirstGap(base: nat, size: nat, cs: seq<Interval>, n: nat, align: nat, k: nat, i: nat)
    requires Ordered(base, size, cs) && n > 0 && Aligning(align, k) && NoWrap(base, size, n, align) && i <= |cs|
    ensures Search(base, size, cs, n, align, i, GapStart(base, cs, i))
            == InGap(base, cs, align, FirstGap(base, size, cs, n, align, base, i))
    decreases |cs| - i
  {
    hide AlignUp, TryHole, Pow2, Ordered, Search;
    GapsInside(base, size, cs, i);
    HoleTest(base, size, GapStart(base, cs, i), GapEnd(base, size, cs, i), n, align, k);
    SearchRound(base, size, cs, n, align, i);
    if i < |cs| {
      SearchTakesFirstGap(base, size, cs, n, align, k, i + 1);
    }
  }

  /** The code's answer is the first fit. */
  ghost predicate MeetsFirstFit(base: nat, size: nat, cs: seq<Interval>, n: nat, align: nat)
    requires 0 < align <= WORD
  {
    match Search(base, size, cs, n, align, 0, 0)
    case Some(found) => LeastFit(base, size, cs, n, align, found.base)
    case None => forall b :: b >= 0 ==> !Fits(base, size, cs, n, align, b)
  }

  /** In a region at 0 the code finds the least fit, and fails only if nothing fits. */
  lemma FirstFitIsExact(size: nat, cs: seq<Interval>, n: nat, align: nat, k: nat)
    requires Ordered(0, size, cs) && n > 0 && Aligning(align, k) && NoWrap(0, size, n, align)
    ensures MeetsFirstFit(0, size, cs, n, align)
  {
    SearchTakesFirstGap(0, size, cs, n, align, k, 0);
    FirstGapIsLeastFit(0, size, cs, n, align, k, 0);
  }

  lemma {:induction false} LaterGapStartsLater(base: nat, size: nat, cs: seq<Interval>, i: nat, j: nat)
    requires Ordered(base, size, cs) && i < j <= |cs|
    ensures GapEnd(base, size, cs, i) <= GapStart(base, cs, j)
    decreases j
  {
    GapsInside(base, size, cs, i);
    if i + 1 < j {
      LaterGapStartsLater(base, size, cs, i, j - 1);
      GapsInside(base, size, cs, j - 1);
    }
  }

  lemma BelowRegion(base: nat, size: nat, cs: seq<Interval>, n: nat, align: nat)
    requires base > 0 && align > 0
    ensures !LeastFit(base, size, cs, n, align, 0)
  {
  }

  lemma LeastFitFits(base: nat, size: nat, cs: seq<Interval>, n: nat, align: nat, b: nat)
    requires align > 0 && LeastFit(base, size, cs, n, align, b)
    ensures Fits(base, size, cs, n, align, b)
  {
  }

  lemma OneLeastFit(base: nat, size: nat, cs: seq<Interval>, n: nat, align: nat, b: nat, b': nat)
    requires align > 0 && LeastFit(base, size, cs, n, align, b) && b < b'
    ensures !LeastFit(base, size, cs, n, align, b')
  {
  }

  lemma FirstGapIsLeastFitAt(base: nat, size: nat, cs: seq<Interval>, n: nat, align: nat, k: nat)
    requires Ordered(base, size, cs) && n > 0 && Aligning(align, k) && base + size + align < WORD
    ensures match FirstGap(base, size, cs, n, align, 0, 0)
            case Some(j) => LeastFit(base, size, cs, n, align, AlignUp(GapStart(base, cs, j), align))
            case None => forall b :: b >= 0 ==> !Fits(base, size, cs, n, align, b)
  {
    FirstGapIsLeastFit(base, size, cs, n, align, k, 0);
  }
}
