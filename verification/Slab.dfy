/** Slabs of the kernel allocator: layout, colouring, the chain of free objects, and the way
    back from an object to its slab (core/slab.cc, core/include/core/slab.h). */
module Slabs {
  import opened Bits
  import opened Wrappers
  import R = RegionSearch

  const PAGE := 4096
  const WORD32 := 0x1_0000_0000
  const WORD64 := 0x1_0000_0000_0000_0000

  // ----- sizes

  function Quotient(x: nat, y: nat): nat
    requires y > 0
  {
    x / y
  }

  /** align_up of slab.h, on 32-bit words. */
  function AlignUp(value: nat, order: nat): nat
    requires Pow2(order) <= WORD32
  {
    And((value + (Pow2(order) - 1)) % WORD32, WORD32 - Pow2(order))
  }

  /** num_objects_per_slab; header is the size of struct slab. */
  function ObjectsPerSlab(header: nat, size: nat, order: nat): nat
    requires Pow2(order) <= WORD32
    requires AlignUp(size, order) > 0 && AlignUp(header, order) <= PAGE
  {
    Quotient(PAGE - AlignUp(header, order), AlignUp(size, order))
  }

  lemma AlignUpValue(value: nat, order: nat)
    requires order <= 32 && Pow2(order) <= WORD32 && value + Pow2(order) - 1 < WORD32
    ensures AlignUp(value, order) == Ceiling(value, Pow2(order))
  {
    hide And, Pow2;
    Word32IsPower();
    AndRange(value + Pow2(order) - 1, order, 32);
  }

  lemma Word32IsPower()
    ensures Pow2(32) == WORD32
  {
    Pow2Values();
  }

  function Ceiling(value: nat, unit: nat): nat
    requires unit > 0
  {
    (value + unit - 1) - (value + unit - 1) % unit
  }

  lemma CeilingIsLeast(value: nat, unit: nat, y: nat)
    requires unit > 0
    ensures Ceiling(value, unit) % unit == 0 && value <= Ceiling(value, unit) < value + unit
    ensures value <= y && y % unit == 0 ==> Ceiling(value, unit) <= y
  {
    R.RoundDown(value + unit - 1, unit);
    if value <= y && y % unit == 0 {
      R.MultipleAbove(Ceiling(value, unit), value, y, unit);
    }
  }

  /** AlignUp is the least multiple of 2^order at or above a value, when that is a 32-bit
      number. */
  lemma AlignUpIsLeast(value: nat, order: nat, y: nat)
    requires order <= 32 && Pow2(order) <= WORD32 && value + Pow2(order) - 1 < WORD32
    ensures AlignUp(value, order) % Pow2(order) == 0 && value <= AlignUp(value, order) < value + Pow2(order)
    ensures value <= y && y % Pow2(order) == 0 ==> AlignUp(value, order) <= y
  {
    hide AlignUp, Pow2, Ceiling;
    AlignUpValue(value, order);
    CeilingIsLeast(value, Pow2(order), y);
  }

  lemma AlignUpFixed(value: nat, order: nat)
    requires order <= 32 && Pow2(order) <= WORD32 && value + Pow2(order) - 1 < WORD32
    requires value % Pow2(order) == 0
    ensures AlignUp(value, order) == value
  {
    hide AlignUp, Pow2;
    AlignUpIsLeast(value, order, value);
  }

  // ----- geometry

  function At(first: nat, size: nat, i: nat): nat {
    first + i * size
  }

  /** The objects of a slab: count addresses, size bytes apart. */
  function Objects(first: nat, size: nat, count: nat): (s: seq<nat>)
    ensures |s| == count && forall i :: 0 <= i < count ==> s[i] == At(first, size, i)
  {
    seq(count, i requires 0 <= i => At(first, size, i))
  }

  predicate Aligned(objects: seq<nat>, unit: nat)
    requires unit > 0
  {
    forall i :: 0 <= i < |objects| ==> objects[i] % unit == 0
  }

  predicate Disjoint(objects: seq<nat>, size: nat) {
    forall i, j :: 0 <= i < j < |objects| ==> objects[i] + size <= objects[j]
  }

  predicate Inside(objects: seq<nat>, size: nat, low: nat, high: nat) {
    forall i :: 0 <= i < |objects| ==> low <= objects[i] && objects[i] + size <= high
  }

  lemma MultipleSum(x: nat, q: nat, unit: nat, k: nat)
    requires unit > 0 && x % unit == 0 && q % unit == 0
    ensures (x + k * q) % unit == 0
  {
    var a, b := x / unit, q / unit;
    assert x == a * unit && q == b * unit;
    assert k * q == (k * b) * unit by {
      assert k * (b * unit) == (k * b) * unit;
    }
    assert x + k * q == (a + k * b) * unit;
    QuotientUnique(x + k * q, unit, a + k * b, 0);
  }

  lemma AtOrder(first: nat, size: nat, i: nat, j: nat)
    requires i < j
    ensures first <= At(first, size, i) && At(first, size, i) + size <= At(first, size, j)
    ensures j == i + 1 ==> At(first, size, i) + size == At(first, size, j)
    ensures At(first, size, 0) == first
  {
    Spread(i, j, size);
    assert (i + 1) * size == i * size + size;
  }

  lemma ObjectsLaidOut(first: nat, size: nat, count: nat, unit: nat)
    requires unit > 0 && first % unit == 0 && size % unit == 0
    ensures Aligned(Objects(first, size, count), unit)
    ensures Disjoint(Objects(first, size, count), size)
    ensures Inside(Objects(first, size, count), size, first, At(first, size, count))
  {
    forall i | 0 <= i < count
      ensures At(first, size, i) % unit == 0
    {
      MultipleSum(first, size, unit, i);
    }
    hide At;
    forall i, j | 0 <= i < j <= count
      ensures first <= At(first, size, i) && At(first, size, i) + size <= At(first, size, j)
    {
      AtOrder(first, size, i, j);
    }
  }

  // ----- colours

  /** The colour after last, of max. */
  function NextColor(last: nat, max: nat): nat
    requires max > 0
  {
    (last + 1) % max
  }

  /** The colour of the k-th slab created after one of colour last. */
  function ColorAfter(last: nat, max: nat, k: nat): nat
    requires max > 0
  {
    if k == 0 then last else NextColor(ColorAfter(last, max, k - 1), max)
  }

  function Residue(x: nat, max: nat): nat
    requires max > 0
  {
    x % max
  }

  lemma NextResidue(x: nat, max: nat)
    requires max > 0
    ensures NextColor(Residue(x, max), max) == Residue(x + 1, max)
  {
    NextRemainder(x, max);
    var r := x % max;
    if r + 1 < max {
      QuotientUnique(r + 1, max, 0, r + 1);
    } else {
      QuotientUnique(r + 1, max, 1, 0);
    }
  }

  lemma {:induction false} ColorAfterIs(last: nat, max: nat, k: nat)
    requires last < max
    ensures ColorAfter(last, max, k) == Residue(last + k, max)
  {
    if k > 0 {
      hide Residue, NextColor;
      ColorAfterIs(last, max, k - 1);
      NextResidue(last + k - 1, max);
    } else {
      QuotientUnique(last, max, 0, last);
    }
  }

  /** Among any max consecutive slabs, starting after s others, every colour comes up
      exactly once. */
  lemma ColorsCycle(last: nat, max: nat, s: nat, c: nat)
    requires last < max && c < max
    ensures exists k :: s < k <= s + max && ColorAfter(last, max, k) == c
    ensures forall j, k :: s < j < k <= s + max ==> ColorAfter(last, max, j) != ColorAfter(last, max, k)
  {
    hide ColorAfter;
    var r := (last + s) % max;
    var q := (last + s) / max;
    assert last + s == q * max + r;
    var d := if c > r then c - r else c + max - r;
    ColorAfterIs(last, max, s + d);
    assert (q + 1) * max == q * max + max;
    if c > r {
      QuotientUnique(last + s + d, max, q, c);
    } else {
      QuotientUnique(last + s + d, max, q + 1, c);
    }
    assert ColorAfter(last, max, s + d) == c;
    forall j, k | s < j < k <= s + max
      ensures ColorAfter(last, max, j) != ColorAfter(last, max, k)
    {
      ColorAfterIs(last, max, j);
      ColorAfterIs(last, max, k);
      ResiduesDiffer(last + j, last + k, max);
    }
  }

  lemma ResiduesDiffer(a: nat, b: nat, max: nat)
    requires a < b < a + max
    ensures a % max != b % max
  {
    var p, q := a / max, b / max;
    assert a == p * max + a % max && b == q * max + b % max;
    if a % max == b % max {
      assert b - a == (q - p) * max;
      MulSpread(q - p, max);
    }
  }

  // ----- chains

  /** Following the links from p meets exactly the given objects, then null. */
  predicate Chain(next: map<nat, nat>, p: nat, objects: seq<nat>)
    decreases |objects|
  {
    if objects == [] then p == 0
    else p == objects[0] && p in next && Chain(next, next[p], objects[1..])
  }

  function Successor(objects: seq<nat>, k: nat): nat
    requires k < |objects|
  {
    if k == |objects| - 1 then 0 else objects[k + 1]
  }

  /** The first n objects are linked, each to its successor and the last of all to null. */
  predicate Linked(next: map<nat, nat>, objects: seq<nat>, n: nat)
    requires n <= |objects|
  {
    forall k :: 0 <= k < n ==>
      objects[k] in next && next[objects[k]] == Successor(objects, k)
  }

  predicate SameOutside(before: map<nat, nat>, after: map<nat, nat>, objects: seq<nat>) {
    && (forall a :: a in before && a !in objects ==> a in after && after[a] == before[a])
    && (forall a :: a in after && a !in objects ==> a in before)
  }

  lemma {:induction false} ChainOfLinks(next: map<nat, nat>, objects: seq<nat>)
    requires objects != [] && Linked(next, objects, |objects|)
    ensures Chain(next, objects[0], objects)
    decreases |objects|
  {
    var rest := objects[1..];
    assert next[objects[0]] == Successor(objects, 0);
    if rest != [] {
      forall k | 0 <= k < |rest|
        ensures rest[k] in next && next[rest[k]] == Successor(rest, k)
      {
        assert rest[k] == objects[k + 1];
        assert Successor(rest, k) == Successor(objects, k + 1);
      }
      ChainOfLinks(next, rest);
    }
  }

  // ----- the page

  lemma CountFits(free: nat, size: nat)
    requires size > 0
    ensures Quotient(free, size) * size + free % size == free
  {
  }

  lemma ObjectsApart(first: nat, size: nat, count: nat)
    requires size > 0
    ensures var s := Objects(first, size, count); forall i, j :: 0 <= i < j < count ==> s[i] != s[j]
    ensures At(first, size, count) !in Objects(first, size, count)
  {
    hide At;
    forall i, j | 0 <= i < j <= count
      ensures At(first, size, i) < At(first, size, j)
    {
      AtOrder(first, size, i, j);
    }
  }

  lemma UnitFits(order: nat)
    requires order <= 12
    ensures Pow2(order) <= PAGE && PAGE % Pow2(order) == 0
  {
    hide Pow2;
    Pow2Values();
    Pow2Add(order, 12 - order);
    QuotientUnique(PAGE, Pow2(order), Pow2(12 - order), 0);
    if order < 12 {
      R.Pow2Increases(order, 12);
    }
  }

  /** The aligned header fits the page: a page is itself a multiple of 2^order. */
  lemma HeaderFits(header: nat, order: nat)
    requires order <= 12 && header <= PAGE
    ensures Pow2(order) <= PAGE
    ensures header <= AlignUp(header, order) <= PAGE && AlignUp(header, order) % Pow2(order) == 0
  {
    hide AlignUp, Pow2;
    UnitFits(order);
    AlignUpIsLeast(header, order, PAGE);
  }

  lemma PageIsMultiple(page: nat, order: nat)
    requires order <= 12 && page % PAGE == 0
    ensures page % Pow2(order) == 0
  {
    hide Pow2;
    UnitFits(order);
    MultipleSum(0, PAGE, Pow2(order), page / PAGE);
  }

  lemma MultipleDifference(x: nat, y: nat, order: nat)
    requires order <= 12 && y <= x && x % PAGE == 0 && y % Pow2(order) == 0
    ensures (x - y) % Pow2(order) == 0
  {
    hide Pow2;
    var unit := Pow2(order);
    PageIsMultiple(x, order);
    var a, b := x / unit, y / unit;
    assert x == a * unit && y == b * unit;
    assert x - y == (a - b) * unit;
    if a < b {
      MulSpread(a - b, unit);
    } else {
      QuotientUnique(x - y, unit, a - b, 0);
    }
  }

  lemma RemainderIsMultiple(x: nat, d: nat, unit: nat)
    requires d > 0 && unit > 0 && x % unit == 0 && d % unit == 0
    ensures (x % d) % unit == 0
  {
    var a, b, q, r := x / unit, d / unit, x / d, x % d;
    assert x == a * unit && d == b * unit && x == q * d + r;
    MultipleFactors(a, b, q, r, unit);
  }

  lemma MultipleFactors(a: nat, b: nat, q: nat, r: nat, unit: nat)
    requires unit > 0 && a * unit == q * (b * unit) + r
    ensures r % unit == 0
  {
    assert q * (b * unit) == (q * b) * unit;
    var n := a - q * b;
    assert r == n * unit;
    MulSpread(n, unit);
    if n >= 0 {
      QuotientUnique(r, unit, n, 0);
    }
  }

  lemma AtLeastUnit(x: nat, unit: nat)
    requires unit > 0 && x % unit == 0
    ensures x >= unit <==> x != 0
    ensures x / unit > 0 <==> x >= unit
  {
    assert x == (x / unit) * unit;
  }

  lemma ColorFits(padding: nat, unit: nat, color: nat)
    requires unit > 0 && color < padding / unit
    ensures color * unit + unit <= padding
  {
    Spread(color, padding / unit, unit);
    assert padding == (padding / unit) * unit + padding % unit;
  }

  /** find_slab_from_obj: page_align_down on 64-bit addresses. */
  function FindSlab(address: nat): nat {
    And(address, WORD64 - PAGE)
  }

  lemma FindSlabOf(page: nat, address: nat)
    requires page % PAGE == 0 && page <= address < page + PAGE <= WORD64
    ensures FindSlab(address) == page
  {
    hide And, Pow2;
    Pow2Values();
    R.WordIsPower();
    AndRange(address, 12, 64);
    QuotientUnique(address, PAGE, page / PAGE, address - page);
  }

  // ----- the cache

  class Memory {
    /** The word stored at an address. */
    var words: map<nat, nat>
  }

  /** What the slab header is constructed with. */
  datatype Slab = Slab(page: nat, free: nat, objects: nat)

  /** Writing one more link keeps the earlier ones and everything that is not an object. */
  lemma LinkOneMore(before: map<nat, nat>, words: map<nat, nat>, objects: seq<nat>, i: nat)
    requires i < |objects| && Linked(words, objects, i) && SameOutside(before, words, objects)
    requires forall j, k :: 0 <= j < k < |objects| ==> objects[j] != objects[k]
    ensures var after := words[objects[i] := Successor(objects, i)];
      Linked(after, objects, i + 1) && SameOutside(before, after, objects)
  {
    hide Successor;
  }

  /** The loop of slab_create that links the objects; returns the address past the last. */
  method LinkObjects(memory: Memory, first: nat, size: nat, count: nat) returns (ptr: nat)
    requires size > 0
    modifies memory`words
    ensures ptr == At(first, size, count)
    ensures Linked(memory.words, Objects(first, size, count), count)
    ensures SameOutside(old(memory.words), memory.words, Objects(first, size, count))
  {
    hide At;
    ptr := first;
    ghost var objects := Objects(first, size, count);
    ObjectsApart(first, size, count);
    AtOrder(first, size, 0, 1);
    var i := 0;
    while i < count
      invariant i <= count && ptr == At(first, size, i)
      invariant Linked(memory.words, objects, i)
      invariant SameOutside(old(memory.words), memory.words, objects)
    {
      var obj := ptr;
      AtOrder(first, size, i, i + 1);
      LinkOneMore(old(memory.words), memory.words, objects, i);
      ptr := ptr + size;
      if count == i + 1 {
        memory.words := memory.words[obj := 0];
      } else {
        memory.words := memory.words[obj := ptr];
      }
      i := i + 1;
    }
  }

  class SlabCache {
    const header: nat   // size of struct slab
    const order: nat
    const size: nat
    const count: nat
    var lastColor: nat

    /** What the callers of the slab code keep to: objects fit a page and their size is a
        multiple of 2^order. */
    ghost predicate Sized() {
      && order <= 12 && 0 < size <= PAGE && size % Pow2(order) == 0 && header <= PAGE
      && Pow2(order) <= PAGE && AlignUp(header, order) <= PAGE
      && count == Quotient(PAGE - AlignUp(header, order), size)
    }

    constructor (header: nat, size: nat, order: nat)
      requires order <= 12 && 0 < size <= PAGE && size % Pow2(order) == 0 && header <= PAGE
      ensures Sized() && this.header == header && this.size == size && this.order == order
      ensures lastColor == 0
    {
      hide AlignUp, Pow2;
      UnitFits(order);
      HeaderFits(header, order);
      AlignUpFixed(size, order);
      this.header, this.size, this.order := header, size, order;
      count := ObjectsPerSlab(header, size, order);
      lastColor := 0;
    }

    function Free(): nat
      requires Sized()
    {
      PAGE - AlignUp(header, order)
    }

    function Padding(): nat
      requires Sized()
    {
      CountFits(Free(), size);
      Free() - count * size
    }

    function MaxColor(): nat
      requires Sized()
    {
      Quotient(Padding(), Pow2(order))
    }

    /** The first object of a slab on a page. */
    function First(page: nat, color: nat): nat
      requires Sized()
    {
      page + AlignUp(header, order) + color * Pow2(order)
    }

    /** Colour 0 starts right behind the aligned header, and every colour 2^order behind the one
        before, so that different colours start at different addresses. */
    lemma ColorsShift(page: nat, color: nat, other: nat)
      requires Sized()
      ensures First(page, 0) == page + AlignUp(header, order)
      ensures First(page, color + 1) == First(page, color) + Pow2(order)
      ensures color < other ==> First(page, color) + Pow2(order) <= First(page, other)
    {
      hide AlignUp, Pow2;
      assert (color + 1) * Pow2(order) == color * Pow2(order) + Pow2(order);
      if color < other {
        Spread(color, other, Pow2(order));
      }
    }

    /** The colours are those for which the objects, and one unit, still fit the page. */
    lemma ColorFitsExactly(page: nat, color: nat)
      requires Sized()
      ensures color < MaxColor() <==> At(First(page, color), size, count) + Pow2(order) <= page + PAGE
    {
      hide AlignUp, Pow2;
      var unit := Pow2(order);
      CountFits(Padding(), unit);
      if color < MaxColor() {
        ColorFits(Padding(), unit, color);
      } else {
        assert color * unit >= MaxColor() * unit by {
          if color > MaxColor() {
            Spread(MaxColor(), color, unit);
          }
        }
      }
    }

    /** There is a colour at all exactly when the objects do not fill the page. */
    lemma ColorsExist()
      requires Sized()
      ensures MaxColor() > 0 <==> Padding() >= Pow2(order)
      ensures MaxColor() > 0 <==> Free() % size != 0
    {
      hide AlignUp, Pow2;
      var unit := Pow2(order);
      HeaderFits(header, order);
      CountFits(Free(), size);
      MultipleDifference(PAGE, AlignUp(header, order), order);
      RemainderIsMultiple(Free(), size, unit);
      AtLeastUnit(Padding(), unit);
    }

    /** Objects of the smallest size leave no room for a colour: creating a slab for them
        divides by zero. */
    lemma SmallestHasNoColor()
      requires Sized() && size == Pow2(order)
      ensures MaxColor() == 0
    {
      hide AlignUp, Pow2;
      HeaderFits(header, order);
      MultipleDifference(PAGE, AlignUp(header, order), order);
      ColorsExist();
    }

    lemma FirstFits(page: nat, color: nat)
      requires Sized() && color < MaxColor() && page % PAGE == 0
      ensures First(page, color) % Pow2(order) == 0
      ensures page + header <= First(page, color)
      ensures At(First(page, color), size, count) + Pow2(order) <= page + PAGE
    {
      hide AlignUp, Pow2;
      var unit := Pow2(order);
      HeaderFits(header, order);
      PageIsMultiple(page, order);
      MultipleSum(page, AlignUp(header, order), unit, 1);
      assert 1 * AlignUp(header, order) == AlignUp(header, order);
      assert unit % unit == 0;
      MultipleSum(page + AlignUp(header, order), unit, unit, color);
      ColorFits(Padding(), unit, color);
    }

    /** For every colour the objects are aligned, apart, behind the header, and on the page,
        and every address inside one leads back to the page. */
    lemma LayoutCorrect(page: nat, color: nat)
      requires Sized() && color < MaxColor()
      requires page % PAGE == 0 && page + PAGE <= WORD64
      ensures var objects := Objects(First(page, color), size, count);
        && Aligned(objects, Pow2(order)) && Disjoint(objects, size)
        && Inside(objects, size, page + header, page + PAGE)
        && forall i, x :: 0 <= i < count && objects[i] <= x < objects[i] + size ==> FindSlab(x) == page
    {
      hide AlignUp, Pow2, FindSlab, At, Aligned, Disjoint, MaxColor;
      var unit, first := Pow2(order), First(page, color);
      HeaderFits(header, order);
      PageIsMultiple(page, order);
      FirstFits(page, color);
      ObjectsLaidOut(first, size, count, unit);
      var objects := Objects(first, size, count);
      assert Inside(objects, size, page + header, page + PAGE);
      forall i, x | 0 <= i < count && objects[i] <= x < objects[i] + size
        ensures FindSlab(x) == page
      {
        FindSlabOf(page, x);
      }
    }

    /** slab_create: with no page there is no slab; otherwise the next colour is taken, the
        chain through all objects is written, and nothing else.  The header gets the address
        past the last object both as its free pointer and as its object pointer. */
    method Create(page: Option<nat>, memory: Memory) returns (slab: Option<Slab>)
      requires Sized()
      requires page.Some? ==> MaxColor() > 0
      modifies this`lastColor, memory`words
      ensures page.None? ==> slab.None? && lastColor == old(lastColor) && memory.words == old(memory.words)
      ensures page.Some? ==>
                && lastColor == NextColor(old(lastColor), MaxColor())
                && var first := First(page.value, lastColor);
                   var objects := Objects(first, size, count);
                && slab == Some(Slab(page.value, At(first, size, count), At(first, size, count)))
                && (count > 0 ==> Chain(memory.words, first, objects))
                && SameOutside(old(memory.words), memory.words, objects)
    {
      hide AlignUp, Pow2, Chain, Linked, SameOutside;
      if page.None? {
        return None;
      }
      var color := NextColor(lastColor, MaxColor());
      lastColor := color;
      var first := First(page.value, color);
      var ptr := LinkObjects(memory, first, size, count);
      if count > 0 {
        AtOrder(first, size, 0, 1);
        ChainOfLinks(memory.words, Objects(first, size, count));
      }
      slab := Some(Slab(page.value, ptr, ptr));
    }

    /** The free pointer of the header is none of the objects, so whatever memory holds it
        is not the head of the chain. */
    lemma FreePointerMissesChain(page: nat, color: nat, words: map<nat, nat>)
      requires Sized() && count > 0
      ensures var first := First(page, color);
        && At(first, size, count) !in Objects(first, size, count)
        && !Chain(words, At(first, size, count), Objects(first, size, count))
    {
      hide AlignUp, Pow2, At;
      ObjectsApart(First(page, color), size, count);
      assert Objects(First(page, color), size, count)[0] != At(First(page, color), size, count);
    }
  }
}
