/** Word-at-a-time string length, search in strings, and overlapping copies
    (lib/ebl/string.cc).  An address is an index into memory; a string ends at a zero byte. */
module Strings {
  import opened Wrappers

  // ----- words of eight bytes

  /** The eight bytes at an address as one little-endian word. */
  function LoadWord(mem: seq<bv8>, a: nat): bv64
    requires a + 8 <= |mem|
  {
    Combine(mem[a], mem[a + 1], mem[a + 2], mem[a + 3], mem[a + 4], mem[a + 5], mem[a + 6], mem[a + 7])
  }

  function Combine(b0: bv8, b1: bv8, b2: bv8, b3: bv8, b4: bv8, b5: bv8, b6: bv8, b7: bv8): bv64 {
    (b0 as bv64) | (b1 as bv64 << 8) | (b2 as bv64 << 16) | (b3 as bv64 << 24)
    | (b4 as bv64 << 32) | (b5 as bv64 << 40) | (b6 as bv64 << 48) | (b7 as bv64 << 56)
  }

  /** The constants as the code builds them from their 32-bit halves. */
  function Magic(half: bv64): bv64 {
    ((half << 16) << 16) | half
  }

  predicate Suspicious(word: bv64) {
    (word - Magic(0x0101_0101)) & !word & Magic(0x8080_8080) != 0
  }

  /** The test on a word tells exactly whether one of its bytes is zero. */
  lemma SuspiciousExactly(b0: bv8, b1: bv8, b2: bv8, b3: bv8, b4: bv8, b5: bv8, b6: bv8, b7: bv8)
    ensures Suspicious(Combine(b0, b1, b2, b3, b4, b5, b6, b7))
            <==> b0 == 0 || b1 == 0 || b2 == 0 || b3 == 0 || b4 == 0 || b5 == 0 || b6 == 0 || b7 == 0
  {
  }

  lemma WordTest(mem: seq<bv8>, a: nat)
    requires a + 8 <= |mem|
    ensures Suspicious(LoadWord(mem, a)) <==> exists k :: a <= k < a + 8 && mem[k] == 0
  {
    SuspiciousExactly(mem[a], mem[a + 1], mem[a + 2], mem[a + 3], mem[a + 4], mem[a + 5], mem[a + 6], mem[a + 7]);
  }

  // ----- strings

  /** The string at s ends at e. */
  predicate EndsAt(mem: seq<bv8>, s: nat, e: nat) {
    s <= e < |mem| && mem[e] == 0 && forall k :: s <= k < e ==> mem[k] != 0
  }

  /** strlen: whole aligned words are read, so memory is a number of words. */
  method Strlen(mem: seq<bv8>, str: nat, ghost end: nat) returns (len: nat)
    requires |mem| % 8 == 0 && EndsAt(mem, str, end)
    ensures EndsAt(mem, str, str + len)
  {
    hide Suspicious, LoadWord;
    var ptr := str;
    while ptr % 8 != 0
      invariant str <= ptr <= end
      decreases end - ptr
    {
      if mem[ptr] == 0 {
        return ptr - str;
      }
      ptr := ptr + 1;
    }
    while true
      invariant str <= ptr <= end && ptr % 8 == 0
      decreases end - ptr
    {
      var longword := LoadWord(mem, ptr);
      WordTest(mem, ptr);
      if Suspicious(longword) {
        if mem[ptr] == 0 { return ptr - str; }
        if mem[ptr + 1] == 0 { return ptr - str + 1; }
        if mem[ptr + 2] == 0 { return ptr - str + 2; }
        if mem[ptr + 3] == 0 { return ptr - str + 3; }
        if mem[ptr + 4] == 0 { return ptr - str + 4; }
        if mem[ptr + 5] == 0 { return ptr - str + 5; }
        if mem[ptr + 6] == 0 { return ptr - str + 6; }
        if mem[ptr + 7] == 0 { return ptr - str + 7; }
      }
      ptr := ptr + 8;
    }
  }

  /** strchr: the first place of c in the string, its end included. */
  method Strchr(mem: seq<bv8>, s: nat, c: bv8, ghost end: nat) returns (place: Option<nat>)
    requires EndsAt(mem, s, end)
    ensures place.Some? ==>
              s <= place.value <= end && mem[place.value] == c && forall k :: s <= k < place.value ==> mem[k] != c
    ensures place.None? ==> forall k :: s <= k <= end ==> mem[k] != c
  {
    var p := s;
    while mem[p] != c
      invariant s <= p <= end
      invariant forall k :: s <= k < p ==> mem[k] != c
      decreases end - p
    {
      if mem[p] == 0 {
        return None;
      }
      p := p + 1;
    }
    return Some(p);
  }

  /** The n bytes at p and q agree, or agree up to a zero byte. */
  predicate SamePrefix(mem: seq<bv8>, p: nat, q: nat, n: nat)
    decreases n
  {
    n == 0 ||
    (p < |mem| && q < |mem| && mem[p] == mem[q] && (mem[p] == 0 || SamePrefix(mem, p + 1, q + 1, n - 1)))
  }

  /** strncmp: zero exactly for the same prefix, else the difference of the first bytes that
      differ, which are the ones at the given place. */
  method Strncmp(mem: seq<bv8>, s1: nat, s2: nat, n: nat, ghost end1: nat, ghost end2: nat)
      returns (diff: int, ghost at: nat)
    requires EndsAt(mem, s1, end1) && EndsAt(mem, s2, end2)
    ensures diff == 0 <==> SamePrefix(mem, s1, s2, n)
    ensures diff != 0 ==>
              && at < n && s1 + at <= end1 && s2 + at <= end2
              && diff == mem[s1 + at] as int - mem[s2 + at] as int
              && mem[s1..s1 + at] == mem[s2..s2 + at]
  {
    hide SamePrefix;
    var i := 0;
    while i < n
      invariant i <= n && (i < n ==> s1 + i <= end1 && s2 + i <= end2) && s1 + i <= |mem| && s2 + i <= |mem|
      invariant mem[s1..s1 + i] == mem[s2..s2 + i]
      invariant SamePrefix(mem, s1, s2, n) <==> SamePrefix(mem, s1 + i, s2 + i, n - i)
    {
      var u1, u2 := mem[s1 + i], mem[s2 + i];
      PrefixStep(mem, s1 + i, s2 + i, n - i);
      if u1 != u2 {
        return u1 as int - u2 as int, i;
      }
      if u1 == 0 {
        return 0, i;
      }
      OneMore(mem, s1, s1 + i);
      OneMore(mem, s2, s2 + i);
      i := i + 1;
    }
    EmptyPrefix(mem, s1 + i, s2 + i);
    return 0, i;
  }

  lemma PrefixStep(mem: seq<bv8>, p: nat, q: nat, n: nat)
    requires n > 0 && p < |mem| && q < |mem|
    ensures SamePrefix(mem, p, q, n)
            <==> mem[p] == mem[q] && (mem[p] == 0 || SamePrefix(mem, p + 1, q + 1, n - 1))
  {
  }

  lemma OneMore(mem: seq<bv8>, i: nat, j: nat)
    requires i <= j < |mem|
    ensures mem[i..j + 1] == mem[i..j] + [mem[j]]
  {
  }

  /** The string at s2, without its end, lies at p. */
  predicate OccursAt(mem: seq<bv8>, p: nat, s2: nat, end2: nat) {
    s2 <= end2 <= |mem| && p + (end2 - s2) <= |mem| && mem[p..p + (end2 - s2)] == mem[s2..end2]
  }

  lemma OccursStep(mem: seq<bv8>, p: nat, s2: nat, end2: nat)
    requires s2 < end2 <= |mem|
    ensures OccursAt(mem, p, s2, end2) <==> p < |mem| && mem[p] == mem[s2] && OccursAt(mem, p + 1, s2 + 1, end2)
  {
    var n := end2 - s2;
    if p + n <= |mem| {
      assert mem[p..p + n] == [mem[p]] + mem[p + 1..p + n];
      assert mem[s2..end2] == [mem[s2]] + mem[s2 + 1..end2];
    }
  }

  lemma {:induction false} OccursIsPrefix(mem: seq<bv8>, p: nat, s2: nat, end2: nat)
    requires EndsAt(mem, s2, end2) && p <= |mem|
    ensures SamePrefix(mem, p, s2, end2 - s2) <==> OccursAt(mem, p, s2, end2)
    decreases end2 - s2
  {
    if s2 < end2 {
      OccursStep(mem, p, s2, end2);
      if p < |mem| {
        OccursIsPrefix(mem, p + 1, s2 + 1, end2);
      }
    } else {
      assert mem[p..p] == mem[s2..s2];
    }
  }

  /** strstr: the first place where the second string occurs in the first.  The empty string is
      found at the end of the first one. */
  method Strstr(mem: seq<bv8>, s1: nat, s2: nat, ghost end1: nat, ghost end2: nat) returns (place: Option<nat>)
    requires |mem| % 8 == 0 && EndsAt(mem, s1, end1) && EndsAt(mem, s2, end2)
    ensures s2 == end2 ==> place == Some(end1)
    ensures s2 != end2 && place.Some? ==>
              && s1 <= place.value < end1 && OccursAt(mem, place.value, s2, end2)
              && forall p: nat :: s1 <= p < place.value ==> !OccursAt(mem, p, s2, end2)
    ensures s2 != end2 && place.None? ==> forall p: nat :: s1 <= p <= end1 ==> !OccursAt(mem, p, s2, end2)
  {
    var len := Strlen(mem, s2, end2);
    assert s2 + len == end2;
    hide OccursAt, SamePrefix;
    var p := s1;
    while true
      invariant s1 <= p <= end1
      invariant s2 == end2 ==> p == s1
      invariant s2 != end2 ==> forall k: nat :: s1 <= k < p ==> !OccursAt(mem, k, s2, end2)
      decreases end1 - p
    {
      var q := Strchr(mem, p, mem[s2], end1);
      if q.None? {
        FirstByteMissing(mem, p, end1 + 1, s2, end2);
        return None;
      }
      FirstByteMissing(mem, p, q.value, s2, end2);
      var diff, at := Strncmp(mem, q.value, s2, len, end1, end2);
      OccursIsPrefix(mem, q.value, s2, end2);
      if diff == 0 {
        return q;
      }
      EmptyPrefix(mem, q.value, s2);
      p := q.value + 1;
    }
  }

  lemma EmptyPrefix(mem: seq<bv8>, p: nat, q: nat)
    ensures SamePrefix(mem, p, q, 0)
  {
  }

  /** A string does not occur where its first byte does not. */
  lemma FirstByteMissing(mem: seq<bv8>, p: nat, q: nat, s2: nat, end2: nat)
    requires p <= q <= |mem| && s2 <= end2 < |mem|
    requires forall k :: p <= k < q ==> mem[k] != mem[s2]
    ensures s2 < end2 ==> forall k: nat :: p <= k < q ==> !OccursAt(mem, k, s2, end2)
  {
    forall k: nat | p <= k < q && s2 < end2
      ensures !OccursAt(mem, k, s2, end2)
    {
      OccursStep(mem, k, s2, end2);
    }
  }

  // ----- copies

  /** memmove: the destination gets the old bytes of the source, however the two overlap. */
  method Memmove(mem: array<bv8>, dest: nat, src: nat, len: nat)
    requires dest + len <= mem.Length && src + len <= mem.Length
    modifies mem
    ensures forall a :: dest <= a < dest + len ==> mem[a] == old(mem[src + (a - dest)])
    ensures forall a :: 0 <= a < mem.Length && !(dest <= a < dest + len) ==> mem[a] == old(mem[a])
  {
    if dest < src {
      var i := 0;
      while i < len
        invariant i <= len
        invariant forall a :: dest <= a < dest + i ==> mem[a] == old(mem[src + (a - dest)])
        invariant forall a :: 0 <= a < mem.Length && !(dest <= a < dest + i) ==> mem[a] == old(mem[a])
      {
        mem[dest + i] := mem[src + i];
        i := i + 1;
      }
    } else {
      var i := len;
      while i > 0
        invariant 0 <= i <= len
        invariant forall a :: dest + i <= a < dest + len ==> mem[a] == old(mem[src + (a - dest)])
        invariant forall a :: 0 <= a < mem.Length && !(dest + i <= a < dest + len) ==> mem[a] == old(mem[a])
      {
        i := i - 1;
        mem[dest + i] := mem[src + i];
      }
    }
  }
}
