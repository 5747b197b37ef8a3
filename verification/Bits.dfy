/** Bitwise operators on natural numbers, as the C++ code applies them to unsigned
    words.  A word of width w is a natural number below Pow2(w); a left shift is a
    multiplication and a right shift a division by a power of two. */
module Bits {

  function Pow2(k: nat): (r: nat)
    ensures r >= 1
  {
    if k == 0 then 1 else 2 * Pow2(k - 1)
  }

  lemma Pow2Add(a: nat, b: nat)
    ensures Pow2(a + b) == Pow2(a) * Pow2(b)
  {
    if a > 0 {
      Pow2Add(a - 1, b);
    }
  }

  lemma Pow2Values()
    ensures Pow2(0) == 1 && Pow2(9) == 0x200 && Pow2(11) == 0x800 && Pow2(12) == 0x1000
    ensures Pow2(21) == 0x20_0000 && Pow2(30) == 0x4000_0000 && Pow2(32) == 0x1_0000_0000
    ensures Pow2(39) == 0x80_0000_0000 && Pow2(52) == 0x10_0000_0000_0000
  {
    assert Pow2(3) == 8;
    Pow2Add(3, 3);
    Pow2Add(6, 3);
    Pow2Add(9, 12);
    Pow2Add(9, 3);
    Pow2Add(21, 9);
    Pow2Add(30, 9);
    Pow2Add(39, 12);
  }

  function And(a: nat, b: nat): nat {
    if a == 0 || b == 0 then 0
    else (if a % 2 == 1 && b % 2 == 1 then 1 else 0) + 2 * And(a / 2, b / 2)
  }

  function Or(a: nat, b: nat): nat {
    if a == 0 then b
    else if b == 0 then a
    else (if a % 2 == 1 || b % 2 == 1 then 1 else 0) + 2 * Or(a / 2, b / 2)
  }

  lemma Spread(i: nat, j: nat, size: nat)
    requires i < j
    ensures i * size + size <= j * size
  {
    assert j * size == i * size + (j - i) * size;
    MulSpread(j - i, size);
  }

  /** Splitting off the lowest bit commutes with division and remainder. */
  lemma HalveDivMod(x: nat, p: nat)
    requires p > 0
    ensures x / (2 * p) == (x / 2) / p
    ensures x % (2 * p) == 2 * ((x / 2) % p) + x % 2
  {
    var h := x / 2;
    var q, r := h / p, h % p;
    assert h == q * p + r;
    assert x == q * (2 * p) + (2 * r + x % 2);
    QuotientUnique(x, 2 * p, q, 2 * r + x % 2);
  }

  lemma QuotientUnique(x: nat, d: nat, q: nat, r: nat)
    requires d > 0 && r < d && x == q * d + r
    ensures x / d == q && x % d == r
  {
    var n := x / d - q;
    assert n * d == r - x % d;
    if n >= 1 {
      MulSpread(n, d);
    } else if n <= -1 {
      MulSpread(n, d);
    }
  }

  lemma NextRemainder(n: nat, d: nat)
    requires d > 0
    ensures (n + 1) % d == if n % d + 1 < d then n % d + 1 else 0
  {
    var q := n / d;
    assert n + 1 == q * d + (n % d + 1);
    if n % d + 1 < d {
      QuotientUnique(n + 1, d, q, n % d + 1);
    } else {
      assert n + 1 == (q + 1) * d;
      QuotientUnique(n + 1, d, q + 1, 0);
    }
  }

  lemma MulSpread(n: int, d: nat)
    ensures n >= 1 ==> n * d >= d
    ensures n <= -1 ==> n * d <= -(d as int)
  {
    assert n * d == (n - 1) * d + d;
    assert n * d == (n + 1) * d - d;
  }

  lemma AndHalves(a: nat, b: nat)
    ensures And(a, b) / 2 == And(a / 2, b / 2)
    ensures And(a, b) % 2 == (if a % 2 == 1 && b % 2 == 1 then 1 else 0)
  {
  }

  /** Doubling a mask, with or without its lowest bit, doubles the masked half. */
  lemma MaskStep(x: nat, b: nat, high: nat, low: nat)
    requires And(x / 2, b) == high - low
    ensures And(x, 2 * b) == (2 * high + x % 2) - (2 * low + x % 2)
    ensures And(x, 2 * b + 1) == 2 * (high - low) + x % 2
  {
    AndHalves(x, 2 * b);
    AndHalves(x, 2 * b + 1);
    hide And;
  }

  /** Masking with bits m..n-1 keeps exactly those bits. */
  lemma {:induction false} AndRange(x: nat, m: nat, n: nat)
    requires m <= n
    ensures Pow2(m) <= Pow2(n)
    ensures And(x, Pow2(n) - Pow2(m)) == x % Pow2(n) - x % Pow2(m)
  {
    hide And;
    if m > 0 {
      AndRange(x / 2, m - 1, n - 1);
      MaskStep(x, Pow2(n - 1) - Pow2(m - 1), (x / 2) % Pow2(n - 1), (x / 2) % Pow2(m - 1));
      HalveDivMod(x, Pow2(n - 1));
      HalveDivMod(x, Pow2(m - 1));
    } else if n > 0 {
      AndRange(x / 2, 0, n - 1);
      MaskStep(x, Pow2(n - 1) - 1, (x / 2) % Pow2(n - 1), 0);
      HalveDivMod(x, Pow2(n - 1));
    } else {
      AndZero(x);
    }
  }

  /** Bit k of a word. */
  predicate BitAt(x: nat, k: nat) {
    if k == 0 then x % 2 == 1 else BitAt(x / 2, k - 1)
  }

  /** The operators work bit by bit. */
  lemma {:induction false} BitOfAnd(a: nat, b: nat, k: nat)
    ensures BitAt(And(a, b), k) <==> BitAt(a, k) && BitAt(b, k)
  {
    AndHalves(a, b);
    if k > 0 {
      BitOfAnd(a / 2, b / 2, k - 1);
    }
  }

  lemma {:induction false} BitOfOr(a: nat, b: nat, k: nat)
    ensures BitAt(Or(a, b), k) <==> BitAt(a, k) || BitAt(b, k)
  {
    OrHalves(a, b);
    if k > 0 {
      BitOfOr(a / 2, b / 2, k - 1);
    }
  }

  lemma AndZero(x: nat)
    ensures And(x, 0) == 0
  {
  }

  /** Or of a word with clear low bits and a word that has only those low bits is the sum. */
  lemma {:induction false} OrAdd(a: nat, b: nat, k: nat)
    requires b < Pow2(k) && a % Pow2(k) == 0
    ensures Or(a, b) == a + b
  {
    if k > 0 {
      HalveDivMod(a, Pow2(k - 1));
      OrAdd(a / 2, b / 2, k - 1);
    }
  }

  lemma OrHalves(a: nat, b: nat)
    ensures Or(a, b) / 2 == Or(a / 2, b / 2)
    ensures Or(a, b) % 2 == (if a % 2 == 1 || b % 2 == 1 then 1 else 0)
  {
  }

  lemma {:induction false} AndOverOr(a: nat, b: nat, c: nat)
    ensures And(Or(a, b), c) == Or(And(a, c), And(b, c))
    decreases a + b
  {
    if a != 0 && b != 0 {
      hide And, Or;
      AndOverOr(a / 2, b / 2, c / 2);
      OrHalves(a, b);
      AndHalves(Or(a, b), c);
      AndHalves(a, c);
      AndHalves(b, c);
      OrHalves(And(a, c), And(b, c));
    }
  }

  lemma {:induction false} AndAssoc(a: nat, b: nat, c: nat)
    ensures And(And(a, b), c) == And(a, And(b, c))
  {
    if a != 0 {
      AndAssoc(a / 2, b / 2, c / 2);
    }
  }

  lemma {:induction false} OrZero(a: nat, b: nat)
    ensures Or(a, b) == 0 <==> a == 0 && b == 0
  {
    if a != 0 && b != 0 {
      OrZero(a / 2, b / 2);
    }
  }

  lemma {:induction false} OrBound(a: nat, b: nat, k: nat)
    requires a < Pow2(k) && b < Pow2(k)
    ensures a <= Or(a, b) < Pow2(k)
  {
    if k > 0 {
      OrBound(a / 2, b / 2, k - 1);
    }
  }
}
