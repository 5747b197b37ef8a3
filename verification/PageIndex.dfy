/** Virtual addresses of four-level paging: canonical form, the four table indices and
    the address built from them (arch/x86-64/types.h). */
module PageIndex {
  import opened Bits

  const WORD := 0x1_0000_0000_0000_0000
  const HALF := 0x8000_0000_0000_0000

  /** Sign-extends bit 47: (int64_t)addr << 16 >> 16. */
  function Canonicalize(addr: nat): nat {
    var shifted := addr * 0x1_0000 % WORD;
    var signed := if shifted < HALF then shifted else shifted - WORD;
    (signed / 0x1_0000) % WORD
  }

  predicate Canonical(addr: nat) {
    addr < 0x8000_0000_0000 || WORD - 0x8000_0000_0000 <= addr < WORD
  }

  function Pml4Index(addr: nat): nat { And(addr / 0x80_0000_0000, 0x1FF) }
  function PdptIndex(addr: nat): nat { And(addr / 0x4000_0000, 0x1FF) }
  function PdIndex(addr: nat): nat { And(addr / 0x20_0000, 0x1FF) }
  function PtIndex(addr: nat): nat { And(addr / 0x1000, 0x1FF) }

  function VirtFromIndex(pml4e: nat, pdpte: nat, pde: nat, pte: nat): nat {
    Canonicalize(IndexBits(And(pml4e, 0x1FF), And(pdpte, 0x1FF), And(pde, 0x1FF), And(pte, 0x1FF)))
  }

  function IndexBits(a: nat, b: nat, c: nat, d: nat): nat {
    Or(Or(Or(a * 0x80_0000_0000, b * 0x4000_0000), c * 0x20_0000), d * 0x1000)
  }

  /** The four indices of an address, from the root table down. */
  function Indices(addr: nat): seq<nat> {
    [Pml4Index(addr), PdptIndex(addr), PdIndex(addr), PtIndex(addr)]
  }

  lemma And9(x: nat)
    ensures And(x, 0x1FF) == x % 512
  {
    AndRange(x, 0, 9);
    assert Pow2(9) == 512 && Pow2(0) == 1;
  }

  lemma IndicesAreArithmetic(addr: nat)
    ensures Indices(addr) == [addr / 0x80_0000_0000 % 512, addr / 0x4000_0000 % 512,
                              addr / 0x20_0000 % 512, addr / 0x1000 % 512]
  {
    And9(addr / 0x80_0000_0000);
    And9(addr / 0x4000_0000);
    And9(addr / 0x20_0000);
    And9(addr / 0x1000);
  }

  /** The canonical address that agrees with addr on the low 48 bits, and the only one. */
  lemma CanonicalizeIsSignExtension(addr: nat, c: nat)
    ensures Canonical(Canonicalize(addr))
    ensures Canonicalize(addr) % 0x1_0000_0000_0000 == addr % 0x1_0000_0000_0000
    ensures Canonical(c) && c % 0x1_0000_0000_0000 == addr % 0x1_0000_0000_0000
            ==> c == Canonicalize(addr)
  {
    var low := addr % 0x1_0000_0000_0000;
    assert addr * 0x1_0000 % WORD == low * 0x1_0000;
  }

  lemma Field(v: nat, unit: nat, high: nat, f: nat, low: nat)
    requires v == (high * 512 + f) * unit + low && low < unit && f < 512
    ensures v / unit % 512 == f
  {
    QuotientUnique(v, unit, high * 512 + f, low);
    QuotientUnique(high * 512 + f, 512, high, f);
  }

  /** The address whose 9-bit fields are a, b, c, d between bits 12 and 47. */
  function Compose(high: nat, a: nat, b: nat, c: nat, d: nat, offset: nat): nat {
    high * 0x1_0000_0000_0000 + a * 0x80_0000_0000 + b * 0x4000_0000 + c * 0x20_0000 + d * 0x1000 + offset
  }

  lemma IndicesOfComposed(high: nat, a: nat, b: nat, c: nat, d: nat, offset: nat)
    requires a < 512 && b < 512 && c < 512 && d < 512 && offset < 0x1000
    ensures Indices(Compose(high, a, b, c, d, offset)) == [a, b, c, d]
  {
    var v := Compose(high, a, b, c, d, offset);
    IndicesAreArithmetic(v);
    Field(v, 0x80_0000_0000, high, a, b * 0x4000_0000 + c * 0x20_0000 + d * 0x1000 + offset);
    Field(v, 0x4000_0000, high * 512 + a, b, c * 0x20_0000 + d * 0x1000 + offset);
    Field(v, 0x20_0000, (high * 512 + a) * 512 + b, c, d * 0x1000 + offset);
    Field(v, 0x1000, ((high * 512 + a) * 512 + b) * 512 + c, d, offset);
  }

  lemma Decompose(v: nat) returns (high: nat, a: nat, b: nat, c: nat, d: nat, offset: nat)
    ensures a < 512 && b < 512 && c < 512 && d < 512 && offset < 0x1000
    ensures v == Compose(high, a, b, c, d, offset)
  {
    var p0, p1, p2, p3 := v / 0x1000, v / 0x1000 / 512, v / 0x1000 / 512 / 512, v / 0x1000 / 512 / 512 / 512;
    high, a, b, c, d, offset := p3 / 512, p3 % 512, p2 % 512, p1 % 512, p0 % 512, v % 0x1000;
  }

  lemma OrAddAt(q: nat, b: nat, k: nat)
    requires b < Pow2(k)
    ensures Or(q * Pow2(k), b) == q * Pow2(k) + b
  {
    QuotientUnique(q * Pow2(k), Pow2(k), q, 0);
    OrAdd(q * Pow2(k), b, k);
  }

  lemma IndexBitsValue(a: nat, b: nat, c: nat, d: nat)
    requires a < 512 && b < 512 && c < 512 && d < 512
    ensures IndexBits(a, b, c, d) == Compose(0, a, b, c, d, 0)
  {
    hide Or, Pow2;
    Pow2Values();
    OrAddAt(a, b * 0x4000_0000, 39);
    OrAddAt(a * 512 + b, c * 0x20_0000, 30);
    OrAddAt((a * 512 + b) * 512 + c, d * 0x1000, 21);
  }

  lemma CanonicalizeComposed(a: nat, b: nat, c: nat, d: nat)
    requires a < 512 && b < 512 && c < 512 && d < 512
    ensures Canonicalize(Compose(0, a, b, c, d, 0))
         == Compose(if a < 256 then 0 else 0xFFFF, a, b, c, d, 0)
  {
    var low := Compose(0, a, b, c, d, 0);
    assert low < 0x1_0000_0000_0000;
    assert low < 0x8000_0000_0000 <==> a < 256;
    var c' := if a < 256 then low else 0xFFFF * 0x1_0000_0000_0000 + low;
    assert c' % 0x1_0000_0000_0000 == low % 0x1_0000_0000_0000;
    CanonicalizeIsSignExtension(low, c');
  }

  lemma SmallIndex(x: nat)
    requires x < 512
    ensures And(x, 0x1FF) == x
  {
    hide And;
    And9(x);
  }

  lemma VirtFromSmallIndex(a: nat, b: nat, c: nat, d: nat)
    requires a < 512 && b < 512 && c < 512 && d < 512
    ensures VirtFromIndex(a, b, c, d) == Canonicalize(IndexBits(a, b, c, d))
  {
    SmallIndex(a);
    SmallIndex(b);
    SmallIndex(c);
    SmallIndex(d);
  }

  lemma VirtFromIndexValue(a: nat, b: nat, c: nat, d: nat)
    requires a < 512 && b < 512 && c < 512 && d < 512
    ensures VirtFromIndex(a, b, c, d) == Compose(if a < 256 then 0 else 0xFFFF, a, b, c, d, 0)
  {
    VirtFromSmallIndex(a, b, c, d);
    IndexBitsValue(a, b, c, d);
    CanonicalizeComposed(a, b, c, d);
  }

  lemma ComposedIsCanonical(high: nat, a: nat, b: nat, c: nat, d: nat, offset: nat)
    requires high < 0x1_0000 && a < 512 && b < 512 && c < 512 && d < 512 && offset < 0x1000
    ensures Canonical(Compose(high, a, b, c, d, offset)) <==> high == (if a < 256 then 0 else 0xFFFF)
    ensures Compose(high, a, b, c, d, offset) % 0x1000 == offset
  {
    var low := Compose(0, a, b, c, d, offset);
    assert low < 0x1_0000_0000_0000;
    assert low < 0x8000_0000_0000 <==> a < 256;
    var q := high * 0x10_0000_0000 + a * 0x800_0000 + b * 0x4_0000 + c * 0x200 + d;
    assert Compose(high, a, b, c, d, offset) == q * 0x1000 + offset;
  }

  /** Index, address, index: the four indices come back. */
  lemma IndicesOfVirt(a: nat, b: nat, c: nat, d: nat)
    requires a < 512 && b < 512 && c < 512 && d < 512
    ensures Indices(VirtFromIndex(a, b, c, d)) == [a, b, c, d]
    ensures Canonical(VirtFromIndex(a, b, c, d)) && VirtFromIndex(a, b, c, d) % 0x1000 == 0
  {
    var high := if a < 256 then 0 else 0xFFFF;
    VirtFromIndexValue(a, b, c, d);
    ComposedIsCanonical(high, a, b, c, d, 0);
    IndicesOfComposed(high, a, b, c, d, 0);
  }

  /** Address, index, address: exactly the canonical page addresses come back. */
  lemma VirtOfIndices(v: nat)
    requires v < WORD
    ensures VirtFromIndex(Pml4Index(v), PdptIndex(v), PdIndex(v), PtIndex(v)) == v
            <==> Canonical(v) && v % 0x1000 == 0
  {
    var high, a, b, c, d, offset := Decompose(v);
    IndicesOfComposed(high, a, b, c, d, offset);
    assert Indices(v)[0] == a && Indices(v)[1] == b && Indices(v)[2] == c && Indices(v)[3] == d;
    ComposedIsCanonical(high, a, b, c, d, offset);
    VirtFromIndexValue(a, b, c, d);
  }
}
