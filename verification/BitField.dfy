/** Fields of an 8-bit word (lib/ebl/bit.h) and the flags of a region
    (core/include/core/vmregion.h). */
module BitField {

  /** A field of the given number of bits from the given bit up. */
  datatype Field = Field(index: bv8, bits: bv8)

  /** The template arguments that make sense for an 8-bit container. */
  predicate Proper(f: Field) {
    f.index < 8 && 0 < f.bits && f.bits <= 8 && f.index + f.bits <= 8
  }

  predicate Disjoint(f: Field, g: Field) {
    f.index + f.bits <= g.index || g.index + g.bits <= f.index
  }

  function Mask(f: Field): bv8
    requires Proper(f)
  {
    (1 << f.bits) - 1
  }

  /** operator= */
  function Set(word: bv8, f: Field, value: bv8): bv8
    requires Proper(f)
  {
    (word & !(Mask(f) << f.index)) | ((value & Mask(f)) << f.index)
  }

  /** operator T */
  function Get(word: bv8, f: Field): bv8
    requires Proper(f)
  {
    (word >> f.index) & Mask(f)
  }

  /** What was set is read back, cut to the field. */
  lemma SetThenGet(word: bv8, f: Field, value: bv8)
    requires Proper(f)
    ensures Get(Set(word, f, value), f) == value & Mask(f)
  {
    SetThenGetAt(word, f.index, Mask(f), value);
  }

  lemma SetThenGetAt(word: bv8, index: bv8, mask: bv8, value: bv8)
    requires index < 8 && (mask << index) >> index == mask
    ensures (((word & !(mask << index)) | ((value & mask) << index)) >> index) & mask == value & mask
  {
  }

  /** A disjoint field does not change. */
  lemma SetKeepsOthers(word: bv8, f: Field, g: Field, value: bv8)
    requires Proper(f) && Proper(g) && Disjoint(f, g)
    ensures Get(Set(word, f, value), g) == Get(word, g)
  {
    assert (Mask(f) << f.index) & (Mask(g) << g.index) == 0;
    SetKeepsOthersAt(word, f.index, Mask(f), g.index, Mask(g), value);
  }

  lemma SetKeepsOthersAt(word: bv8, i: bv8, m: bv8, j: bv8, n: bv8, value: bv8)
    requires i < 8 && j < 8 && (m << i) & (n << j) == 0 && (n << j) >> j == n
    ensures (((word & !(m << i)) | ((value & m) << i)) >> j) & n == (word >> j) & n
  {
  }

  const CAPABILITY := Field(0, 4)
  const TYPE := Field(4, 1)
  const IS_ROOT := Field(5, 1)

  /** One set of capabilities lies within another: the test in allocate_vmr_compact. */
  predicate Within(flags: bv8, others: bv8) {
    Get(flags, CAPABILITY) & Get(others, CAPABILITY) == Get(flags, CAPABILITY)
  }

  lemma WithinIsTransitive(a: bv8, b: bv8, c: bv8)
    requires Within(a, b) && Within(b, c)
    ensures Within(a, c)
  {
  }
}
