/** Page-table entries (union generic_page_entry) and how the loader and the processor
    read the table address back out of one. */
module PageEntry {
  import opened Bits

  // Bits 11 to 31, the loader's mask
  const TABLE_MASK := 0xFFFF_F800
  // Bits 12 to 51, the address field read by the processor
  const FRAME_MASK := 0xF_FFFF_FFFF_F000
  // Bits 11 to 51
  const ADDRESS_BITS := 0xF_FFFF_FFFF_F800
  // Page numbers below this one lie under 4 GiB
  const LOW_PAGES := 0x10_0000

  /** The word stored for an address: address | 1 | flags. */
  function Entry(address: nat, flags: nat): nat { Or(Or(address, 1), flags) }

  predicate Present(e: nat) { And(e, 1) == 1 }

  /** The address the loader follows. */
  function TableAddress(e: nat): nat { And(e, TABLE_MASK) }

  /** The page number the processor follows (Intel SDM Volume 3, section 4.5.4). */
  function Frame(e: nat): nat { And(e, FRAME_MASK) / 0x1000 }

  // Bit 7: the page-size bit of the entries above the last level, the PAT bit of the last
  const SIZE_BIT := 0x80

  predicate Large(e: nat) { And(e, SIZE_BIT) != 0 }

  /** The entry refers to one table, for the loader and for the processor. */
  predicate Link(e: nat) { TableAddress(e) == Frame(e) * 0x1000 && !Large(e) }

  predicate CleanFlags(flags: nat) { And(flags, ADDRESS_BITS) == 0 }

  /** Flags for a page whose mapping needs that many new tables. */
  predicate Usable(flags: nat, tables: nat) { CleanFlags(flags) && (tables > 0 ==> !Large(flags)) }

  lemma AndTableMask(x: nat)
    ensures And(x, TABLE_MASK) == x % 0x1_0000_0000 - x % 0x800
  {
    Pow2Values();
    AndRange(x, 11, 32);
  }

  lemma AndFrameMask(x: nat)
    ensures And(x, FRAME_MASK) == x % 0x10_0000_0000_0000 - x % 0x1000
  {
    Pow2Values();
    AndRange(x, 12, 52);
  }

  lemma AndSizeBit(x: nat)
    ensures And(x, SIZE_BIT) == x % 0x100 - x % 0x80
  {
    Pow2Values();
    assert Pow2(7) == 0x80 && Pow2(8) == 0x100 by {
      PowersOfTwo();
    }
    AndRange(x, 7, 8);
  }

  lemma PowersOfTwo()
    ensures Pow2(7) == 0x80 && Pow2(8) == 0x100
  {
    assert Pow2(3) == 8;
    Pow2Add(3, 4);
    assert Pow2(7) == 8 * Pow2(4) == 8 * 16;
  }

  lemma AndOne(x: nat)
    ensures And(x, 1) == x % 2
  {
  }

  lemma MaskTableAddress(address: nat)
    requires address % 0x1000 == 0 && address < 0x1_0000_0000
    ensures And(address, TABLE_MASK) == address
  {
    hide And;
    AndTableMask(address);
    QuotientUnique(address, 0x800, address / 0x1000 * 2, 0);
  }

  lemma MaskFrameAddress(address: nat)
    requires address % 0x1000 == 0 && address < 0x10_0000_0000_0000
    ensures And(address, FRAME_MASK) == address
  {
    hide And;
    AndFrameMask(address);
  }

  lemma MaskBelow4G(x: nat)
    ensures And(x, TABLE_MASK) < 0x1_0000_0000
  {
    AndTableMask(x);
  }

  lemma TableMaskInAddressBits()
    ensures And(ADDRESS_BITS, TABLE_MASK) == TABLE_MASK
  {
    hide And;
    AndTableMask(ADDRESS_BITS);
  }

  lemma FrameMaskInAddressBits()
    ensures And(ADDRESS_BITS, FRAME_MASK) == FRAME_MASK
  {
    hide And;
    AndFrameMask(ADDRESS_BITS);
  }

  lemma OneOutsideMasks()
    ensures And(1, TABLE_MASK) == 0 && And(1, FRAME_MASK) == 0
  {
    AndTableMask(1);
    AndFrameMask(1);
  }

  lemma CleanFlagsMasked(flags: nat)
    requires CleanFlags(flags)
    ensures And(flags, TABLE_MASK) == 0 && And(flags, FRAME_MASK) == 0
  {
    TableMaskInAddressBits();
    FrameMaskInAddressBits();
    AndAssoc(flags, ADDRESS_BITS, TABLE_MASK);
    AndAssoc(flags, ADDRESS_BITS, FRAME_MASK);
  }

  lemma EntryMasked(address: nat, flags: nat, mask: nat)
    requires And(1, mask) == 0
    ensures And(Entry(address, flags), mask) == Or(And(address, mask), And(flags, mask))
  {
    AndOverOr(Or(address, 1), flags, mask);
    AndOverOr(address, 1, mask);
  }

  lemma EntryPresent(address: nat, flags: nat)
    ensures Present(Entry(address, flags))
  {
    AndOverOr(Or(address, 1), flags, 1);
    AndOverOr(address, 1, 1);
    AndOne(address);
    AndOne(flags);
    assert And(1, 1) == 1;
    OrZero(Or(And(address, 1), 1), And(flags, 1));
    OrBound(And(address, 1), 1, 1);
    OrBound(Or(And(address, 1), 1), And(flags, 1), 1);
  }

  /** An entry for a page has the page-size bit exactly if the flags do. */
  lemma EntryLarge(address: nat, flags: nat)
    requires address % 0x1000 == 0
    ensures Large(Entry(address, flags)) <==> Large(flags)
  {
    AndSizeBit(1);
    AndSizeBit(address);
    EntryMasked(address, flags, SIZE_BIT);
    QuotientUnique(address, 0x80, address / 0x1000 * 0x20, 0);
    QuotientUnique(address, 0x100, address / 0x1000 * 0x10, 0);
  }

  /** What the loader reads back from an entry it wrote for page p is p exactly when p lies
      below 4 GiB and the flags add no bit to its address. */
  lemma LoaderReadsBack(p: nat, flags: nat)
    ensures TableAddress(Entry(p * 0x1000, flags)) == p * 0x1000
            <==> p < LOW_PAGES && Or(p * 0x1000, And(flags, TABLE_MASK)) == p * 0x1000
  {
    hide And, Or, Entry;
    OneOutsideMasks();
    EntryMasked(p * 0x1000, flags, TABLE_MASK);
    if p < LOW_PAGES {
      MaskTableAddress(p * 0x1000);
    }
    MaskBelow4G(Entry(p * 0x1000, flags));
  }

  /** A link to a page below 4 GiB reads back the same for the loader and the processor, and the
      processor takes it for a table. */
  lemma LinkEntry(p: nat, flags: nat)
    requires p < LOW_PAGES && Usable(flags, 1)
    ensures Present(Entry(p * 0x1000, flags))
    ensures TableAddress(Entry(p * 0x1000, flags)) == p * 0x1000
    ensures Frame(Entry(p * 0x1000, flags)) == p
    ensures Link(Entry(p * 0x1000, flags))
  {
    EntryLarge(p * 0x1000, flags);
    EntryPresent(p * 0x1000, flags);
    CleanFlagsMasked(flags);
    LoaderReadsBack(p, flags);
    LeafEntry(p * 0x1000, flags);
  }

  lemma LeafEntry(phys: nat, flags: nat)
    requires phys % 0x1000 == 0 && phys < 0x10_0000_0000_0000 && CleanFlags(flags)
    ensures Present(Entry(phys, flags))
    ensures Frame(Entry(phys, flags)) == phys / 0x1000
  {
    EntryPresent(phys, flags);
    CleanFlagsMasked(flags);
    OneOutsideMasks();
    EntryMasked(phys, flags, FRAME_MASK);
    MaskFrameAddress(phys);
  }
}
