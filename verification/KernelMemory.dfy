/** map_single_page as the program runs it: table entries written in place through virtual
    addresses, pages moved from the free list to the caller's list (arch/x86-64/mmu.cc). */
module KernelMemory {
  import opened Wrappers
  import opened PageEntry
  import opened PageIndex
  import opened PageTable
  import opened KernelMapping
  import opened SelfMap
  import opened WrittenNew

  datatype Status = Ok | NoMemory | Fault

  /** Missing tables can be made, of pages below 4 GiB that hold only zeros; page and flags are
      such as an entry can hold. */
  ghost predicate Ready(k: Kernel, phys: nat, virt: nat, flags: nat) {
    && Valid(View(k)) && SelfMapped(k.mem) && Pml4Index(virt) != 511 && Usable(flags, 1)
    && phys < 0x10_0000_0000_0000
    && var m := Missing(View(k), Indices(virt), 3); LowPages(k.mem.free, m) && BlankPages(k.mem, m)
  }

  class KernelMemory {
    const ram: array<nat>
    const pml4: nat
    const rsrvlist: seq<nat>
    var freelist: seq<nat>
    var ptPages: seq<nat>

    constructor (ram: array<nat>, pml4: nat, freelist: seq<nat>, rsrvlist: seq<nat>)
      ensures this.ram == ram && Abs() == Kernel(Loader(ram[..], freelist, rsrvlist, pml4), [])
    {
      this.ram, this.pml4, this.freelist, this.rsrvlist, this.ptPages := ram, pml4, freelist, rsrvlist, [];
    }

    ghost function Abs(): Kernel
      reads this, ram
    {
      Kernel(Loader(ram[..], freelist, rsrvlist, pml4), ptPages)
    }

    /** What a status and the state it comes with say about an outcome. */
    ghost predicate Reports(status: Status, outcome: Outcome)
      reads this, ram
    {
      match outcome
      case Mapped(k) => status == Ok && Abs() == k
      case OutOfMemory(k) => status == NoMemory && Abs() == k
      case PageFault => status == Fault
    }

    method StoreWord(word: nat, value: nat)
      modifies ram
      ensures ram[..] == Store(old(ram[..]), word, value)
    {
      if word < ram.Length {
        ram[word] := value;
      }
    }

    /** if(!entry->f.present) take a page, list it and link it */
    method EnsureEntry(slot: nat, flags: nat) returns (status: Status)
      modifies this`freelist, this`ptPages, ram
      ensures Reports(status, KernelMapping.EnsureEntry(old(Abs()), slot, flags))
    {
      hide Walk, Present, Indices, Entry;
      var place := WordOf(Loader(ram[..], freelist, rsrvlist, pml4), slot);
      if place.None? {
        return Fault;
      }
      var word := place.value;
      if !Present(if word < ram.Length then ram[word] else 0) {
        if freelist == [] {
          return NoMemory;
        }
        var page := freelist[0];
        freelist := freelist[1..];
        ptPages := ptPages + [page];
        StoreWord(word, Entry(page * 0x1000, flags));
      }
      return Ok;
    }

    /** The last entry is overwritten even if it is present. */
    method OverwriteEntry(slot: nat, phys: nat, flags: nat) returns (status: Status)
      modifies ram
      ensures Reports(status, KernelMapping.OverwriteEntry(old(Abs()), slot, phys, flags))
    {
      hide Walk, Indices, Entry;
      var place := WordOf(Loader(ram[..], freelist, rsrvlist, pml4), slot);
      if place.None? {
        return Fault;
      }
      StoreWord(place.value, Entry(phys, flags));
      return Ok;
    }

    /** The four entries in turn, at the given addresses. */
    method MapSlots(slots: Slots, phys: nat, flags: nat) returns (status: Status)
      modifies this`freelist, this`ptPages, ram
      ensures Reports(status, KernelMapping.MapSinglePage(old(Abs()), slots, phys, flags))
    {
      hide KernelMapping.EnsureEntry, KernelMapping.OverwriteEntry;
      status := EnsureEntry(slots.pml4e, flags);
      if status != Ok {
        return;
      }
      status := EnsureEntry(slots.pdpte, flags);
      if status != Ok {
        return;
      }
      status := EnsureEntry(slots.pde, flags);
      if status != Ok {
        return;
      }
      status := OverwriteEntry(slots.pte, phys, flags);
    }

    /** The code: the slots as it writes them; phys and virt are asserted to be page-aligned. */
    method MapSinglePage(phys: nat, virt: nat, flags: nat) returns (status: Status)
      requires phys % 0x1000 == 0 && virt % 0x1000 == 0
      modifies this`freelist, this`ptPages, ram
      ensures Reports(status, KernelMapping.MapSinglePage(old(Abs()), WrittenSlots(virt), phys, flags))
      ensures Ready(old(Abs()), phys, virt, flags) ==>
                var p, f, m := Indices(virt), phys / 0x1000, Missing(View(old(Abs())), Indices(virt), 3);
                status == Ok && MappedPage(old(Abs()), Abs(), p, f, m) <==> WrittenIsRight(old(Abs()), p, f, m)
    {
      hide VirtFromIndex, Pml4Index, PdptIndex, PdIndex, PtIndex, KernelMapping.MapSinglePage;
      ghost var k := Abs();
      var x, y, z, w := Pml4Index(virt), PdptIndex(virt), PdIndex(virt), PtIndex(virt);
      var pml4Table, pdpt := VirtFromIndex(511, 511, 511, 511), VirtFromIndex(511, 511, 511, x);
      var pd, pt := VirtFromIndex(511, 511, y, x), VirtFromIndex(511, z, y, x);
      status := MapSlots(Slots(pml4Table + 8 * x, pdpt + 8 * y, pd + 8 * z, pt + 8 * w), phys, flags);
      hide WrittenSlots, WrittenIsRight, MappedPage, Walk, Valid, Indices;
      if Ready(k, phys, virt, flags) {
        WrittenMapsExactly(k, virt, phys, flags);
      }
    }
  }
}
