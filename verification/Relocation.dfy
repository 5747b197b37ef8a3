/** The page database moves to its kernel address: every stored link and both list roots are
    shifted by one constant (loader/x86-64-multiboot2/main.cc, lib/ebl/linked_list.h). */
module Relocation {
  import Bits

  const WORD := 0x1_0000_0000_0000_0000

  /** The links of the database entries, as stored addresses; 0 is null.  Entry i lies at
      base + i * size. */
  datatype Links = Links(next: seq<nat>, prev: seq<nat>, base: nat, size: nat) {
    /** The database has an address, does not wrap, and its entries are apart. */
    predicate Placed() {
      |next| == |prev| && 0 < base && 0 < size && base + |next| * size <= WORD
    }

    function Address(i: nat): nat {
      base + i * size
    }

    /** The entry an address points at. */
    function EntryAt(address: nat): nat
      requires 0 < size
    {
      if address < base then 0 else (address - base) / size
    }
  }

  /** The list at root runs through the entries named by order, and back to the first. */
  ghost predicate Ring(db: Links, root: nat, order: seq<nat>) {
    && (forall k :: 0 <= k < |order| ==> order[k] < |db.next| == |db.prev|)
    && (forall j, k :: 0 <= j < k < |order| ==> order[j] != order[k])
    && root == (if order == [] then 0 else db.Address(order[0]))
    && forall k :: 0 <= k < |order| ==>
         && db.next[order[k]] == db.Address(order[if k + 1 < |order| then k + 1 else 0])
         && db.prev[order[k]] == db.Address(order[if k > 0 then k - 1 else |order| - 1])
  }

  // ----- the shift

  /** The body of shift(): a null link stays null. */
  function Shift(link: nat, offset: nat): nat {
    if link != 0 then (link + offset) % WORD else link
  }

  function ShiftAll(links: seq<nat>, offset: nat): seq<nat> {
    seq(|links|, i requires 0 <= i < |links| => Shift(links[i], offset))
  }

  function Relocated(db: Links, offset: nat): Links {
    Links(ShiftAll(db.next, offset), ShiftAll(db.prev, offset), (db.base + offset) % WORD, db.size)
  }

  /** The loop over the database. */
  method ShiftLinks(next: array<nat>, prev: array<nat>, offset: nat)
    requires next != prev && next.Length == prev.Length
    modifies next, prev
    ensures next[..] == ShiftAll(old(next[..]), offset)
    ensures prev[..] == ShiftAll(old(prev[..]), offset)
  {
    var i := 0;
    while i < next.Length
      invariant i <= next.Length
      invariant forall k :: 0 <= k < next.Length ==>
                  next[k] == if k < i then Shift(old(next[k]), offset) else old(next[k])
      invariant forall k :: 0 <= k < next.Length ==>
                  prev[k] == if k < i then Shift(old(prev[k]), offset) else old(prev[k])
    {
      if next[i] != 0 {
        next[i] := (next[i] + offset) % WORD;
      }
      if prev[i] != 0 {
        prev[i] := (prev[i] + offset) % WORD;
      }
      i := i + 1;
    }
  }

  // ----- traversal

  /** The address reached after k steps along the next links. */
  function Visit(db: Links, root: nat, k: nat): nat
    requires 0 < db.size
  {
    if k == 0 then root
    else
      var i := db.EntryAt(Visit(db, root, k - 1));
      if i < |db.next| then db.next[i] else 0
  }

  lemma EntryAtAddress(db: Links, i: nat)
    requires 0 < db.size
    ensures db.EntryAt(db.Address(i)) == i
  {
    assert i * db.size >= 0;
    Bits.QuotientUnique(i * db.size, db.size, i, 0);
  }

  lemma AddressBelow(db: Links, i: nat)
    requires db.Placed() && i < |db.next|
    ensures db.base <= db.Address(i) && db.Address(i) + db.size <= db.base + |db.next| * db.size
  {
    Bits.Spread(i, |db.next|, db.size);
  }

  /** An entry's shifted address is its address in the relocated database. */
  lemma ShiftAddress(db: Links, offset: nat, i: nat)
    requires db.Placed() && Relocated(db, offset).Placed() && i < |db.next|
    ensures Shift(db.Address(i), offset) == Relocated(db, offset).Address(i) != 0
  {
    var q := (db.base + offset) / WORD;
    var moved := Relocated(db, offset);
    AddressBelow(db, i);
    AddressBelow(moved, i);
    assert db.base + offset == q * WORD + moved.base;
    assert db.Address(i) + offset == q * WORD + moved.Address(i);
    Bits.QuotientUnique(db.Address(i) + offset, WORD, q, moved.Address(i));
  }

  /** Shifted by the distance to a new address, the database lies there, and a link to entry i is
      one to entry i there; a null link stays null. */
  lemma MovedTo(db: Links, target: nat, i: nat)
    requires db.Placed() && i < |db.next| && 0 < target && target + |db.next| * db.size <= WORD
    ensures var offset := (target - db.base) % WORD;
            && Relocated(db, offset).base == target && Relocated(db, offset).size == db.size
            && Shift(db.Address(i), offset) == target + i * db.size && Shift(0, offset) == 0
  {
    var offset := (target - db.base) % WORD;
    AddressBelow(db, i);
    Bits.Spread(i, |db.next|, db.size);
    assert (db.base + offset) % WORD == target % WORD;
    TargetBelow(target, |db.next|, db.size);
    assert Relocated(db, offset).base == target;
    ShiftAddress(db, offset, i);
  }

  lemma TargetBelow(target: nat, n: nat, size: nat)
    requires n > 0 && size > 0 && target + n * size <= WORD
    ensures target < WORD && target % WORD == target
  {
    Bits.MulSpread(n, size);
  }

  /** Relocation keeps every list, entry for entry. */
  lemma RelocationKeepsRings(db: Links, offset: nat, root: nat, order: seq<nat>)
    requires db.Placed() && Relocated(db, offset).Placed() && Ring(db, root, order)
    ensures Ring(Relocated(db, offset), Shift(root, offset), order)
  {
    var moved := Relocated(db, offset);
    forall k | 0 <= k < |order|
      ensures Shift(db.Address(order[k]), offset) == moved.Address(order[k])
    {
      ShiftAddress(db, offset, order[k]);
    }
  }

  /** The k-th address of a traversal is that of the k-th entry, round and round. */
  lemma {:induction false} VisitInOrder(db: Links, root: nat, order: seq<nat>, k: nat)
    requires db.Placed() && Ring(db, root, order) && order != []
    ensures Visit(db, root, k) == db.Address(order[k % |order|])
  {
    if k > 0 {
      VisitInOrder(db, root, order, k - 1);
      Bits.NextRemainder(k - 1, |order|);
      VisitNext(db, root, order, k, (k - 1) % |order|);
    } else {
      Bits.QuotientUnique(0, |order|, 0, 0);
    }
  }

  lemma VisitNext(db: Links, root: nat, order: seq<nat>, k: nat, j: nat)
    requires db.Placed() && Ring(db, root, order) && j < |order| && k > 0
    requires Visit(db, root, k - 1) == db.Address(order[j])
    ensures Visit(db, root, k) == db.Address(order[if j + 1 < |order| then j + 1 else 0])
  {
    hide Links.EntryAt, Links.Address;
    EntryAtAddress(db, order[j]);
  }

  /** Traversing the relocated list is traversing the old one and shifting each address. */
  lemma RelocationCommutesWithTraversal(db: Links, offset: nat, root: nat, order: seq<nat>, k: nat)
    requires db.Placed() && Relocated(db, offset).Placed() && Ring(db, root, order) && order != []
    ensures Visit(Relocated(db, offset), Shift(root, offset), k) == Shift(Visit(db, root, k), offset)
  {
    RelocationKeepsRings(db, offset, root, order);
    VisitInOrder(db, root, order, k);
    VisitInOrder(Relocated(db, offset), Shift(root, offset), order, k);
    ShiftAddress(db, offset, order[k % |order|]);
  }

  /** The length of a list is the number of steps until the root comes round again. */
  lemma StepsToRoot(db: Links, root: nat, order: seq<nat>, k: nat)
    requires db.Placed() && Ring(db, root, order) && order != [] && 0 < k <= |order|
    ensures Visit(db, root, k) == root <==> k == |order|
  {
    VisitInOrder(db, root, order, k);
    if k == |order| {
      Bits.QuotientUnique(k, |order|, 1, 0);
    } else {
      Bits.QuotientUnique(k, |order|, 0, k);
      EntryAtAddress(db, order[k]);
      EntryAtAddress(db, order[0]);
      assert order[0] != order[k];
    }
  }

  /** Two lists that hold every entry once between them still do after the move, so the sizes
      the kernel counts add up to the number of pages. */
  lemma PartitionSurvives(db: Links, offset: nat, free: nat, rsrv: nat, fs: seq<nat>, rs: seq<nat>)
    requires db.Placed() && Relocated(db, offset).Placed()
    requires Ring(db, free, fs) && Ring(db, rsrv, rs)
    requires forall i :: 0 <= i < |db.next| ==> (i in fs <==> i !in rs)
    ensures Ring(Relocated(db, offset), Shift(free, offset), fs)
    ensures Ring(Relocated(db, offset), Shift(rsrv, offset), rs)
    ensures |fs| + |rs| == |db.next|
  {
    RelocationKeepsRings(db, offset, free, fs);
    RelocationKeepsRings(db, offset, rsrv, rs);
    var n := |db.next|;
    DistinctSize(fs);
    DistinctSize(rs);
    var a, b := Members(fs), Members(rs);
    assert a + b == Below(n);
    assert a !! b;
  }

  function Members(s: seq<nat>): set<nat> {
    set i | i in s
  }

  function Below(n: nat): (r: set<nat>)
    ensures forall i :: i in r <==> 0 <= i < n
    ensures |r| == n
  {
    if n == 0 then {} else Below(n - 1) + {n - 1}
  }

  lemma {:induction false} DistinctSize(s: seq<nat>)
    requires forall j, k :: 0 <= j < k < |s| ==> s[j] != s[k]
    ensures |Members(s)| == |s|
  {
    if s != [] {
      DistinctSize(s[1..]);
      assert s[0] !in s[1..];
      assert s == [s[0]] + s[1..];
      assert Members(s) == Members(s[1..]) + {s[0]};
    }
  }
}
