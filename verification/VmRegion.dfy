/** A tree of virtual memory regions, allocated into and torn down in place
    (core/vmregion.cc, core/include/core/vmregion.h). */
module VmRegions {
  import opened Bits
  import opened Wrappers
  import opened BitField
  import opened RegionSearch
  import opened RegionRuns
  import LinkedList

  // Region types
  const REGION: bv8 := 0

  datatype Status = Ok | InvalidArgument | OutOfMemory | PermissionDenied | AllocationFailed

  class VmRegion {
    const base: nat
    const size: nat
    var flags: bv8
    var parent: VmRegion?
    var children: seq<VmRegion>
    /** The list of children was left with a removed node for its root. */
    var dangling: bool
    ghost var repr: set<VmRegion>

    constructor (base: nat, size: nat, flags: bv8)
      ensures Valid() && fresh(repr) && repr == {this}
      ensures this.base == base && this.size == size && this.flags == flags
      ensures parent == null && children == [] && !dangling
    {
      this.base, this.size, this.flags := base, size, flags;
      parent, children, dangling := null, [], false;
      repr := {this};
    }

    /** A finite tree: the children's own trees are apart and below this region. */
    ghost predicate Valid()
      reads this, repr
      ensures Valid() ==> this in repr
      decreases repr
    {
      && this in repr && !dangling
      && (forall c :: c in children ==>
            && c in repr && c.repr < repr && this !in c.repr
            && c.parent == this && Within(c.flags, flags) && c.Valid())
      && Apart(children) && Covers(children, repr - {this})
    }

    /** The region is out of any tree and has no children. */
    predicate Detached()
      reads this
    {
      parent == null && children == []
    }

    /** The state of the loop in Destroy: the children left are as in a valid tree, and
        everything else that was below this region is detached. */
    ghost predicate Emptying(all: set<VmRegion>)
      reads this, all
    {
      && this in all
      && (forall c :: c in children ==>
            && c in all && c.repr < all && this !in c.repr
            && c.parent == this && Within(c.flags, flags) && c.Valid())
      && Apart(children)
      && forall d :: d in all ==>
           d == this || d.Detached() || Covered(children, d)
    }

    lemma IntervalsAfterInsert(cs: seq<VmRegion>, i: nat, x: VmRegion)
      requires i <= |cs|
      ensures Intervals(LinkedList.Insert(cs, i, x))
           == LinkedList.Insert(Intervals(cs), i, Interval(x.base, x.size))
    {
    }

    function Intervals(cs: seq<VmRegion>): seq<Interval> {
      seq(|cs|, i requires 0 <= i < |cs| => Interval(cs[i].base, cs[i].size))
    }

    /** foreach_hole with the callback of allocate_vmr_compact. */
    method FindHole(n: nat, align: nat) returns (found: Option<Found>)
      requires 0 < align <= WORD
      ensures found == Search(base, size, Intervals(children), n, align, 0, 0)
      ensures found.Some? ==> found.value.index <= |children|
    {
      hide AlignUp, TryHole;
      ghost var cs := Intervals(children);
      var offset: nat, i: nat := 0, 0;
      while i < |children|
        invariant i <= |children|
        invariant Search(base, size, cs, n, align, i, offset) == Search(base, size, cs, n, align, 0, 0)
      {
        var child := children[i];
        if child.base > (base + offset) % WORD {
          var place := TryHole(offset, (child.base - base - offset) % WORD, n, align);
          if place.Some? {
            return Some(Found(place.value, i));
          }
        }
        offset := (child.base + child.size) % WORD;
        i := i + 1;
      }
      if (base + size) % WORD > (base + offset) % WORD {
        var place := TryHole(offset, (size - offset) % WORD, n, align);
        if place.Some? {
          return Some(Found(place.value, i));
        }
      }
      return None;
    }

    /** What the caller of an allocation learns in a region at 0: the new region is at the least
        place that fits and the children stay in order, or nothing fits anywhere. */
    ghost predicate FirstFitOutcome(was: seq<VmRegion>, n: nat, align: nat, status: Status, region: VmRegion?)
      requires align > 0
      reads this
    {
      && (status == Ok ==>
            && region != null && LeastFit(0, size, Intervals(was), n, align, region.base)
            && Ordered(0, size, Intervals(children)))
      && (status == AllocationFailed ==> forall b: nat :: !Fits(0, size, Intervals(was), n, align, b))
    }

    lemma FirstFitHere(n: nat, k: nat)
      requires k < 32 && AlignOf(k) <= WORD
      ensures base == 0 && n > 0 && NoWrap(0, size, n, AlignOf(k)) && Ordered(0, size, Intervals(children)) ==>
                match Search(0, size, Intervals(children), n, AlignOf(k), 0, 0)
                case Some(f) =>
                  && LeastFit(0, size, Intervals(children), n, AlignOf(k), f.base) && f.index <= |children|
                  && Ordered(0, size, LinkedList.Insert(Intervals(children), f.index, Interval(f.base, n)))
                case None => forall b: nat :: !Fits(0, size, Intervals(children), n, AlignOf(k), b)
    {
      hide Search, AlignOf, Ordered, LeastFit, Fits, NoWrap, LinkedList.Insert;
      if base == 0 && n > 0 && NoWrap(0, size, n, AlignOf(k)) && Ordered(0, size, Intervals(children)) {
        var cs := Intervals(children);
        AlignOfIsPower(k);
        FirstFitIsExact(size, cs, n, AlignOf(k), if k < 12 then 12 else k);
        if Search(0, size, cs, n, AlignOf(k), 0, 0).Some? {
          SmallKeepsOrder(size, cs, n, k);
        }
      }
    }

    /** find_child_above: the first child at or above an offset into the region. */
    method FindChildAbove(offset: nat) returns (child: VmRegion?)
      ensures child == null ==> forall c :: c in children ==> c.base < (base + offset) % WORD
      ensures child != null ==>
                exists i :: 0 <= i < |children| && children[i] == child && child.base >= (base + offset) % WORD
                            && forall j :: 0 <= j < i ==> children[j].base < (base + offset) % WORD
    {
      var i := 0;
      while i < |children|
        invariant i <= |children|
        invariant forall j :: 0 <= j < i ==> children[j].base < (base + offset) % WORD
      {
        if children[i].base >= (base + offset) % WORD {
          return children[i];
        }
        i := i + 1;
      }
      return null;
    }

    /** allocate_vmr_compact; memory says whether the kernel heap has room for the new region.
        The trees of all ancestors stay valid. */
    method AllocateCompact(n: nat, alignPow2: nat, wanted: bv8, memory: bool, ghost up: seq<VmRegion>)
        returns (status: Status, region: VmRegion?)
      requires Chain(up + [this]) && n % PAGE == 0 && alignPow2 < 32 && AlignOf(alignPow2) <= WORD
      modifies this`children, this`repr, Members(up)`repr
      ensures Valid() && fresh(repr - old(repr)) && old(repr) <= repr
      ensures Chain(up + [this]) && (region != null ==> Chain(up + [this] + [region]))
      ensures base == 0 && n > 0 && NoWrap(0, size, n, AlignOf(alignPow2)) && Ordered(0, size, Intervals(old(children)))
              ==> FirstFitOutcome(old(children), n, AlignOf(alignPow2), status, region)
      ensures var found := Search(base, size, Intervals(old(children)), n, AlignOf(alignPow2), 0, 0);
              && status == (if wanted & !flags & 0xF != 0 then PermissionDenied
                            else if wanted & 0x10 != 0 then InvalidArgument
                            else if found.None? then AllocationFailed
                            else if !memory then OutOfMemory
                            else Ok)
              && (status != Ok ==> region == null && children == old(children))
              && (status == Ok ==>
                    && region != null && fresh(region) && found.value.index <= |old(children)|
                    && children == LinkedList.Insert(old(children), found.value.index, region)
                    && region.base == found.value.base && region.size == n
                    && region.parent == this && region.children == [] && region.flags == wanted & 0xF)
    {
      hide Search, AlignOf, Ordered, LeastFit, Fits, NoWrap, Set, Valid;
      region := null;
      InPath(up, this);
      FlagTests(wanted, flags);
      FirstFitHere(n, alignPow2);
      if Get(wanted, CAPABILITY) & Get(flags, CAPABILITY) != Get(wanted, CAPABILITY) {
        return PermissionDenied, null;
      }
      if Get(wanted, TYPE) != REGION {
        return InvalidArgument, null;
      }
      var found := FindHole(n, AlignOf(alignPow2));
      if found.None? {
        return AllocationFailed, null;
      }
      if !memory {
        return OutOfMemory, null;
      }
      region := AddChild(found.value, n, wanted, up);
      status := Ok;
    }

    /** The new region and its insertion. */
    method AddChild(found: Found, n: nat, wanted: bv8, ghost up: seq<VmRegion>) returns (region: VmRegion)
      requires Chain(up + [this]) && found.index <= |children| && Within(wanted, flags)
      modifies this`children, this`repr, Members(up)`repr
      ensures Valid() && fresh(repr - old(repr)) && old(repr) <= repr
      ensures Chain(up + [this]) && Chain(up + [this] + [region])
      ensures fresh(region) && region.base == found.base && region.size == n
      ensures region.parent == this && region.children == []
      ensures region.flags == wanted & 0xF
      ensures children == LinkedList.Insert(old(children), found.index, region)
      ensures Intervals(children)
              == LinkedList.Insert(Intervals(old(children)), found.index, Interval(found.base, n))
    {
      hide Set, Get, Within, Intervals, LinkedList.Insert, Valid;
      var newFlags := Set(Set(Set(0, TYPE, REGION), CAPABILITY, Get(wanted, CAPABILITY)), IS_ROOT, 0);
      NewFlags(wanted, flags);
      region := NewRegion(found.base, n, newFlags);
      IntervalsAfterInsert(children, found.index, region);
      InPath(up, this);
      Attach(region, found.index, up);
    }

    /** The insertion, and the trees of all ancestors. */
    method Attach(region: VmRegion, i: nat, ghost up: seq<VmRegion>)
      requires Chain(up + [this]) && i <= |children|
      requires region.Valid() && region.parent == this && region.repr == {region} && Within(region.flags, flags)
      requires region !in repr && forall j :: 0 <= j < |up| ==> region !in up[j].repr && region != up[j]
      modifies this`children, this`repr, Members(up)`repr
      ensures children == LinkedList.Insert(old(children), i, region) && repr == old(repr) + {region}
      ensures Valid() && Chain(up + [this]) && Chain(up + [this] + [region])
    {
      hide Within, LinkedList.Insert, Valid, Awaiting, Chain, Trees;
      ghost var path := up + [this];
      ghost var was := Trees(path);
      PathApart(up, this);
      AdoptBelow(region, i, path, was);
      InsertMembers(old(children), i, region);
      assert path[|path| - 1] == this;
      ChildChain(path, region);
      InPath(up, this);
    }

    /** A region of no children whose parent is set. */
    method NewRegion(base: nat, size: nat, flags: bv8) returns (region: VmRegion)
      ensures fresh(region) && region.Valid() && region.repr == {region}
      ensures region.base == base && region.size == size && region.flags == flags
      ensures region.parent == this && region.children == []
    {
      region := new VmRegion(base, size, flags);
      region.parent := this;
    }

    /** The insertion, seen from the ancestors. */
    method AdoptBelow(region: VmRegion, i: nat, ghost path: seq<VmRegion>, ghost was: seq<set<VmRegion>>)
      requires Valid() && i <= |children| && Awaiting(path, was) && path[|was|] == this
      requires forall j :: 0 <= j < |was| ==>
                 path[j] !in repr && path[j] != this && repr <= was[j] && path[j] != region && region !in path[j].repr
      requires was != [] ==> was[|was| - 1] == repr
      requires region.Valid() && region.parent == this && region.repr == {region} && region !in repr
      requires Within(region.flags, flags)
      modifies this`children, this`repr, Members(path[..|was|])`repr
      ensures children == LinkedList.Insert(old(children), i, region) && repr == old(repr) + {region}
      ensures Chain(path)
    {
      hide ValidAround, Valid, LinkedList.Insert, Chain, Awaiting, Refittable;
      AdoptHere(region, i, path, was);
      RefitAbove(path, was);
    }

    method AdoptHere(region: VmRegion, i: nat, ghost path: seq<VmRegion>, ghost was: seq<set<VmRegion>>)
      requires Valid() && i <= |children| && Awaiting(path, was) && path[|was|] == this
      requires forall j :: 0 <= j < |was| ==>
                 path[j] !in repr && path[j] != this && repr <= was[j] && path[j] != region && region !in path[j].repr
      requires was != [] ==> was[|was| - 1] == repr
      requires region.Valid() && region.parent == this && region.repr == {region} && region !in repr
      requires Within(region.flags, flags)
      modifies this`children, this`repr
      ensures children == LinkedList.Insert(old(children), i, region) && repr == old(repr) + {region}
      ensures Refittable(path, was)
    {
      hide ValidAround, Valid, LinkedList.Insert, Within;
      assert this in repr;
      Adopt(region, i);
      forall j | 0 <= j < |was|
        ensures ValidAround(path[j], path[j + 1], was[j])
      {
        assert old(ValidAround(path[j], path[j + 1], was[j]));
        assert path[j] != this && this in was[j];
      }
    }

    /** destroy(): every region below is detached and childless, and this one leaves its
        parent's list.  With a sibling left the trees of all ancestors are valid again; without
        one the parent's list dangles. */
    method Destroy(ghost up: seq<VmRegion>) returns (status: Status)
      requires Chain(up + [this]) && (parent == null <==> up == [])
      modifies repr, Members(up)`repr, Parents()`children, Parents()`dangling
      ensures status == Ok && children == [] && parent == old(parent) && Valid() && repr == {this}
      ensures forall d :: d in old(repr) && d != this ==> d.Detached()
      ensures parent != null ==>
                && (exists i :: 0 <= i < |old(parent.children)| && old(parent.children)[i] == this
                                && parent.children == LinkedList.Remove(old(parent.children), i))
                && (parent.dangling <==> |old(parent.children)| == 1)
      ensures parent != null && |old(parent.children)| > 1 ==> Chain(up)
      decreases repr, 2
    {
      ghost var path := up + [this];
      ghost var was := Trees(path);
      hide Chain, Valid, Awaiting, Trees, Detached;
      PathApart(up, this);
      status := ClearBelow(path, was);
      if parent != null {
        LeaveTree(path, was);
        assert path[..|was|] == up;
      }
    }

    /** The loop of destroy, seen from the ancestors. */
    method ClearBelow(ghost path: seq<VmRegion>, ghost was: seq<set<VmRegion>>) returns (status: Status)
      requires Valid() && Awaiting(path, was) && path[|was|] == this
      requires forall i :: 0 <= i < |was| ==> path[i] !in repr && path[i] != this && repr <= was[i]
      modifies this`children, this`repr, repr - {this}
      ensures status == Ok && children == [] && Valid() && repr == {this}
      ensures forall d :: d in old(repr) && d != this ==> d.Detached()
      ensures Awaiting(path, was)
      decreases repr, 1, 1
    {
      hide ValidAround, Valid, Detached, Within;
      status := Clear();
      forall i | 0 <= i < |was|
        ensures ValidAround(path[i], path[i + 1], was[i])
      {
        assert old(ValidAround(path[i], path[i + 1], was[i]));
        assert path[i] != this && old(repr) <= was[i];
      }
    }

    /** The region leaves its parent, and the trees of all ancestors are settled. */
    method LeaveTree(ghost path: seq<VmRegion>, ghost was: seq<set<VmRegion>>)
      requires Awaiting(path, was) && was != [] && path[|was|] == this && parent == path[|was| - 1]
      modifies Members(path[..|was|])`repr, Parents()`children, Parents()`dangling
      ensures exists i :: 0 <= i < |old(parent.children)| && old(parent.children)[i] == this
                          && parent.children == LinkedList.Remove(old(parent.children), i)
      ensures parent.dangling <==> |old(parent.children)| == 1
      ensures |old(parent.children)| > 1 ==> Chain(path[..|was|])
    {
      ghost var last := |was| - 1;
      hide ValidAround, Valid, Chain, LinkedList.Remove;
      assert ValidAround(path[last], path[last + 1], was[last]);
      if last > 0 {
        AroundSets(path[last - 1], path[last], was[last - 1]);
      }
      LeaveParent(parent, was[last]);
      if !parent.dangling {
        ghost var upper := path[..last + 1];
        RefitAbove(upper, was[..last]);
      }
    }

    /** The children as the runs of allocations and destructions see them. */
    ghost function State(): Children
      reads this
    {
      if dangling then Broken else Intact(Intervals(children))
    }

    /** One operation of such a run, performed on the objects. */
    method Perform(op: Op, wanted: bv8, ghost up: seq<VmRegion>)
      requires Chain(up + [this]) && base == 0 && ProperOp(size, op)
      requires wanted & !flags & 0xF == 0 && wanted & 0x10 == 0
      modifies repr, Members(up)`repr
      ensures flags == old(flags) && State() == Apply(size, old(State()), op)
      ensures State().Intact? ==> Chain(up + [this])
    {
      hide Search, AlignOf, NoWrap, Within, Get, Valid;
      InPath(up, this);
      match op
      case Allocate(n, k) =>
        AlignBelowWord(k);
        var status, region := AllocateCompact(n, k, wanted, true, up);
      case DestroyChild(i) =>
        if i < |children| {
          DestroyAt(children[i], i, up);
        }
    }

    method DestroyAt(child: VmRegion, ghost i: nat, ghost up: seq<VmRegion>)
      requires Chain(up + [this]) && i < |children| && children[i] == child
      modifies repr, Members(up)`repr
      ensures flags == old(flags) && (dangling <==> |old(children)| == 1)
      ensures Intervals(children) == LinkedList.Remove(Intervals(old(children)), i)
      ensures |old(children)| > 1 ==> Chain(up + [this])
    {
      ghost var path := up + [this];
      ChildChain(path, child);
      assert path[|up|] == this;
      ghost var j := PlaceIn(this, child, child.repr);
      IntervalsAfterRemove(children, i);
      hide Within, Valid, Chain, LinkedList.Remove, ValidAround;
      var status := child.Destroy(path);
    }

    lemma RemoveInserted(s: seq<Interval>, i: nat, x: Interval)
      requires i <= |s|
      ensures LinkedList.Remove(LinkedList.Insert(s, i, x), i) == s
    {
    }

    lemma IntervalsAfterRemove(cs: seq<VmRegion>, i: nat)
      requires i < |cs|
      ensures Intervals(LinkedList.Remove(cs, i)) == LinkedList.Remove(Intervals(cs), i)
    {
    }

    /** Teardown and reuse: beside a sibling, destroying the region just allocated and asking
        again gives a region at the same base, and the same children. */
    method Reallocate(n: nat, k: nat, wanted: bv8, ghost up: seq<VmRegion>) returns (first: VmRegion?, second: VmRegion?)
      requires Chain(up + [this]) && base == 0 && ProperOp(size, Allocate(n, k))
      requires wanted & !flags & 0xF == 0 && wanted & 0x10 == 0
      requires children != []
      modifies repr, Members(up)`repr
      ensures Chain(up + [this])
      ensures first == null <==> (AlignBelowWord(k); Search(0, size, Intervals(old(children)), n, AlignOf(k), 0, 0).None?)
      ensures first != null ==>
                && second != null && second != first && second.base == first.base && second.size == first.size == n
                && State() == Apply(size, old(State()), Allocate(n, k))
    {
      hide Search, AlignOf, NoWrap, Within, Get, Valid, LinkedList.Remove, Chain, Apart, Covers;
      AlignBelowWord(k);
      InPath(up, this);
      ghost var was := children;
      var status;
      status, first := AllocateCompact(n, k, wanted, true, up);
      second := null;
      if status == Ok {
        ghost var found := Search(0, size, Intervals(was), n, AlignOf(k), 0, 0).value;
        assert found.index < |children| && children[found.index] == first;
        IntervalsAfterInsert(was, found.index, first);
        RemoveInserted(Intervals(was), found.index, Interval(found.base, n));
        DestroyAt(first, found.index, up);
        assert Intervals(children) == Intervals(was);
        ghost var left := children;
        InPath(up, this);
        status, second := AllocateCompact(n, k, wanted, true, up);
        IntervalsAfterInsert(left, found.index, second);
      }
    }

    /** The parent, if there is one. */
    ghost function Parents(): set<VmRegion>
      reads this
    {
      if parent == null then {} else {parent}
    }

    /** The loop of destroy. */
    method Clear() returns (status: Status)
      requires Valid()
      modifies this`children, this`repr, repr - {this}
      ensures status == Ok && children == [] && Valid() && repr == {this}
      ensures forall d :: d in old(repr) && d != this ==> d.Detached()
      decreases repr, 1, 0
    {
      status := Ok;
      ghost var all := repr;
      while children != []
        invariant Emptying(all) && repr == all && !dangling
        modifies this`children, all - {this}
        decreases |children|
      {
        var r := DestroyFirst(all);
      }
      repr := {this};
    }

    /** One round of the loop. */
    method DestroyFirst(ghost all: set<VmRegion>) returns (status: Status)
      requires Emptying(all) && repr == all && children != []
      modifies this`children, all - {this}
      ensures Emptying(all) && children == old(children)[1..]
      decreases all, 0
    {
      var child := PopChild(all);
      status := DestroyPopped(all, child);
    }

    method DestroyPopped(ghost all: set<VmRegion>, child: VmRegion) returns (status: Status)
      requires Popped(all, child)
      modifies child.repr
      ensures Emptying(all)
      decreases child.repr, 3
    {
      ghost var below := child.repr;
      assert [] + [child] == [child];
      status := child.Destroy([]);
      forall c | c in children
        ensures unchanged(c) && c.Valid()
      {
        assert c in old(children) && old(c.Valid()) && c.repr !! below;
      }
      assert forall i :: 0 <= i < |children| ==> children[i] in children;
      forall d | d in all && d != this
        ensures d.Detached() || Covered(children, d)
      {
        if d !in below && !d.Detached() {
          assert old(Covered(children, d));
          var k :| 0 <= k < |children| && d in old(children[k].repr);
          assert d in children[k].repr;
        }
      }
    }

    /** Between taking the first child off the list and destroying it. */
    ghost predicate Popped(all: set<VmRegion>, child: VmRegion)
      reads this, all
    {
      && this in all && child in all && child.repr < all && this !in child.repr
      && child.parent == null && child.Valid()
      && (forall c :: c in children ==>
            && c in all && c.repr < all && this !in c.repr
            && c.parent == this && Within(c.flags, flags) && c.Valid() && c.repr !! child.repr)
      && Apart(children)
      && forall d :: d in all ==>
           d == this || d.Detached() || Covered(children, d) || d in child.repr
    }

    /** The first child and the rest. */
    lemma FirstSets(all: set<VmRegion>)
      requires Emptying(all) && children != []
      ensures var child, rest := children[0], children[1..];
        && child in all && child.repr < all && this !in child.repr && child.Valid() && child in child.repr
        && Apart(rest)
        && (forall c :: c in rest ==>
              && c in all && c.repr < all && this !in c.repr && c != child && child !in c.repr
              && c.parent == this && Within(c.flags, flags) && c.Valid() && c.repr !! child.repr)
        && forall d :: d in all ==> d == this || d.Detached() || Covered(rest, d) || d in child.repr
    {
      hide Within, Apart;
      var child, rest := children[0], children[1..];
      FirstApart(children);
      assert child in children && child.Valid();
      forall d | d in all && d != this && !d.Detached() && d !in child.repr
        ensures Covered(rest, d)
      {
        var k :| 0 <= k < |children| && d in children[k].repr;
        assert rest[k - 1] == children[k];
      }
    }

    /** pop_front, and the child no longer has a parent. */
    method PopChild(ghost all: set<VmRegion>) returns (child: VmRegion)
      requires Emptying(all) && children != []
      modifies this`children, all - {this}
      ensures Popped(all, child) && children == old(children)[1..]
      ensures child.repr < all && child.repr <= all - {this}
    {
      FirstSets(all);
      hide Within, Apart, Covered, Emptying, Detached, Valid;
      child := children[0];
      children := children[1..];
      Orphan(child);
      forall c | c in children
        ensures c.Valid() && unchanged(c)
      {
        assert old(c.Valid()) && child !in c.repr;
      }
      forall d | d in all && d != this && d !in child.repr
        ensures d.Detached() || Covered(children, d)
      {
        assert old(d.Detached()) || old(Covered(children[1..], d));
      }
    }

    /** A valid tree without a parent is a valid tree. */
    static method Orphan(child: VmRegion)
      requires child.Valid()
      modifies child`parent
      ensures child.Valid() && child.parent == null
    {
      hide Within;
      child.parent := null;
      assert forall c :: c in child.children ==> c != child && child !in c.repr;
    }

    /** parent_->children_.remove(this) */
    method RemoveFrom(p: VmRegion, ghost i: nat)
      requires i < |p.children| && p.children[i] == this && !p.dangling
      requires forall j :: 0 <= j < i ==> p.children[j] != this
      modifies p`children, p`dangling
      ensures p.children == LinkedList.Remove(old(p.children), i)
      ensures p.dangling <==> |old(p.children)| == 1
    {
      var j := 0;
      while p.children[j] != this
        invariant j <= i
        decreases i - j
      {
        j := j + 1;
      }
      p.dangling := |p.children| == 1;
      p.children := LinkedList.Remove(p.children, j);
    }

    /** The region leaves its parent, whose tree is valid again if a sibling is left. */
    method LeaveParent(p: VmRegion, ghost was: set<VmRegion>)
      requires ValidAround(p, this, was) && p != this
      modifies p`children, p`dangling, p`repr
      ensures exists i :: 0 <= i < |old(p.children)| && old(p.children)[i] == this
                          && p.children == LinkedList.Remove(old(p.children), i)
      ensures p.dangling <==> |old(p.children)| == 1
      ensures p.repr == old(p.repr) - was
      ensures |old(p.children)| > 1 ==> p.Valid()
    {
      ghost var r := p.repr - was;
      ghost var i := PlaceIn(p, this, was);
      RemoveSets(p, this, was, i);
      hide Within, Apart, Covers, Valid, ValidAround, LinkedList.Remove;
      RemoveFrom(p, i);
      if p.dangling {
        p.repr := r;
      } else {
        Settle(p, r);
      }
    }

    /** Insertion into the ordered list of children; at the end is push_back. */
    method Adopt(region: VmRegion, i: nat)
      requires Valid() && i <= |children|
      requires region.Valid() && region.parent == this && region.repr !! repr && Within(region.flags, flags)
      modifies this`children, this`repr
      ensures Valid() && repr == old(repr) + region.repr
      ensures children == LinkedList.Insert(old(children), i, region)
    {
      ghost var was := children;
      children := LinkedList.Insert(children, i, region);
      repr := repr + region.repr;
      InsertMembers(was, i, region);
      forall c | c in children
        ensures c in repr && c.repr < repr && this !in c.repr
        ensures c.parent == this && Within(c.flags, flags) && c.Valid()
      {
        assert c == region || c in was;
      }
      ApartAfterInsert(was, i, region);
      CoveredAfterInsert(was, i, region, old(repr) - {this});
    }
  }

  // ----- ancestors

  ghost function Members(rs: seq<VmRegion>): set<VmRegion> {
    set r | r in rs
  }

  /** From an ancestor down to a region: each is a child of the one before, in a valid tree. */
  ghost predicate Chain(path: seq<VmRegion>)
    reads Members(path), set a, x | a in path && x in a.repr :: x
  {
    && path != [] && (forall a :: a in path ==> a.Valid())
    && forall i :: 0 < i < |path| ==> path[i] in path[i - 1].children
  }

  /** What the tree of a looks like apart from its child c, whose own tree was the given set. */
  ghost predicate ValidAround(a: VmRegion, c: VmRegion, was: set<VmRegion>)
    reads a, a.repr - was, c`parent, c`flags
  {
    && a in a.repr && !a.dangling && was < a.repr && a !in was
    && c in a.children && c in was && c.parent == a && Within(c.flags, a.flags)
    && (forall x :: x in a.children && x != c ==> x in a.repr && x !in was)
    && (forall x :: x in a.children && x != c ==>
          && x.repr < a.repr && x.repr !! was && a !in x.repr
          && x.parent == a && Within(x.flags, a.flags))
    && (forall x :: x in a.children && x != c ==> x.Valid())
    && (forall i, j :: 0 <= i < j < |a.children| ==>
          a.children[i] != a.children[j]
          && (a.children[i] != c && a.children[j] != c ==> a.children[i].repr !! a.children[j].repr))
    && forall d :: d in a.repr - was && d != a ==>
         exists i :: 0 <= i < |a.children| && a.children[i] != c && d in a.children[i].repr
  }

  lemma AroundValid(a: VmRegion, c: VmRegion)
    requires a.Valid() && c in a.children
    ensures ValidAround(a, c, c.repr)
  {
    hide Within;
    forall i, j | 0 <= i < j < |a.children|
      ensures a.children[i] != a.children[j] && a.children[i].repr !! a.children[j].repr
    {
      assert a.children[i] in a.children[i].repr && a.children[j] in a.children[j].repr;
    }
    var k :| 0 <= k < |a.children| && a.children[k] == c;
    forall x | x in a.children && x != c
      ensures x.repr !! c.repr && x in x.repr
    {
      var i :| 0 <= i < |a.children| && a.children[i] == x;
      assert i < k || k < i;
    }
    forall d | d in a.repr - c.repr && d != a
      ensures exists i :: 0 <= i < |a.children| && a.children[i] != c && d in a.children[i].repr
    {
      assert Covered(a.children, d);
    }
  }

  /** A region whose children are valid and fit a set takes that set for its tree. */
  ghost method Settle(a: VmRegion, r: set<VmRegion>)
    requires a in r && !a.dangling && Apart(a.children) && Covers(a.children, r - {a})
    requires forall x :: x in a.children ==>
               && x in r && x.repr < r && a !in x.repr && x != a
               && x.parent == a && Within(x.flags, a.flags) && x.Valid()
    modifies a`repr
    ensures a.repr == r && a.Valid()
  {
    hide Within, Apart, Covers;
    a.repr := r;
    assert forall x :: x in a.children ==> x.repr == old(x.repr) && x.Valid();
    assert Apart(a.children) && Covers(a.children, r - {a});
  }

  lemma PlaceIn(a: VmRegion, c: VmRegion, was: set<VmRegion>) returns (i: nat)
    requires ValidAround(a, c, was)
    ensures i < |a.children| && a.children[i] == c && !a.dangling
    ensures forall j :: 0 <= j < |a.children| && j != i ==> a.children[j] != c
  {
    i :| 0 <= i < |a.children| && a.children[i] == c;
  }

  /** What is left of the tree of a without its child c. */
  lemma RemoveSets(a: VmRegion, c: VmRegion, was: set<VmRegion>, k: nat)
    requires ValidAround(a, c, was) && k < |a.children| && a.children[k] == c
    ensures var r, rest := a.repr - was, LinkedList.Remove(a.children, k);
      && a in r && Apart(rest) && Covers(rest, r - {a}) && !a.dangling
      && forall x :: x in rest ==>
           && x in r && x.repr < r && a !in x.repr && x != a && x.parent == a && Within(x.flags, a.flags) && x.Valid()
  {
    hide Within, VmRegion.Valid, LinkedList.Remove;
    var r, rest := a.repr - was, LinkedList.Remove(a.children, k);
    RemovedAt(a.children, k);
    forall x | x in rest
      ensures
        && x in r && x.repr < r && a !in x.repr && x != a && x.parent == a && Within(x.flags, a.flags) && x.Valid()
    {
      var i :| 0 <= i < |rest| && rest[i] == x;
      SiblingSets(a, c, was, x);
    }
    forall d | d in r - {a}
      ensures Covered(rest, d)
    {
      var i :| 0 <= i < |a.children| && a.children[i] != c && d in a.children[i].repr;
      assert rest[if i < k then i else i - 1] == a.children[i];
    }
  }

  lemma RemovedAt(cs: seq<VmRegion>, k: nat)
    requires k < |cs|
    ensures var rest := LinkedList.Remove(cs, k);
      |rest| == |cs| - 1 && forall i :: 0 <= i < |rest| ==> rest[i] == cs[if i < k then i else i + 1]
  {
  }

  lemma SiblingSets(a: VmRegion, c: VmRegion, was: set<VmRegion>, x: VmRegion)
    requires ValidAround(a, c, was) && x in a.children && x != c
    ensures var r := a.repr - was;
      && x in r && x.repr < r && a !in x.repr && x != a && x.parent == a && Within(x.flags, a.flags) && x.Valid()
  {
    hide Within;
    assert x.Valid() && x in x.repr;
    assert x.repr <= a.repr - was && a in a.repr - was;
  }

  /** The sets in the tree of a fit together with the child's new tree. */
  lemma RefitSets(a: VmRegion, c: VmRegion, was: set<VmRegion>)
    requires ValidAround(a, c, was) && c.Valid() && a !in c.repr && (c.repr - was) !! a.repr
    ensures var r := a.repr - was + c.repr;
      && a in r && Apart(a.children) && Covers(a.children, r - {a})
      && forall x :: x in a.children ==> x in r && x.repr < r && a !in x.repr
  {
    hide Within, VmRegion.Valid;
    var r := a.repr - was + c.repr;
    assert c in c.repr by {
      assert c.Valid();
    }
    assert c.repr < r by {
      assert a in r;
    }
    forall x | x in a.children && x != c
      ensures x in r && x.repr < r && x.repr !! c.repr && a !in x.repr
    {
      assert x.repr <= a.repr - was && a in r;
    }
    forall i, j | 0 <= i < j < |a.children|
      ensures a.children[i].repr !! a.children[j].repr
    {
      assert a.children[i] in a.children && a.children[j] in a.children;
    }
    forall d | d in r - {a}
      ensures Covered(a.children, d)
    {
      if d in c.repr {
        var k :| 0 <= k < |a.children| && a.children[k] == c;
      }
    }
  }

  /** The tree of a is valid again once it takes the new tree of its child. */
  ghost method Refit(a: VmRegion, c: VmRegion, was: set<VmRegion>)
    requires ValidAround(a, c, was) && c.Valid() && a !in c.repr && (c.repr - was) !! a.repr
    modifies a`repr
    ensures a.repr == old(a.repr) - was + c.repr && a.Valid()
  {
    hide Within, Apart, Covers;
    RefitSets(a, c, was);
    ghost var r := a.repr - was + c.repr;
    hide ValidAround;
    RefitFacts(a, c, was);
    Settle(a, r);
  }

  lemma RefitFacts(a: VmRegion, c: VmRegion, was: set<VmRegion>)
    requires ValidAround(a, c, was) && c.Valid() && a !in c.repr
    ensures !a.dangling
    ensures forall x :: x in a.children ==> x != a && a !in x.repr && x.Valid() && x.parent == a && Within(x.flags, a.flags)
  {
  }

  /** All regions on a path but the last are as in a valid tree around the next one, whose tree
      was the given set. */
  ghost predicate Awaiting(path: seq<VmRegion>, was: seq<set<VmRegion>>)
    reads Members(path), set a, x | a in path && x in a.repr :: x
  {
    && |path| == |was| + 1
    && (forall i :: 0 <= i < |was| ==> ValidAround(path[i], path[i + 1], was[i]))
    && (forall i :: 0 <= i < |was| - 1 ==> was[i] == path[i + 1].repr)
    && (forall i, j :: 0 <= i < j < |path| ==> path[i] != path[j] && path[j] in was[i])
    && forall i, j :: 0 <= i < j < |was| ==> path[i] !in path[j].repr
  }

  lemma AroundSets(a: VmRegion, c: VmRegion, was: set<VmRegion>)
    requires ValidAround(a, c, was)
    ensures was < a.repr && a !in was && c in was && c in a.children
  {
  }

  /** The last region's tree is valid; every other one does not meet what is new in it. */
  ghost predicate Refittable(path: seq<VmRegion>, was: seq<set<VmRegion>>)
    reads Members(path), set a, x | a in path && x in a.repr :: x
  {
    && Awaiting(path, was) && path[|was|].Valid()
    && forall i :: 0 <= i < |was| ==>
         path[i] !in path[|was|].repr && (path[|was|].repr - was[|was| - 1]) !! path[i].repr
  }

  /** The lowest of the others takes the new tree. */
  ghost method RefitLast(path: seq<VmRegion>, was: seq<set<VmRegion>>)
    requires Refittable(path, was) && was != []
    modifies {path[|was| - 1]}`repr
    ensures Refittable(path[..|was|], was[..|was| - 1]) && path[|was|].Valid()
    ensures path[|was|] in path[|was| - 1].children
  {
    hide VmRegion.Valid, ValidAround;
    var last := |was| - 1;
    var a, c := path[last], path[last + 1];
    assert ValidAround(a, c, was[last]);
    AroundSets(a, c, was[last]);
    if last > 0 {
      AroundSets(path[last - 1], a, was[last - 1]);
    }
    Refit(a, c, was[last]);
  }

  /** Bottom up, every region on the path takes the new tree of the next one. */
  ghost method RefitAbove(path: seq<VmRegion>, was: seq<set<VmRegion>>)
    requires Refittable(path, was)
    modifies Members(path[..|was|])`repr
    ensures Chain(path)
    decreases |path|
  {
    hide VmRegion.Valid, ValidAround, Chain;
    if was == [] {
      ChainOfValid(path);
    } else {
      var upper, c := path[..|was|], path[|was|];
      RefitLast(path, was);
      RefitAbove(upper, was[..|was| - 1]);
      ChainExtended(upper, c);
      assert path == upper + [c];
    }
  }

  lemma ChainExtended(path: seq<VmRegion>, c: VmRegion)
    requires Chain(path) && c.Valid() && c in path[|path| - 1].children
    ensures Chain(path + [c])
  {
    hide VmRegion.Valid;
    var longer := path + [c];
    assert forall i :: 0 <= i < |path| ==> longer[i] == path[i];
    ChainOfValid(longer);
  }

  ghost function Trees(path: seq<VmRegion>): seq<set<VmRegion>>
    requires path != []
    reads Members(path)
  {
    seq(|path| - 1, i requires 0 <= i < |path| - 1 reads Members(path) => path[i + 1].repr)
  }

  lemma {:induction false} Nested(path: seq<VmRegion>, i: nat, j: nat)
    requires Chain(path) && i < j < |path|
    ensures path[j].repr <= path[i + 1].repr && path[j].repr < path[i].repr
    ensures path[i] !in path[j].repr && path[i] != path[j] && path[j] in path[i + 1].repr
    ensures path[i + 1] in path[i].children && path[i].Valid()
    decreases j - i
  {
    hide Within;
    assert path[i] in path && path[i].Valid() && path[i + 1] in path && path[i + 1].Valid();
    if i + 1 < j {
      Nested(path, i + 1, j);
    }
  }

  lemma AroundAt(path: seq<VmRegion>, i: nat)
    requires Chain(path) && i < |path| - 1
    ensures ValidAround(path[i], path[i + 1], Trees(path)[i])
  {
    hide ValidAround;
    Nested(path, i, i + 1);
    AroundValid(path[i], path[i + 1]);
  }

  lemma ChainAwaits(path: seq<VmRegion>)
    requires Chain(path)
    ensures Awaiting(path, Trees(path))
  {
    assert path != [];
    hide VmRegion.Valid, ValidAround, Chain, Members;
    forall i | 0 <= i < |path| - 1
      ensures ValidAround(path[i], path[i + 1], Trees(path)[i])
    {
      AroundAt(path, i);
    }
    forall i, j | 0 <= i < j < |path|
      ensures path[i] != path[j] && path[j] in Trees(path)[i] && path[i] !in path[j].repr
    {
      Nested(path, i, j);
    }
  }

  /** The tree of the last region on a path lies below all the others. */
  lemma PathApart(up: seq<VmRegion>, r: VmRegion)
    requires Chain(up + [r])
    ensures r.Valid() && (up != [] ==> r.parent == up[|up| - 1])
    ensures var path := up + [r];
      && Awaiting(path, Trees(path)) && |Trees(path)| == |up| && path[|up|] == r
      && (up != [] ==> Trees(path)[|up| - 1] == r.repr)
      && (forall i :: 0 < i < |path| ==> path[i] in path[i - 1].children)
      && forall i :: 0 <= i < |up| ==>
           path[i] == up[i] && path[i] !in r.repr && path[i] != r && r.repr <= Trees(path)[i]
  {
    var path := up + [r];
    ChainAwaits(path);
    assert path[|up|] == r && r in path;
    hide Awaiting;
    forall i | 0 <= i < |up|
      ensures path[i] == up[i] && path[i] !in r.repr && path[i] != r && r.repr <= Trees(path)[i]
    {
      Nested(path, i, |up|);
    }
    if up != [] {
      Nested(path, |up| - 1, |up|);
    }
  }

  lemma ChainOfValid(path: seq<VmRegion>)
    requires path != [] && forall i :: 0 <= i < |path| ==> path[i].Valid()
    requires forall i :: 0 < i < |path| ==> path[i] in path[i - 1].children
    ensures Chain(path)
  {
    hide VmRegion.Valid;
  }

  lemma InPath(up: seq<VmRegion>, r: VmRegion)
    requires Chain(up + [r])
    ensures r.Valid() && !r.dangling
  {
    assert (up + [r])[|up|] == r;
  }

  lemma ChildChain(path: seq<VmRegion>, child: VmRegion)
    requires Chain(path) && child in path[|path| - 1].children
    ensures Chain(path + [child]) && child.parent == path[|path| - 1] && path[|path| - 1].Valid()
    ensures ValidAround(path[|path| - 1], child, child.repr)
  {
    hide Within, Apart, Covers, ValidAround;
    var r := path[|path| - 1];
    assert r in path && r.Valid() && child.Valid();
    AroundValid(r, child);
    ChainExtended(path, child);
  }

  ghost predicate Apart(cs: seq<VmRegion>)
    reads cs
  {
    forall i, j :: 0 <= i < j < |cs| ==> cs[i].repr !! cs[j].repr
  }

  ghost predicate Covers(cs: seq<VmRegion>, all: set<VmRegion>)
    reads cs
  {
    forall d :: d in all ==> Covered(cs, d)
  }

  ghost predicate Covered(cs: seq<VmRegion>, d: VmRegion)
    reads cs
  {
    exists i :: 0 <= i < |cs| && d in cs[i].repr
  }

  lemma FirstApart(cs: seq<VmRegion>)
    requires Apart(cs) && cs != []
    ensures forall c :: c in cs[1..] ==> c in cs && c.repr !! cs[0].repr
    ensures Apart(cs[1..])
  {
  }

  lemma InsertMembers(cs: seq<VmRegion>, i: nat, x: VmRegion)
    requires i <= |cs|
    ensures forall c :: c in LinkedList.Insert(cs, i, x) <==> c == x || c in cs
  {
    var cs' := LinkedList.Insert(cs, i, x);
    assert cs'[i] == x;
    assert forall k :: 0 <= k < |cs| ==> cs[k] == cs'[if k < i then k else k + 1];
  }

  lemma ApartAfterInsert(cs: seq<VmRegion>, i: nat, x: VmRegion)
    requires i <= |cs| && Apart(cs) && forall c :: c in cs ==> c.repr !! x.repr
    ensures Apart(LinkedList.Insert(cs, i, x))
  {
    var cs' := LinkedList.Insert(cs, i, x);
    forall j, k | 0 <= j < k < |cs'|
      ensures cs'[j].repr !! cs'[k].repr
    {
      assert cs'[j] == if j < i then cs[j] else if j == i then x else cs[j - 1];
      assert cs'[k] == if k < i then cs[k] else if k == i then x else cs[k - 1];
    }
  }

  lemma CoveredAfterInsert(cs: seq<VmRegion>, i: nat, x: VmRegion, all: set<VmRegion>)
    requires i <= |cs| && Covers(cs, all)
    ensures Covers(LinkedList.Insert(cs, i, x), all + x.repr)
  {
    var cs' := LinkedList.Insert(cs, i, x);
    assert cs'[i] == x;
    forall d | d in all
      ensures Covered(cs', d)
    {
      assert Covered(cs, d);
      var k :| 0 <= k < |cs| && d in cs[k].repr;
      assert cs'[if k < i then k else k + 1] == cs[k];
    }
  }

  /** The flags given to a new region. */
  lemma NewFlags(wanted: bv8, flags: bv8)
    ensures var f := Set(Set(Set(0, TYPE, REGION), CAPABILITY, Get(wanted, CAPABILITY)), IS_ROOT, 0);
            && f == wanted & 0xF
            && Get(f, CAPABILITY) == Get(wanted, CAPABILITY) && Get(f, TYPE) == REGION && Get(f, IS_ROOT) == 0
            && (Within(wanted, flags) ==> Within(f, flags))
  {
  }

  /** The tests on the flags, in the words themselves: bits 0 to 3 are the capabilities, bit 4 the
      type. */
  lemma FlagTests(wanted: bv8, flags: bv8)
    ensures Within(wanted, flags) <==> wanted & !flags & 0xF == 0
    ensures Get(wanted, TYPE) == REGION <==> wanted & 0x10 == 0
  {
  }

  /** Down any chain of regions the capabilities only shrink. */
  lemma {:induction false} CapabilitiesShrink(chain: seq<VmRegion>)
    requires chain != [] && forall i :: 0 <= i < |chain| ==> chain[i].Valid()
    requires forall i :: 0 < i < |chain| ==> chain[i] in chain[i - 1].children
    ensures Within(chain[|chain| - 1].flags, chain[0].flags)
  {
    if |chain| > 1 {
      var up := chain[..|chain| - 1];
      CapabilitiesShrink(up);
      WithinIsTransitive(chain[|chain| - 1].flags, up[|up| - 1].flags, chain[0].flags);
    }
  }
}
