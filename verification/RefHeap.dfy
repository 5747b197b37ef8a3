/** The counts themselves: each operation on handles and lists updates counts the way the code
    does, and ends with every count equal to the number of references
    (lib/ebl/memory.h, lib/ebl/linked_list.h). */
module RefHeaps {
  import opened Wrappers
  import opened RefCount
  import LinkedList

  class RefHeap {
    var count: map<Obj, int>
    var handles: map<Handle, Option<Obj>>
    var lists: map<ListId, seq<Obj>>
    var destroyed: seq<Obj>
    ghost var broken: set<ListId>

    ghost function Abs(): World
      reads this
    {
      World(handles, lists, count.Keys, destroyed, broken)
    }

    /** Every living object's count is the number of references to it. */
    ghost predicate Counted()
      reads this
    {
      Valid(Abs()) && forall o :: o in count ==> count[o] == Census(Abs(), o)
    }

    /** As Counted, but p still has the count of a reference that is gone. */
    ghost predicate Excess(p: Option<Obj>)
      reads this
    {
      && ValidBut(Abs(), p) && (p.Some? ==> p.value in count)
      && forall o :: o in count ==> count[o] == Census(Abs(), o) + if p == Some(o) then 1 else 0
    }

    method AddRef(o: Obj)
      requires o in count
      modifies this`count
      ensures count == old(count)[o := old(count)[o] + 1]
    {
      count := count[o := count[o] + 1];
    }

    /** True if this was the last reference. */
    method Release(o: Obj) returns (last: bool)
      requires o in count
      modifies this`count
      ensures count == old(count)[o := old(count)[o] - 1]
      ensures last <==> old(count)[o] == 1
    {
      var ref := count[o];
      count := count[o := ref - 1];
      last := ref == 1;
    }

    /** RefPtr::destroy */
    method DestroyPtr(p: Option<Obj>)
      requires Excess(p)
      modifies this`count, this`destroyed
      ensures Counted() && Abs() == ReapAny(old(Abs()), p)
    {
      hide Census, Valid, ValidBut;
      ghost var w := Abs();
      ReapIsValid(w, p);
      if p.Some? {
        var last := Release(p.value);
        if last {
          count := count - {p.value};
          destroyed := destroyed + [p.value];
        }
      }
      forall o | o in count
        ensures Census(Abs(), o) == Census(w, o)
      {
        SameReferences(w, Abs(), o);
      }
      assert count.Keys == ReapAny(w, p).alive;
    }

    // ----- RefPtr

    method MakeRef(h: Handle, o: Obj)
      requires Counted() && Enabled(Abs(), Make(h, o))
      modifies this
      ensures Counted() && Abs() == Step(old(Abs()), Make(h, o))
      ensures handles == old(handles)[h := Some(o)] && lists == old(lists) && count == old(count)[o := 1]
    {
      hide Census, Valid;
      ghost var w := Abs();
      StepIsValid(w, Make(h, o));
      count := count[o := 1];
      handles := handles[h := Some(o)];
      assert count.Keys == w.alive + {o};
      NoneYet(w, o);
      forall x: Obj | x in count
        ensures Census(Abs(), x) == Census(w, x) + if x == o then 1 else 0
      {
        CensusAfterSet(w, h, Some(o), x);
        SameReferences(SetHandle(w, h, Some(o)), Abs(), x);
      }
    }

    /** Nothing refers to an object that is not alive. */
    lemma NoneYet(w: World, o: Obj)
      requires Valid(w) && o !in w.alive
      ensures Census(w, o) == 0
    {
    }

    method CopyConstruct(h: Handle, from: Handle)
      requires Counted() && Enabled(Abs(), Copy(h, from))
      modifies this`handles, this`count
      ensures Counted() && Abs() == Step(old(Abs()), Copy(h, from))
      ensures handles == old(handles)[h := old(handles)[from]] && lists == old(lists)
      ensures old(handles)[from].None? ==> count == old(count)
      ensures old(handles)[from].Some? ==>
                var o := old(handles)[from].value; o in old(count) && count == old(count)[o := old(count)[o] + 1]
    {
      hide Census, Valid;
      ghost var w := Abs();
      StepIsValid(w, Copy(h, from));
      LivingTarget(w, from);
      handles := handles[h := handles[from]];
      if handles[h].Some? {
        AddRef(handles[h].value);
      }
      SetCounted(w, h, handles[h]);
      assert count.Keys == w.alive;
    }

    /** The census after one handle is set. */
    lemma SetCounted(w: World, h: Handle, p: Option<Obj>)
      requires Abs().handles == w.handles[h := p] && Abs().lists == w.lists
      ensures forall o :: o in count ==>
                Census(Abs(), o) == Census(w, o) - Points(w, h, o) + if p == Some(o) then 1 else 0
    {
      forall o | o in count
        ensures Census(Abs(), o) == Census(w, o) - Points(w, h, o) + if p == Some(o) then 1 else 0
      {
        CensusAfterSet(w, h, p, o);
        SameReferences(SetHandle(w, h, p), Abs(), o);
      }
    }

    method MoveConstruct(h: Handle, from: Handle)
      requires Counted() && Enabled(Abs(), Move(h, from))
      modifies this`handles
      ensures Counted() && Abs() == Step(old(Abs()), Move(h, from))
      ensures handles[h] == old(handles)[from] && handles[from] == None && lists == old(lists) && count == old(count)
    {
      hide Census, Valid;
      ghost var w := Abs();
      StepIsValid(w, Move(h, from));
      handles := handles[h := handles[from]];
      SetCounted(w, h, handles[from]);
      ghost var w1 := Abs();
      handles := handles[from := None];
      SetCounted(w1, from, None);
    }

    method CopyAssignment(h: Handle, from: Handle)
      requires Counted() && Enabled(Abs(), CopyAssign(h, from))
      modifies this
      ensures Counted() && Abs() == Step(old(Abs()), CopyAssign(h, from))
      ensures handles == old(handles)[h := old(handles)[from]] && lists == old(lists)
    {
      hide Census, Valid, ValidBut;
      ghost var w := Abs();
      LivingTarget(w, from);
      LivingTarget(w, h);
      if handles[from].Some? {
        AddRef(handles[from].value);
      }
      var was := handles[h];
      handles := handles[h := handles[from]];
      SetHandleIsValid(w, h, w.handles[from]);
      SetCounted(w, h, w.handles[from]);
      assert Abs() == SetHandle(w, h, w.handles[from]);
      DestroyPtr(was);
    }

    /** A temporary takes the pointer of from, is swapped with this handle and destroyed. */
    method MoveAssignment(h: Handle, from: Handle)
      requires Counted() && Enabled(Abs(), MoveAssign(h, from))
      modifies this
      ensures Counted() && Abs() == Step(old(Abs()), MoveAssign(h, from))
      ensures h == from ==> handles == old(handles)
      ensures h != from ==> handles[h] == old(handles)[from] && handles[from] == None && lists == old(lists)
    {
      hide Census, Valid, ValidBut;
      ghost var w := Abs();
      LivingTarget(w, h);
      var temp := handles[from];
      handles := handles[from := None];
      SetCounted(w, from, None);
      ghost var w1 := Abs();
      var was := handles[h];
      handles := handles[h := temp];
      SetCounted(w1, h, temp);
      if h != from {
        MoveIsValid(w, h, from);
        assert Abs() == SetHandle(SetHandle(w, h, temp), from, None);
      } else {
        assert handles == w.handles;
        NothingLost(w);
      }
      DestroyPtr(was);
    }

    lemma NothingLost(w: World)
      requires Valid(w)
      ensures ValidBut(w, None)
    {
    }

    method Destruct(h: Handle)
      requires Counted() && h in handles
      modifies this
      ensures Counted() && Abs() == Step(old(Abs()), Drop(h))
      ensures handles == old(handles) - {h} && lists == old(lists)
    {
      hide Census, Valid, ValidBut;
      ghost var w := Abs();
      LivingTarget(w, h);
      DropIsValid(w, h);
      var was := handles[h];
      handles := handles - {h};
      forall o | o in count
        ensures Census(Abs(), o) == Census(w, o) - Points(w, h, o)
      {
        CensusAfterDrop(w, h, o);
      }
      DestroyPtr(was);
    }

    // ----- lists of RefPtr

    /** The census after one list is changed. */
    lemma ListCounted(w: World, l: ListId, s: seq<Obj>)
      requires Valid(w) && l in w.lists && Distinct(s)
      requires forall o :: o in s && o !in w.lists[l] ==> !Listed(w, o)
      requires Abs().handles == w.handles && Abs().lists == w.lists[l := s]
      ensures forall o :: o in count ==>
                Census(Abs(), o) == Census(w, o) + (if o in s then 1 else 0) - if o in w.lists[l] then 1 else 0
    {
      hide Census, Listed;
      ListIsValid(w, l, s);
      forall o | o in count
        ensures Census(Abs(), o) == Census(SetList(w, l, s), o)
      {
        SameReferences(SetList(w, l, s), Abs(), o);
      }
    }

    /** The parameter of push_front, push_back and insert_before is a handle of its own, which
        ends with the call. */
    method PushAt(l: ListId, at: nat, h: Handle)
      requires Counted() && Enabled(Abs(), Push(l, at, h))
      modifies this
      ensures Counted() && Abs() == Step(old(Abs()), Push(l, at, h))
      ensures handles == old(handles) - {h} && count == old(count)
      ensures var s := old(lists)[l]; lists == old(lists)[l := s[..at] + [old(handles)[h].value] + s[at..]]
    {
      hide Census, Listed, Valid, ValidBut;
      ghost var w := Abs();
      var o := handles[h].value;
      LivingTarget(w, h);
      PushIsValid(w, l, at, h);
      PushUnlisted(w, l, at, o);
      AddRef(o);
      lists := lists[l := LinkedList.Insert(lists[l], at, o)];
      ListCounted(w, l, lists[l]);
      ghost var w1 := Abs();
      handles := handles - {h};
      forall x | x in count
        ensures Census(Abs(), x) == Census(w1, x) - Points(w1, h, x)
      {
        CensusAfterDrop(w1, h, x);
      }
      assert Abs() == Step(w, Push(l, at, h));
      StillReferenced(Abs(), l, o);
      NothingLostBut(Abs(), o);
      DestroyPtr(Some(o));
    }

    lemma PushUnlisted(w: World, l: ListId, at: nat, o: Obj)
      requires Valid(w) && l in w.lists && at <= |w.lists[l]| && !Listed(w, o)
      ensures o !in w.lists[l] && Distinct(LinkedList.Insert(w.lists[l], at, o))
      ensures forall x :: x in LinkedList.Insert(w.lists[l], at, o) <==> x == o || x in w.lists[l]
    {
      assert o !in w.lists[l];
      DistinctInsert(w.lists[l], at, o);
    }

    lemma StillReferenced(w: World, l: ListId, o: Obj)
      requires l in w.lists && o in w.lists[l]
      ensures Census(w, o) > 0
    {
      assert Listed(w, o);
    }

    lemma NothingLostBut(w: World, o: Obj)
      requires Valid(w) && Census(w, o) > 0
      ensures ValidBut(w, Some(o)) && ReapAny(w, Some(o)) == w && o in w.alive
    {
    }

    method PushFront(l: ListId, h: Handle)
      requires Counted() && Enabled(Abs(), Push(l, 0, h))
      modifies this
      ensures Counted() && Abs() == Step(old(Abs()), Push(l, 0, h))
    {
      PushAt(l, 0, h);
    }

    method PushBack(l: ListId, h: Handle)
      requires Counted() && l in lists && Enabled(Abs(), Push(l, |lists[l]|, h))
      modifies this
      ensures Counted() && Abs() == Step(old(Abs()), Push(l, |old(lists)[l]|, h))
    {
      PushAt(l, |lists[l]|, h);
    }

    /** insert_before.  With a null insertion point nothing is inserted but the list's reference
        is counted all the same, so the object is never destroyed; an empty list is broken, its
        root set to a node that is not linked. */
    method InsertBefore(l: ListId, inspt: Option<Obj>, h: Handle)
      requires Counted() && Enabled(Abs(), Push(l, 0, h)) && (inspt.Some? ==> inspt.value in lists[l])
      modifies this
      ensures inspt.Some? ==>
                && Counted() && old(Enabled(Abs(), Push(l, IndexOf(lists[l], inspt.value), h)))
                && Abs() == Step(old(Abs()), Push(l, IndexOf(old(lists)[l], inspt.value), h))
      ensures inspt.None? ==>
                && lists == old(lists) && handles == old(handles) - {h} && destroyed == old(destroyed)
                && broken == old(broken) + (if old(lists)[l] == [] then {l} else {})
                && !Counted()
                && var o := old(handles)[h].value; o in count && count[o] == Census(Abs(), o) + 1
    {
      if inspt.Some? {
        PushAt(l, IndexOf(lists[l], inspt.value), h);
      } else {
        hide Census, Listed, Valid;
        var o := handles[h].value;
        ghost var w := Abs();
        LivingTarget(w, h);
        AddRef(o);
        if lists[l] == [] {
          broken := broken + {l};
        }
        handles := handles - {h};
        CensusAfterDrop(w, h, o);
        SameReferences(w.(handles := w.handles - {h}), Abs(), o);
        StillHeld(w, h, o);
        // The parameter's handle ends; its release is not the last, so nothing is destroyed
        var last := Release(o);
        assert !last;
        assert count[o] != Census(Abs(), o);
      }
    }

    lemma StillHeld(w: World, h: Handle, o: Obj)
      requires h in w.handles && w.handles[h] == Some(o)
      ensures Census(w, o) >= 1
    {
      HolderCounts(w, h, o);
    }

    /** The place of an object's reference in a list is given up before the new handle takes its
        own: the count may be zero in between, and the answer of release is not looked at. */
    method PopAt(l: ListId, at: nat, h: Handle)
      requires Counted() && Enabled(Abs(), Pop(l, at, h))
      modifies this`lists, this`handles, this`count
      ensures Counted() && Abs() == Step(old(Abs()), Pop(l, at, h)) && destroyed == old(destroyed)
      ensures var s := old(lists)[l];
              && handles == old(handles)[h := Some(s[at])] && lists == old(lists)[l := s[..at] + s[at + 1..]]
              && count == old(count)
    {
      hide Census, Listed, Valid;
      ghost var w := Abs();
      var o := lists[l][at];
      ListsHoldLiving(w, l, at);
      PopIsValid(w, l, at, h);
      RemovedOnce(w, l, at);
      lists := lists[l := LinkedList.Remove(lists[l], at)];
      ListCounted(w, l, lists[l]);
      ghost var w1 := Abs();
      var ignored := Release(o);
      handles := handles[h := Some(o)];
      AddRef(o);
      SetCounted(w1, h, Some(o));
      assert count.Keys == w.alive;
    }

    lemma RemovedOnce(w: World, l: ListId, at: nat)
      requires Valid(w) && l in w.lists && at < |w.lists[l]|
      ensures Distinct(LinkedList.Remove(w.lists[l], at))
      ensures forall x :: x in LinkedList.Remove(w.lists[l], at) <==> x in w.lists[l] && x != w.lists[l][at]
    {
      DistinctRemove(w.lists[l], at);
    }

    method PopFront(l: ListId, h: Handle)
      requires Counted() && Enabled(Abs(), Pop(l, 0, h))
      modifies this`lists, this`handles, this`count
      ensures Counted() && Abs() == Step(old(Abs()), Pop(l, 0, h)) && destroyed == old(destroyed)
    {
      PopAt(l, 0, h);
    }

    method PopBack(l: ListId, h: Handle)
      requires Counted() && l in lists && lists[l] != [] && Enabled(Abs(), Pop(l, |lists[l]| - 1, h))
      modifies this`lists, this`handles, this`count
      ensures Counted() && Abs() == Step(old(Abs()), Pop(l, |old(lists)[l]| - 1, h)) && destroyed == old(destroyed)
    {
      PopAt(l, |lists[l]| - 1, h);
    }

    method RemoveObject(l: ListId, h: Handle)
      requires Counted() && Enabled(Abs(), Remove(l, h))
      modifies this`lists, this`count, this`broken
      ensures Counted() && Abs() == Step(old(Abs()), Remove(l, h)) && destroyed == old(destroyed)
      ensures handles == old(handles)
      ensures var o := old(handles)[h].value;
              o in old(count) && count == old(count)[o := old(count)[o] - 1] && o !in lists[l]
    {
      hide Census, Listed, Valid;
      ghost var w := Abs();
      var o := handles[h].value;
      var at := IndexOf(lists[l], o);
      LivingTarget(w, h);
      RemoveIsValid(w, l, h);
      RemovedOnce(w, l, at);
      if |lists[l]| == 1 {
        broken := broken + {l};
      }
      lists := lists[l := LinkedList.Remove(lists[l], at)];
      ListCounted(w, l, lists[l]);
      var ignored := Release(o);
      assert count.Keys == w.alive;
      assert broken == w.broken + if |w.lists[l]| == 1 then {l} else {};
    }

    method First(l: ListId, h: Handle)
      requires Counted() && Enabled(Abs(), Peek(l, 0, h))
      modifies this`handles, this`count
      ensures Counted() && Abs() == Step(old(Abs()), Peek(l, 0, h))
      ensures var o := old(lists)[l][0];
              && handles == old(handles)[h := Some(o)] && lists == old(lists)
              && o in old(count) && count == old(count)[o := old(count)[o] + 1]
    {
      hide Census, Listed, Valid;
      ghost var w := Abs();
      StepIsValid(w, Peek(l, 0, h));
      ListsHoldLiving(w, l, 0);
      var o := lists[l][0];
      handles := handles[h := Some(o)];
      AddRef(o);
      SetCounted(w, h, Some(o));
      assert count.Keys == w.alive;
    }

    /** ~IntrusiveList: each object is popped into a temporary handle, which then ends. */
    method ClearList(l: ListId, temp: Handle)
      requires Counted() && l in lists && l !in broken && temp !in handles
      modifies this
      ensures Counted() && handles == old(handles) && lists == old(lists)[l := []] && broken == old(broken)
      ensures forall o :: o in count <==> o in old(count) && Census(Abs(), o) > 0
    {
      hide Census, Listed, Valid;
      while lists[l] != []
        invariant Counted() && l in lists && handles == old(handles) && broken == old(broken)
        invariant lists == old(lists)[l := lists[l]]
        invariant count.Keys <= old(count).Keys
        decreases |lists[l]|
      {
        PopAndDrop(l, temp);
      }
      AliveIsReferenced(Abs());
    }

    method PopAndDrop(l: ListId, temp: Handle)
      requires Counted() && l in lists && l !in broken && lists[l] != [] && temp !in handles
      modifies this
      ensures Counted() && handles == old(handles) && lists == old(lists)[l := old(lists)[l][1..]]
      ensures broken == old(broken)
      ensures count.Keys <= old(count).Keys
    {
      hide Census, Listed, Valid;
      ghost var w := Abs();
      PopFront(l, temp);
      assert LinkedList.Remove(w.lists[l], 0) == w.lists[l][1..];
      ghost var w1 := Abs();
      Destruct(temp);
      assert Abs().alive <= w1.alive == w.alive;
      assert handles == w.handles;
    }

    lemma AliveIsReferenced(w: World)
      requires Valid(w)
      ensures forall o :: o in w.alive <==> Census(w, o) > 0
    {
    }
  }
}
