/** Which object each handle and each list has after an operation, and how the number of
    references to every object changes (lib/ebl/memory.h, lib/ebl/linked_list.h). */
module RefMeaning {
  import opened Wrappers
  import opened RefCount
  import LinkedList

  /** The handles of a world other than h and g are as before. */
  predicate OthersKept(w: World, w': World, h: Handle, g: Handle) {
    && (forall x :: x in w.handles && x != h && x != g ==> x in w'.handles && w'.handles[x] == w.handles[x])
    && forall x :: x in w'.handles && x != h && x != g ==> x in w.handles
  }

  /** A new object has one handle. */
  lemma MakeMeans(w: World, h: Handle, o: Obj)
    requires Enabled(w, Make(h, o))
    ensures var w' := Step(w, Make(h, o));
            && w'.handles == w.handles[h := Some(o)] && w'.lists == w.lists && w'.alive == w.alive + {o}
  {
    hide Census, Listed;
  }

  /** A copy refers to the same object, or is null as well. */
  lemma CopyMeans(w: World, h: Handle, from: Handle)
    requires Enabled(w, Copy(h, from))
    ensures var w' := Step(w, Copy(h, from));
            && w'.handles == w.handles[h := w.handles[from]] && w'.lists == w.lists
            && w'.alive == w.alive && w'.destroyed == w.destroyed
    ensures forall o: Obj ::
              Census(Step(w, Copy(h, from)), o) == Census(w, o) + if w.handles[from] == Some(o) then 1 else 0
  {
    hide Census, Listed;
    forall o: Obj
      ensures Census(Step(w, Copy(h, from)), o) == Census(w, o) + if w.handles[from] == Some(o) then 1 else 0
    {
      CensusAfterSet(w, h, w.handles[from], o);
    }
  }

  /** A move takes the object over and leaves null; nothing is counted. */
  lemma MoveMeans(w: World, h: Handle, from: Handle)
    requires Enabled(w, Move(h, from))
    ensures var w' := Step(w, Move(h, from));
            && h in w'.handles && w'.handles[h] == w.handles[from] && w'.handles[from] == None
            && OthersKept(w, w', h, from) && w'.lists == w.lists && w'.alive == w.alive && w'.destroyed == w.destroyed
    ensures forall o: Obj :: Census(Step(w, Move(h, from)), o) == Census(w, o)
  {
    hide Census, Listed;
    forall o: Obj
      ensures Census(Step(w, Move(h, from)), o) == Census(w, o)
    {
      CensusAfterSet(w, h, w.handles[from], o);
      CensusAfterSet(SetHandle(w, h, w.handles[from]), from, None, o);
    }
  }

  /** Reaping changes no reference. */
  lemma ReapKeepsReferences(w: World, p: Option<Obj>, o: Obj)
    ensures var w' := ReapAny(w, p);
            && w'.handles == w.handles && w'.lists == w.lists && w'.broken == w.broken
            && Census(w', o) == Census(w, o)
  {
    hide Census, Listed;
    SameReferences(w, ReapAny(w, p), o);
  }

  /** After an assignment both handles refer to the object of the right-hand one. */
  lemma CopyAssignMeans(w: World, h: Handle, from: Handle, o: Obj)
    requires Enabled(w, CopyAssign(h, from))
    ensures var w' := Step(w, CopyAssign(h, from));
            && w'.handles == w.handles[h := w.handles[from]] && w'.lists == w.lists
            && Census(w', o) == Census(w, o) + (if w.handles[from] == Some(o) then 1 else 0)
                                - if w.handles[h] == Some(o) then 1 else 0
  {
    hide Census, Listed;
    CensusAfterSet(w, h, w.handles[from], o);
    ReapKeepsReferences(SetHandle(w, h, w.handles[from]), w.handles[h], o);
  }

  /** A move assignment takes the object over, gives up the old one, and leaves null; onto itself
      it changes nothing. */
  lemma MoveAssignMeans(w: World, h: Handle, from: Handle, o: Obj)
    requires Enabled(w, MoveAssign(h, from))
    ensures h == from ==> Step(w, MoveAssign(h, from)) == w
    ensures h != from ==>
              var w' := Step(w, MoveAssign(h, from));
              && h in w'.handles && from in w'.handles && w'.handles[h] == w.handles[from] && w'.handles[from] == None
              && OthersKept(w, w', h, from) && w'.lists == w.lists
              && Census(w', o) == Census(w, o) - if w.handles[h] == Some(o) then 1 else 0
  {
    hide Census, Listed;
    if h != from {
      var w1 := SetHandle(w, h, w.handles[from]);
      CensusAfterSet(w, h, w.handles[from], o);
      CensusAfterSet(w1, from, None, o);
      ReapKeepsReferences(SetHandle(w1, from, None), w.handles[h], o);
    }
  }

  lemma DropMeans(w: World, h: Handle, o: Obj)
    requires Enabled(w, Drop(h))
    ensures var w' := Step(w, Drop(h));
            && w'.handles == w.handles - {h} && w'.lists == w.lists
            && Census(w', o) == Census(w, o) - if w.handles[h] == Some(o) then 1 else 0
  {
    hide Census, Listed;
    CensusAfterDrop(w, h, o);
    ReapKeepsReferences(w.(handles := w.handles - {h}), w.handles[h], o);
  }

  /** The object of the handle goes to its place in the list, and the handle ends. */
  lemma PushMeans(w: World, l: ListId, at: nat, h: Handle)
    requires Enabled(w, Push(l, at, h))
    ensures var (w', s) := (Step(w, Push(l, at, h)), w.lists[l]);
            && w'.handles == w.handles - {h}
            && w'.lists == w.lists[l := s[..at] + [w.handles[h].value] + s[at..]]
            && w'.alive == w.alive && w'.destroyed == w.destroyed && w'.broken == w.broken
  {
    hide Census, Listed;
  }

  /** The new handle has the object that leaves the list. */
  lemma PopMeans(w: World, l: ListId, at: nat, h: Handle)
    requires Enabled(w, Pop(l, at, h))
    ensures var (w', s) := (Step(w, Pop(l, at, h)), w.lists[l]);
            && w'.handles == w.handles[h := Some(s[at])] && w'.lists == w.lists[l := s[..at] + s[at + 1..]]
            && w'.alive == w.alive && w'.destroyed == w.destroyed && w'.broken == w.broken
  {
    hide Census, Listed;
  }

  /** The object of the handle leaves the list; the handle keeps it. */
  lemma RemoveMeans(w: World, l: ListId, h: Handle)
    requires Valid(w) && Enabled(w, Remove(l, h))
    ensures var (w', s, o) := (Step(w, Remove(l, h)), w.lists[l], w.handles[h].value);
            && w'.handles == w.handles && w'.alive == w.alive && w'.destroyed == w.destroyed
            && l in w'.lists && w'.lists.Keys == w.lists.Keys
            && (forall m :: m in w.lists && m != l ==> w'.lists[m] == w.lists[m])
            && o !in w'.lists[l] && |w'.lists[l]| == |s| - 1
            && exists i :: 0 <= i < |s| && s[i] == o && w'.lists[l] == s[..i] + s[i + 1..]
  {
    hide Census, Listed;
    var s, o := w.lists[l], w.handles[h].value;
    var i := IndexOf(s, o);
    assert Distinct(s) && Step(w, Remove(l, h)).lists[l] == s[..i] + s[i + 1..];
  }

  lemma PeekMeans(w: World, l: ListId, at: nat, h: Handle)
    requires Enabled(w, Peek(l, at, h))
    ensures var w' := Step(w, Peek(l, at, h));
            && w'.handles == w.handles[h := Some(w.lists[l][at])] && w'.lists == w.lists
            && w'.alive == w.alive && w'.destroyed == w.destroyed && w'.broken == w.broken
  {
    hide Census, Listed;
  }

  /** What is pushed and popped again is the same object, and nothing else has changed. */
  lemma PushThenPop(w: World, l: ListId, at: nat, h: Handle)
    requires Enabled(w, Push(l, at, h))
    ensures Enabled(Step(w, Push(l, at, h)), Pop(l, at, h))
    ensures Step(Step(w, Push(l, at, h)), Pop(l, at, h)) == w
  {
    hide Census, Listed;
    var w1 := Step(w, Push(l, at, h));
    var w2 := Step(w1, Pop(l, at, h));
    PushMeans(w, l, at, h);
    PopMeans(w1, l, at, h);
    assert w2.lists[l] == w.lists[l];
    assert w2.handles == w.handles && w2.lists == w.lists;
  }
}
