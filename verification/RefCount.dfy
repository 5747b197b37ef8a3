/** Reference counts: RefPtr handles and lists of RefPtr that share intrusively counted objects
    (lib/ebl/memory.h, lib/ebl/linked_list.h). */
module RefCount {
  import opened Wrappers
  import LinkedList

  type Obj = nat
  type Handle = nat
  type ListId = nat

  /** Who refers to what.  There are no counts here: which objects are alive is to follow from
      the handles and the lists alone.  A broken list is one whose root was left at a node that
      is not linked. */
  datatype World = World(
    handles: map<Handle, Option<Obj>>,
    lists: map<ListId, seq<Obj>>,
    alive: set<Obj>,
    destroyed: seq<Obj>,
    broken: set<ListId>)

  function Holders(w: World, o: Obj): set<Handle> {
    set h | h in w.handles && w.handles[h] == Some(o)
  }

  predicate Listed(w: World, o: Obj) {
    exists l :: l in w.lists && o in w.lists[l]
  }

  /** The handles that point at an object and the list it is in. */
  function Census(w: World, o: Obj): nat {
    |Holders(w, o)| + if Listed(w, o) then 1 else 0
  }

  predicate Distinct(s: seq<Obj>) {
    forall i, j :: 0 <= i < j < |s| ==> s[i] != s[j]
  }

  /** Objects are alive exactly while something refers to them, each was destroyed at most
      once, and no object is in two lists or twice in one. */
  ghost predicate Valid(w: World) {
    && (forall o :: o in w.alive <==> Census(w, o) > 0)
    && Distinct(w.destroyed) && (forall o :: o in w.destroyed ==> o !in w.alive)
    && (forall l :: l in w.lists ==> Distinct(w.lists[l]))
    && forall l, m :: l in w.lists && m in w.lists && l != m ==>
         forall o :: o in w.lists[l] ==> o !in w.lists[m]
  }

  // ----- what the operations mean

  /** An object that nothing refers to any more is destroyed. */
  function Reap(w: World, o: Obj): World {
    if o in w.alive && Census(w, o) == 0 then w.(alive := w.alive - {o}, destroyed := w.destroyed + [o]) else w
  }

  function ReapAny(w: World, ptr: Option<Obj>): World {
    if ptr.Some? then Reap(w, ptr.value) else w
  }

  function SetHandle(w: World, h: Handle, ptr: Option<Obj>): World {
    w.(handles := w.handles[h := ptr])
  }

  function SetList(w: World, l: ListId, s: seq<Obj>): World {
    w.(lists := w.lists[l := s])
  }

  function DropHandle(w: World, h: Handle): World
    requires h in w.handles
  {
    ReapAny(w.(handles := w.handles - {h}), w.handles[h])
  }

  datatype Op =
    | Make(h: Handle, o: Obj)                      // MakeRefPtr, AdoptRef
    | Copy(h: Handle, from: Handle)                // copy constructor
    | Move(h: Handle, from: Handle)                // move constructor
    | CopyAssign(h: Handle, from: Handle)
    | MoveAssign(h: Handle, from: Handle)
    | Drop(h: Handle)                              // destructor
    | Push(l: ListId, at: nat, h: Handle)          // push_front, push_back, insert_before
    | Pop(l: ListId, at: nat, h: Handle)           // pop_front, pop_back into a new handle
    | Remove(l: ListId, h: Handle)                 // remove the object of a handle
    | Peek(l: ListId, at: nat, h: Handle)          // first, last into a new handle

  /** Nothing is defined for a broken list. */
  predicate Enabled(w: World, op: Op) {
    match op
    case Make(h, o) => h !in w.handles && o !in w.alive && o !in w.destroyed
    case Copy(h, from) => h !in w.handles && from in w.handles
    case Move(h, from) => h !in w.handles && from in w.handles
    case CopyAssign(h, from) => h in w.handles && from in w.handles
    case MoveAssign(h, from) => h in w.handles && from in w.handles
    case Drop(h) => h in w.handles
    case Push(l, at, h) =>
      && l in w.lists && l !in w.broken && at <= |w.lists[l]| && h in w.handles && w.handles[h].Some?
      && !Listed(w, w.handles[h].value)
    case Pop(l, at, h) => l in w.lists && l !in w.broken && at < |w.lists[l]| && h !in w.handles
    case Remove(l, h) =>
      l in w.lists && l !in w.broken && h in w.handles && w.handles[h].Some? && w.handles[h].value in w.lists[l]
    case Peek(l, at, h) => l in w.lists && l !in w.broken && at < |w.lists[l]| && h !in w.handles
  }

  function IndexOf(s: seq<Obj>, o: Obj): (i: nat)
    requires o in s
    ensures i < |s| && s[i] == o
  {
    if s[0] == o then 0 else 1 + IndexOf(s[1..], o)
  }

  /** The effect of an operation on who refers to what, and what dies of it. */
  function Step(w: World, op: Op): World
    requires Enabled(w, op)
  {
    match op
    case Make(h, o) => SetHandle(w, h, Some(o)).(alive := w.alive + {o})
    case Copy(h, from) => SetHandle(w, h, w.handles[from])
    case Move(h, from) => SetHandle(SetHandle(w, h, w.handles[from]), from, None)
    case CopyAssign(h, from) => ReapAny(SetHandle(w, h, w.handles[from]), w.handles[h])
    case MoveAssign(h, from) =>
      if h == from then w
      else ReapAny(SetHandle(SetHandle(w, h, w.handles[from]), from, None), w.handles[h])
    case Drop(h) => DropHandle(w, h)
    case Push(l, at, h) =>
      SetList(w.(handles := w.handles - {h}), l, LinkedList.Insert(w.lists[l], at, w.handles[h].value))
    case Pop(l, at, h) => SetHandle(SetList(w, l, LinkedList.Remove(w.lists[l], at)), h, Some(w.lists[l][at]))
    case Remove(l, h) =>
      SetList(w, l, LinkedList.Remove(w.lists[l], IndexOf(w.lists[l], w.handles[h].value)))
      .(broken := w.broken + if |w.lists[l]| == 1 then {l} else {})
    case Peek(l, at, h) => SetHandle(w, h, Some(w.lists[l][at]))
  }

  // ----- how the census changes

  lemma HoldersAfterSet(w: World, h: Handle, ptr: Option<Obj>, o: Obj)
    ensures Holders(SetHandle(w, h, ptr), o)
            == if ptr == Some(o) then Holders(w, o) + {h} else Holders(w, o) - {h}
  {
  }

  lemma HoldersAfterDrop(w: World, h: Handle, o: Obj)
    ensures Holders(w.(handles := w.handles - {h}), o) == Holders(w, o) - {h}
  {
  }

  lemma ListedAfterSet(w: World, l: ListId, s: seq<Obj>, o: Obj)
    requires l in w.lists
    requires o in w.lists[l] ==> forall m :: m in w.lists && m != l ==> o !in w.lists[m]
    ensures Listed(SetList(w, l, s), o) <==> o in s || (Listed(w, o) && o !in w.lists[l])
  {
    var w' := SetList(w, l, s);
    if o in s {
      assert o in w'.lists[l];
    } else if Listed(w, o) && o !in w.lists[l] {
      var m :| m in w.lists && o in w.lists[m];
      assert o in w'.lists[m];
    }
    if Listed(w', o) && o !in s {
      var m :| m in w'.lists && o in w'.lists[m];
      assert m != l && o in w.lists[m];
    }
  }

  function Points(w: World, h: Handle, o: Obj): nat {
    if h in w.handles && w.handles[h] == Some(o) then 1 else 0
  }

  lemma CensusAfterSet(w: World, h: Handle, ptr: Option<Obj>, o: Obj)
    ensures Census(SetHandle(w, h, ptr), o) == Census(w, o) - Points(w, h, o) + if ptr == Some(o) then 1 else 0
  {
    HoldersAfterSet(w, h, ptr, o);
    ListedByLists(w, SetHandle(w, h, ptr), o);
    hide Listed, Holders;
    HoldsIfPoints(w, h, o);
    WithAndWithout(Holders(w, o), h);
  }

  lemma CensusAfterDrop(w: World, h: Handle, o: Obj)
    ensures Census(w.(handles := w.handles - {h}), o) == Census(w, o) - Points(w, h, o)
  {
    HoldersAfterDrop(w, h, o);
    ListedByLists(w, w.(handles := w.handles - {h}), o);
    hide Listed, Holders;
    HoldsIfPoints(w, h, o);
    WithAndWithout(Holders(w, o), h);
  }

  lemma HoldsIfPoints(w: World, h: Handle, o: Obj)
    ensures Points(w, h, o) == if h in Holders(w, o) then 1 else 0
  {
  }

  lemma ListedByLists(w: World, w': World, o: Obj)
    requires w'.lists == w.lists
    ensures Listed(w', o) <==> Listed(w, o)
  {
  }

  lemma WithAndWithout(s: set<Handle>, h: Handle)
    ensures |s - {h}| == |s| - if h in s then 1 else 0
    ensures |s + {h}| == |s| + if h in s then 0 else 1
  {
  }

  lemma CensusAfterList(w: World, l: ListId, s: seq<Obj>, o: Obj)
    requires l in w.lists
    requires o in w.lists[l] ==> forall m :: m in w.lists && m != l ==> o !in w.lists[m]
    requires o in s && o !in w.lists[l] ==> !Listed(w, o)
    ensures Census(SetList(w, l, s), o)
            == Census(w, o) + (if o in s then 1 else 0) - if o in w.lists[l] then 1 else 0
  {
    ListedAfterSet(w, l, s, o);
    assert Holders(SetList(w, l, s), o) == Holders(w, o);
    assert o in w.lists[l] ==> Listed(w, o);
  }

  // ----- any sequence of operations

  /** Valid, but for one object that may have lost its last reference. */
  ghost predicate ValidBut(w: World, p: Option<Obj>) {
    && (forall o :: o in w.alive <==> Census(w, o) > 0 || (p == Some(o) && o in w.alive))
    && Distinct(w.destroyed) && (forall o :: o in w.destroyed ==> o !in w.alive)
    && (forall l :: l in w.lists ==> Distinct(w.lists[l]))
    && forall l, m :: l in w.lists && m in w.lists && l != m ==>
         forall o :: o in w.lists[l] ==> o !in w.lists[m]
  }

  /** The census looks at handles and lists only. */
  lemma SameReferences(w: World, w': World, o: Obj)
    requires w'.handles == w.handles && w'.lists == w.lists
    ensures Census(w', o) == Census(w, o)
  {
    assert Holders(w', o) == Holders(w, o);
    assert Listed(w', o) <==> Listed(w, o);
  }

  lemma ReapIsValid(w: World, p: Option<Obj>)
    requires ValidBut(w, p)
    ensures Valid(ReapAny(w, p))
  {
    hide Census;
    if p.Some? && p.value in w.alive && Census(w, p.value) == 0 {
      forall o
        ensures Census(ReapAny(w, p), o) == Census(w, o)
      {
        SameReferences(w, w.(alive := w.alive - {p.value}, destroyed := w.destroyed + [p.value]), o);
      }
    }
  }

  lemma {:induction false} DistinctInsert(s: seq<Obj>, at: nat, o: Obj)
    requires Distinct(s) && at <= |s| && o !in s
    ensures Distinct(LinkedList.Insert(s, at, o))
    ensures forall x :: x in LinkedList.Insert(s, at, o) <==> x == o || x in s
  {
    var s' := LinkedList.Insert(s, at, o);
    assert s'[at] == o;
    assert forall k :: 0 <= k < |s| ==> s[k] == s'[if k < at then k else k + 1];
  }

  lemma DistinctRemove(s: seq<Obj>, at: nat)
    requires Distinct(s) && at < |s|
    ensures Distinct(LinkedList.Remove(s, at))
    ensures forall x :: x in LinkedList.Remove(s, at) <==> x in s && x != s[at]
  {
    var s' := LinkedList.Remove(s, at);
    assert forall k :: 0 <= k < |s| && k != at ==> s[k] == s'[if k < at then k else k - 1];
  }

  lemma SetHandleIsValid(w: World, h: Handle, ptr: Option<Obj>)
    requires Valid(w) && (ptr.Some? ==> ptr.value in w.alive)
    ensures ValidBut(SetHandle(w, h, ptr), if h in w.handles then w.handles[h] else None)
  {
    hide Census;
    forall o: Obj
      ensures Census(SetHandle(w, h, ptr), o) == Census(w, o) - Points(w, h, o) + if ptr == Some(o) then 1 else 0
    {
      CensusAfterSet(w, h, ptr, o);
    }
  }

  lemma HandlesPointAtLiving(w: World, h: Handle, o: Obj)
    requires Valid(w) && h in w.handles && w.handles[h] == Some(o)
    ensures o in w.alive
  {
    assert h in Holders(w, o);
  }

  lemma ListsHoldLiving(w: World, l: ListId, at: nat)
    requires Valid(w) && l in w.lists && at < |w.lists[l]|
    ensures w.lists[l][at] in w.alive
  {
    var o := w.lists[l][at];
    assert o in w.lists[l];
    assert Listed(w, o);
  }

  /** Changes that leave every census as it was, or above zero, keep a valid world valid. */
  lemma SameCensusIsValid(w: World, w': World)
    requires Valid(w) && w'.alive == w.alive && w'.destroyed == w.destroyed
    requires forall o: Obj :: Census(w', o) > 0 <==> Census(w, o) > 0
    requires forall l :: l in w'.lists ==> Distinct(w'.lists[l])
    requires forall l, m :: l in w'.lists && m in w'.lists && l != m ==>
               forall o :: o in w'.lists[l] ==> o !in w'.lists[m]
    ensures Valid(w')
  {
    hide Census;
  }

  lemma MakeIsValid(w: World, h: Handle, o: Obj)
    requires Valid(w) && Enabled(w, Make(h, o))
    ensures Valid(Step(w, Make(h, o)))
  {
    hide Census;
    forall x: Obj
      ensures Census(Step(w, Make(h, o)), x) == Census(w, x) + if x == o then 1 else 0
    {
      CensusAfterSet(w, h, Some(o), x);
      SameReferences(SetHandle(w, h, Some(o)), SetHandle(w, h, Some(o)).(alive := w.alive + {o}), x);
    }
  }

  lemma MoveIsValid(w: World, h: Handle, from: Handle)
    requires Valid(w) && from in w.handles && h != from
    ensures ValidBut(SetHandle(SetHandle(w, h, w.handles[from]), from, None),
                     if h in w.handles then w.handles[h] else None)
  {
    hide Census;
    var ptr, w1 := w.handles[from], SetHandle(w, h, w.handles[from]);
    forall o: Obj
      ensures Census(SetHandle(w1, from, None), o) == Census(w, o) - Points(w, h, o)
    {
      CensusAfterSet(w, h, ptr, o);
      CensusAfterSet(w1, from, None, o);
    }
  }

  lemma DropIsValid(w: World, h: Handle)
    requires Valid(w) && h in w.handles
    ensures ValidBut(w.(handles := w.handles - {h}), w.handles[h])
  {
    hide Census;
    forall o: Obj
      ensures Census(w.(handles := w.handles - {h}), o) == Census(w, o) - Points(w, h, o)
    {
      CensusAfterDrop(w, h, o);
    }
  }

  /** A list whose contents change by one object. */
  lemma ListIsValid(w: World, l: ListId, s: seq<Obj>)
    requires Valid(w) && l in w.lists && Distinct(s)
    requires forall o :: o in s && o !in w.lists[l] ==> !Listed(w, o)
    ensures forall o: Obj :: Census(SetList(w, l, s), o)
              == Census(w, o) + (if o in s then 1 else 0) - if o in w.lists[l] then 1 else 0
    ensures forall k :: k in SetList(w, l, s).lists ==> Distinct(SetList(w, l, s).lists[k])
    ensures forall k, m :: k in w.lists && m in w.lists && k != m ==>
              forall o :: o in SetList(w, l, s).lists[k] ==> o !in SetList(w, l, s).lists[m]
  {
    forall o: Obj
      ensures Census(SetList(w, l, s), o)
              == Census(w, o) + (if o in s then 1 else 0) - if o in w.lists[l] then 1 else 0
    {
      CensusAfterList(w, l, s, o);
    }
  }

  lemma PushIsValid(w: World, l: ListId, at: nat, h: Handle)
    requires Valid(w) && Enabled(w, Push(l, at, h))
    ensures Valid(Step(w, Push(l, at, h)))
  {
    var o, w1 := w.handles[h].value, w.(handles := w.handles - {h});
    var s := LinkedList.Insert(w.lists[l], at, o);
    assert o !in w.lists[l];
    DistinctInsert(w.lists[l], at, o);
    ListIsValid(w, l, s);
    var w2 := SetList(w, l, s);
    hide Census, Listed;
    forall x: Obj
      ensures Census(Step(w, Push(l, at, h)), x) == Census(w, x)
    {
      CensusAfterDrop(w2, h, x);
      assert w2.(handles := w2.handles - {h}) == SetList(w1, l, s);
    }
    SameCensusIsValid(w, Step(w, Push(l, at, h)));
  }

  lemma PopIsValid(w: World, l: ListId, at: nat, h: Handle)
    requires Valid(w) && Enabled(w, Pop(l, at, h))
    ensures Valid(Step(w, Pop(l, at, h)))
  {
    var o, s := w.lists[l][at], LinkedList.Remove(w.lists[l], at);
    DistinctRemove(w.lists[l], at);
    ListIsValid(w, l, s);
    hide Census, Listed;
    forall x: Obj
      ensures Census(Step(w, Pop(l, at, h)), x) == Census(w, x)
    {
      CensusAfterSet(SetList(w, l, s), h, Some(o), x);
    }
    SameCensusIsValid(w, Step(w, Pop(l, at, h)));
  }

  lemma RemoveIsValid(w: World, l: ListId, h: Handle)
    requires Valid(w) && Enabled(w, Remove(l, h))
    ensures Valid(Step(w, Remove(l, h)))
  {
    var o := w.handles[h].value;
    var i := IndexOf(w.lists[l], o);
    var s := LinkedList.Remove(w.lists[l], i);
    DistinctRemove(w.lists[l], i);
    ListIsValid(w, l, s);
    HolderCounts(SetList(w, l, s), h, o);
    HolderCounts(w, h, o);
    hide Census, Listed;
    SameCensusIsValid(w, Step(w, Remove(l, h)));
  }

  lemma HolderCounts(w: World, h: Handle, o: Obj)
    requires h in w.handles && w.handles[h] == Some(o)
    ensures Census(w, o) > 0
  {
    assert h in Holders(w, o);
  }

  lemma ReferencedIsValid(w: World, p: Option<Obj>)
    requires ValidBut(w, p) && (p.Some? ==> Census(w, p.value) > 0)
    ensures Valid(w)
  {
  }

  /** Every operation keeps the world valid. */
  lemma StepIsValid(w: World, op: Op)
    requires Valid(w) && Enabled(w, op)
    ensures Valid(Step(w, op))
  {
    hide Census, Listed, Valid, ValidBut;
    match op
    case Make(h, o) => MakeIsValid(w, h, o);
    case Copy(h, from) =>
      LivingTarget(w, from);
      SetHandleIsValid(w, h, w.handles[from]);
      ReferencedIsValid(Step(w, op), None);
    case Move(h, from) =>
      MoveIsValid(w, h, from);
      ReferencedIsValid(Step(w, op), None);
    case CopyAssign(h, from) =>
      LivingTarget(w, from);
      SetHandleIsValid(w, h, w.handles[from]);
      ReapIsValid(SetHandle(w, h, w.handles[from]), w.handles[h]);
    case MoveAssign(h, from) =>
      if h != from {
        MoveIsValid(w, h, from);
        ReapIsValid(SetHandle(SetHandle(w, h, w.handles[from]), from, None), w.handles[h]);
      }
    case Drop(h) =>
      DropIsValid(w, h);
      ReapIsValid(w.(handles := w.handles - {h}), w.handles[h]);
    case Push(l, at, h) => PushIsValid(w, l, at, h);
    case Pop(l, at, h) => PopIsValid(w, l, at, h);
    case Remove(l, h) => RemoveIsValid(w, l, h);
    case Peek(l, at, h) =>
      ListsHoldLiving(w, l, at);
      SetHandleIsValid(w, h, Some(w.lists[l][at]));
      ReferencedIsValid(Step(w, op), None);
  }

  lemma LivingTarget(w: World, h: Handle)
    requires Valid(w) && h in w.handles
    ensures w.handles[h].Some? ==> w.handles[h].value in w.alive
  {
    if w.handles[h].Some? {
      HandlesPointAtLiving(w, h, w.handles[h].value);
    }
  }

  predicate EnabledRun(w: World, ops: seq<Op>)
    decreases |ops|
  {
    ops == [] || (Enabled(w, ops[0]) && EnabledRun(Step(w, ops[0]), ops[1..]))
  }

  function RunAll(w: World, ops: seq<Op>): World
    requires EnabledRun(w, ops)
    decreases |ops|
  {
    if ops == [] then w else RunAll(Step(w, ops[0]), ops[1..])
  }

  /** The objects made during a run. */
  function Made(ops: seq<Op>): set<Obj> {
    set i | 0 <= i < |ops| && ops[i].Make? :: ops[i].o
  }

  /** After any run: what was made is either alive and referred to, or was destroyed exactly
      once and nothing refers to it. */
  lemma {:induction false} RunsConserve(w: World, ops: seq<Op>, o: Obj)
    requires Valid(w) && EnabledRun(w, ops)
    ensures var w' := RunAll(w, ops);
            && Valid(w')
            && (o in w'.alive || o in w'.destroyed <==> o in w.alive || o in w.destroyed || o in Made(ops))
            && (o in w'.alive <==> Census(w', o) > 0)
            && multiset(w'.destroyed)[o] <= 1
            && (multiset(w'.destroyed)[o] == 1
                <==> (o in w.alive || o in w.destroyed || o in Made(ops)) && Census(w', o) == 0)
    decreases |ops|
  {
    hide Census;
    if ops == [] {
      DistinctCount(w.destroyed, o);
    } else {
      StepIsValid(w, ops[0]);
      StepTracks(w, ops[0], o);
      RunsConserve(Step(w, ops[0]), ops[1..], o);
      MadeSplit(ops, o);
    }
  }

  /** At some point of the run the only object of the list is removed. */
  predicate RemovesOnly(w: World, ops: seq<Op>, l: ListId)
    requires EnabledRun(w, ops)
    decreases |ops|
  {
    ops != [] &&
    ((ops[0].Remove? && ops[0].l == l && |w.lists[l]| == 1) || RemovesOnly(Step(w, ops[0]), ops[1..], l))
  }

  /** A list breaks exactly when its only object is removed with remove(). */
  lemma {:induction false} RunsBreakLists(w: World, ops: seq<Op>, l: ListId)
    requires EnabledRun(w, ops)
    ensures l in RunAll(w, ops).broken <==> l in w.broken || RemovesOnly(w, ops, l)
    decreases |ops|
  {
    hide Census, Listed;
    if ops != [] {
      assert l in Step(w, ops[0]).broken
          <==> l in w.broken || (ops[0].Remove? && ops[0].l == l && |w.lists[l]| == 1);
      RunsBreakLists(Step(w, ops[0]), ops[1..], l);
    }
  }

  lemma StepTracks(w: World, op: Op, o: Obj)
    requires Enabled(w, op)
    ensures var w' := Step(w, op);
            o in w'.alive || o in w'.destroyed
            <==> o in w.alive || o in w.destroyed || (op.Make? && op.o == o)
  {
    hide Census, Listed;
  }

  lemma MadeSplit(ops: seq<Op>, o: Obj)
    requires ops != []
    ensures o in Made(ops) <==> (ops[0].Make? && ops[0].o == o) || o in Made(ops[1..])
  {
    if o in Made(ops[1..]) {
      var i :| 0 <= i < |ops[1..]| && ops[1..][i].Make? && ops[1..][i].o == o;
      assert ops[i + 1] == ops[1..][i];
    }
    if o in Made(ops) {
      var i :| 0 <= i < |ops| && ops[i].Make? && ops[i].o == o;
      assert i > 0 ==> ops[1..][i - 1] == ops[i];
    }
  }

  lemma {:induction false} DistinctCount(s: seq<Obj>, o: Obj)
    requires Distinct(s)
    ensures multiset(s)[o] == if o in s then 1 else 0
  {
    if s != [] {
      DistinctCount(s[1..], o);
      assert s == [s[0]] + s[1..];
    }
  }
}
