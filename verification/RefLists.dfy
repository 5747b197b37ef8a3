/** The lists of RefPtr as linked nodes: what an operation does to the links, and that a list is
    broken exactly when its links are no circle (lib/ebl/linked_list.h). */
module RefLists {
  import opened Wrappers
  import opened RefCount
  import LinkedList

  /** The nodes of a sequence of objects. */
  ghost predicate NodesOf(nodes: seq<LinkedList.Node>, node: map<Obj, LinkedList.Node>, objs: seq<Obj>) {
    |nodes| == |objs| && forall i :: 0 <= i < |objs| ==> objs[i] in node && nodes[i] == node[objs[i]]
  }

  lemma NodesAfterInsert(nodes: seq<LinkedList.Node>, node: map<Obj, LinkedList.Node>, objs: seq<Obj>, i: nat, o: Obj)
    requires NodesOf(nodes, node, objs) && i <= |objs| && o in node
    ensures NodesOf(LinkedList.Insert(nodes, i, node[o]), node, LinkedList.Insert(objs, i, o))
    ensures i == 0 ==> LinkedList.Insert(nodes, i, node[o]) == [node[o]] + nodes
    ensures i == |nodes| ==> LinkedList.Insert(nodes, i, node[o]) == nodes + [node[o]]
  {
  }

  lemma NodesAfterRemove(nodes: seq<LinkedList.Node>, node: map<Obj, LinkedList.Node>, objs: seq<Obj>, i: nat)
    requires NodesOf(nodes, node, objs) && i < |objs|
    ensures NodesOf(LinkedList.Remove(nodes, i), node, LinkedList.Remove(objs, i))
    ensures i == 0 ==> LinkedList.Remove(nodes, i) == nodes[1..]
    ensures i == |nodes| - 1 ==> LinkedList.Remove(nodes, i) == nodes[..i]
  {
  }

  lemma InValues(nodes: seq<LinkedList.Node>, node: map<Obj, LinkedList.Node>, objs: seq<Obj>)
    requires NodesOf(nodes, node, objs)
    ensures forall x :: x in nodes ==> x in node.Values
  {
  }

  lemma NodesOfMore(nodes: seq<LinkedList.Node>, node: map<Obj, LinkedList.Node>, objs: seq<Obj>, o: Obj, n: LinkedList.Node)
    requires NodesOf(nodes, node, objs) && o !in objs
    ensures NodesOf(nodes, node[o := n], objs)
    ensures forall x :: x in nodes ==> x in node[o := n].Values
  {
    InValues(nodes, node[o := n], objs);
  }

  /** The ways a list is changed. */
  datatype Change = Front | Back | Before | Nowhere | First | Last | Out

  /** What becomes of the nodes if the change is at a place. */
  function Edited(nodes: seq<LinkedList.Node>, n: LinkedList.Node, change: Change, at: nat): seq<LinkedList.Node>
    requires at <= |nodes| && (change.First? || change.Last? || change.Out? ==> at < |nodes|)
  {
    match change
    case Front | Back | Before => LinkedList.Insert(nodes, at, n)
    case Nowhere => nodes
    case First | Last | Out => LinkedList.Remove(nodes, at)
  }

  /** A node and a place that suit the change; inspt is the insertion point. */
  predicate Suits(nodes: seq<LinkedList.Node>, n: LinkedList.Node, inspt: LinkedList.Node?, change: Change, at: nat) {
    match change
    case Front => at == 0 && n !in nodes
    case Back => at == |nodes| && n !in nodes
    case Before => at < |nodes| && nodes[at] == inspt && n !in nodes
    case Nowhere => at == 0 && n !in nodes
    case First => at == 0 && nodes != [] && nodes[at] == n
    case Last => nodes != [] && at == |nodes| - 1 && nodes[at] == n
    case Out => at < |nodes| && nodes[at] == n
  }

  /** The change itself: the list stays a circle, unless its only node is taken out or null is
      the insertion point of an empty one. */
  method Edit(list: LinkedList.IntrusiveList, n: LinkedList.Node, inspt: LinkedList.Node?, change: Change, ghost at: nat)
    requires list.Valid() && Suits(list.nodes, n, inspt, change, at)
    modifies list, list.nodes, n
    ensures list.nodes == Edited(old(list.nodes), n, change, at)
    ensures list.Valid() <==> !(change == Out && |old(list.nodes)| == 1) && !(change == Nowhere && old(list.nodes) == [])
  {
    ghost var was := list.nodes;
    match change
    case Front =>
      list.PushFront(n);
    case Back =>
      list.PushBack(n);
    case Before =>
      list.InsertBefore(inspt, n);
    case Nowhere =>
      list.InsertBefore(null, n);
    case First =>
      var first := list.PopFront();
      LinkedList.RemoveFirst(was);
    case Last =>
      var last := list.PopBack();
      LinkedList.RemoveLast(was);
    case Out =>
      var out := list.RemoveNode(n);
  }

  /** The real lists beside the world they stand for. */
  class LinkedWorld {
    const links: map<ListId, LinkedList.IntrusiveList>
    var node: map<Obj, LinkedList.Node>
    ghost var w: World

    /** No objects yet, and empty lists. */
    constructor (links: map<ListId, LinkedList.IntrusiveList>)
      requires forall l, m :: l in links && m in links && l != m ==> links[l] != links[m]
      requires forall l :: l in links ==> links[l].Valid() && links[l].nodes == []
      ensures Repr() && this.links == links
      ensures w == World(map[], map l | l in links :: [], {}, [], {})
    {
      this.links, node := links, map[];
      w := World(map[], map l | l in links :: [], {}, [], {});
    }

    /** Each living object has a node of its own, each list is a list of its own. */
    ghost predicate Own()
      reads this
    {
      && RefCount.Valid(w) && w.lists.Keys == links.Keys
      && (forall o :: o in w.alive ==> o in node)
      && (forall o, o' :: o in node && o' in node && o != o' ==> node[o] != node[o'])
      && (forall l, m :: l in links && m in links && l != m ==> links[l] != links[m])
    }

    /** A list's nodes are those of its objects, and form a circle unless the list is broken. */
    ghost predicate Holds(l: ListId)
      requires l in links && l in w.lists
      reads this, links[l], links[l].nodes
    {
      && NodesOf(links[l].nodes, node, w.lists[l])
      && (l in w.broken <==> !links[l].Valid())
      && (l in w.broken ==> w.lists[l] == [])
    }

    ghost predicate Repr()
      reads this, links.Values, node.Values
    {
      && Own()
      && (forall l, x :: l in links && x in links[l].nodes ==> x in node.Values)
      && forall l :: l in links ==> Holds(l)
    }

    /** Repr for all lists but l. */
    ghost predicate ReprBut(l: ListId)
      reads this, links.Values, node.Values
    {
      && Own()
      && (forall m, x :: m in links && m != l && x in links[m].nodes ==> x in node.Values)
      && forall m :: m in links && m != l ==> Holds(m)
    }

    /** No other list has a node of list l, nor node n. */
    ghost predicate Alone(l: ListId, n: LinkedList.Node)
      requires l in links
      reads links.Values
    {
      forall m, x :: m in links && m != l && x in links[m].nodes ==> x !in links[l].nodes && x != n
    }

    /** No list shares a node with another, and an object in no list has its node in none. */
    lemma Elsewhere(l: ListId, o: Obj)
      requires Repr() && l in links && o in node && (o in w.lists[l] || !Listed(w, o))
      ensures Alone(l, node[o])
      ensures !Listed(w, o) ==> node[o] !in links[l].nodes
      ensures ReprBut(l) && Holds(l)
    {
      forall m, x | m in links && m != l && x in links[m].nodes
        ensures x !in links[l].nodes && x != node[o]
      {
        assert Holds(m) && Holds(l);
        var i :| 0 <= i < |links[m].nodes| && links[m].nodes[i] == x;
        assert w.lists[m][i] in w.lists[m] && x == node[w.lists[m][i]];
        forall j | 0 <= j < |links[l].nodes|
          ensures links[l].nodes[j] != x
        {
          assert w.lists[l][j] in w.lists[l] && w.lists[l][j] != w.lists[m][i];
        }
        assert o != w.lists[m][i];
      }
      assert Holds(l);
      if !Listed(w, o) {
        assert o !in w.lists[l];
      }
    }

    /** A world that differs in list l, and has no new objects. */
    ghost predicate Follows(l: ListId, w': World)
      reads this
    {
      && RefCount.Valid(w') && w'.lists.Keys == w.lists.Keys && w'.alive <= w.alive
      && forall m :: m in w.lists && m != l ==> w'.lists[m] == w.lists[m] && (m in w'.broken <==> m in w.broken)
    }

    /** The world catches up with list l. */
    ghost method Close(l: ListId, w': World)
      requires ReprBut(l) && l in links && l in w'.lists && Follows(l, w')
      requires NodesOf(links[l].nodes, node, w'.lists[l])
      requires (l in w'.broken <==> !links[l].Valid()) && (l in w'.broken ==> w'.lists[l] == [])
      modifies this`w
      ensures Repr() && w == w'
    {
      hide RefCount.Valid, NodesOf;
      w := w';
      assert Holds(l);
      InValues(links[l].nodes, node, w.lists[l]);
    }

    lemma Living(h: Handle)
      requires Own() && h in w.handles && w.handles[h].Some?
      ensures w.handles[h].value in node
    {
      LivingTarget(w, h);
    }

    /** A change of list l leaves all other lists alone. */
    method EditOne(l: ListId, n: LinkedList.Node, inspt: LinkedList.Node?, change: Change, ghost at: nat)
      requires ReprBut(l) && l in links && links[l].Valid() && Suits(links[l].nodes, n, inspt, change, at)
      requires Alone(l, n)
      modifies links[l], links[l].nodes, n
      ensures ReprBut(l) && links[l].nodes == Edited(old(links[l].nodes), n, change, at)
      ensures links[l].Valid()
              <==> !(change == Out && |old(links[l].nodes)| == 1) && !(change == Nowhere && old(links[l].nodes) == [])
    {
      hide RefCount.Valid, NodesOf, Suits, Edited;
      Edit(links[l], n, inspt, change, at);
      forall m | m in links && m != l
        ensures Holds(m) && links[m].nodes == old(links[m].nodes)
      {
        assert old(Holds(m)) && links[m] != links[l] && links[m].nodes == old(links[m].nodes);
        forall j | 0 <= j < |links[m].nodes|
          ensures unchanged(links[m].nodes[j])
        {
          assert links[m].nodes[j] in old(links[m].nodes);
          assert links[m].nodes[j] !in old(links[l].nodes) && links[m].nodes[j] != n;
        }
      }
    }

    lemma PushFacts(l: ListId, o: Obj, inspt: LinkedList.Node?, change: Change, at: nat, h: Handle)
      requires Repr() && l in links && (change.Front? || change.Back? || change.Before?)
      requires Enabled(w, RefCount.Push(l, at, h)) && w.handles[h] == Some(o)
      requires (change.Front? ==> at == 0) && (change.Back? ==> at == |w.lists[l]|)
      requires change.Before? ==> at < |w.lists[l]| && at < |links[l].nodes| && inspt == links[l].nodes[at]
      ensures o in node && links[l].Valid() && Suits(links[l].nodes, node[o], inspt, change, at)
      ensures ReprBut(l) && Follows(l, Step(w, RefCount.Push(l, at, h)))
      ensures Alone(l, node[o])
      ensures NodesOf(Edited(links[l].nodes, node[o], change, at), node, Step(w, RefCount.Push(l, at, h)).lists[l])
    {
      hide RefCount.Valid, Census, Listed;
      Living(h);
      Elsewhere(l, o);
      StepIsValid(w, RefCount.Push(l, at, h));
      NodesAfterInsert(links[l].nodes, node, w.lists[l], at, o);
    }

    /** push_front, push_back and insert_before; at is where the object comes to be. */
    method Push(l: ListId, o: Obj, inspt: LinkedList.Node?, change: Change, ghost at: nat, ghost h: Handle)
      requires Repr() && l in links && (change.Front? || change.Back? || change.Before?)
      requires Enabled(w, RefCount.Push(l, at, h)) && w.handles[h] == Some(o)
      requires (change.Front? ==> at == 0) && (change.Back? ==> at == |w.lists[l]|)
      requires change.Before? ==> at < |w.lists[l]| && at < |links[l].nodes| && inspt == links[l].nodes[at]
      modifies this`w, links[l], links[l].nodes, node.Values
      ensures Repr() && node == old(node) && w == Step(old(w), RefCount.Push(l, at, h))
    {
      hide RefCount.Valid, Census, Listed, Repr, ReprBut, Own, NodesOf, Suits, Edited, Follows, Holds, Alone;
      PushFacts(l, o, inspt, change, at, h);
      ghost var w' := Step(w, RefCount.Push(l, at, h));
      EditOne(l, node[o], inspt, change, at);
      Close(l, w');
    }

    /** insert_before null, while the parameter's handle lasts: nothing is inserted, and an empty
        list is broken. */
    method PushNowhere(l: ListId, o: Obj, ghost h: Handle)
      requires Repr() && l in links && Enabled(w, RefCount.Push(l, 0, h)) && w.handles[h] == Some(o)
      modifies this`w, links[l], links[l].nodes, node.Values
      ensures Repr() && node == old(node)
      ensures w == old(w).(broken := old(w).broken + if old(w).lists[l] == [] then {l} else {})
    {
      hide RefCount.Valid, Census, Listed, Repr, ReprBut, Own, NodesOf, Suits, Edited, Follows, Holds, Alone;
      NowhereFacts(l, o, h);
      ghost var w' := w.(broken := w.broken + if w.lists[l] == [] then {l} else {});
      EditOne(l, node[o], null, Nowhere, 0);
      Close(l, w');
    }

    lemma NowhereFacts(l: ListId, o: Obj, h: Handle)
      requires Repr() && l in links && Enabled(w, RefCount.Push(l, 0, h)) && w.handles[h] == Some(o)
      ensures var w' := w.(broken := w.broken + if w.lists[l] == [] then {l} else {});
        && o in node && links[l].Valid() && Suits(links[l].nodes, node[o], null, Nowhere, 0)
        && ReprBut(l) && Follows(l, w') && (links[l].nodes == [] <==> w.lists[l] == [])
        && NodesOf(Edited(links[l].nodes, node[o], Nowhere, 0), node, w'.lists[l])
      ensures Alone(l, node[o])
    {
      hide Census, Listed;
      Living(h);
      Elsewhere(l, o);
      StillValid(w, w.broken + if w.lists[l] == [] then {l} else {});
    }

    lemma StillValid(w: World, broken: set<ListId>)
      requires RefCount.Valid(w)
      ensures RefCount.Valid(w.(broken := broken))
    {
      hide Census;
      forall o: Obj
        ensures Census(w.(broken := broken), o) == Census(w, o)
      {
        SameReferences(w, w.(broken := broken), o);
      }
    }

    /** pop_front and pop_back: o is the object at the end in question. */
    method Pop(l: ListId, o: Obj, change: Change, ghost at: nat, ghost h: Handle)
      requires Repr() && l in links && (change.First? || change.Last?)
      requires Enabled(w, RefCount.Pop(l, at, h)) && w.lists[l][at] == o
      requires (change.First? ==> at == 0) && (change.Last? ==> at == |w.lists[l]| - 1)
      modifies this`w, links[l], links[l].nodes, node.Values
      ensures Repr() && node == old(node) && w == Step(old(w), RefCount.Pop(l, at, h))
    {
      hide RefCount.Valid, Census, Listed, Repr, ReprBut, Own, NodesOf, Suits, Edited, Follows, Holds, Alone;
      Steps(RefCount.Pop(l, at, h));
      TakeFacts(l, o, change, at, Step(w, RefCount.Pop(l, at, h)));
      ghost var w' := Step(w, RefCount.Pop(l, at, h));
      EditOne(l, node[o], null, change, at);
      Close(l, w');
    }

    /** remove: the list is a circle no more exactly if this was its only object. */
    method Remove(l: ListId, o: Obj, ghost h: Handle)
      requires Repr() && l in links && Enabled(w, RefCount.Remove(l, h)) && w.handles[h] == Some(o)
      modifies this`w, links[l], links[l].nodes, node.Values
      ensures Repr() && node == old(node) && w == Step(old(w), RefCount.Remove(l, h))
    {
      hide RefCount.Valid, Census, Listed, Repr, ReprBut, Own, NodesOf, Suits, Edited, Follows, Holds, Alone;
      ghost var at := IndexOf(w.lists[l], o);
      Steps(RefCount.Remove(l, h));
      TakeFacts(l, o, Out, at, Step(w, RefCount.Remove(l, h)));
      ghost var w' := Step(w, RefCount.Remove(l, h));
      EditOne(l, node[o], null, Out, at);
      Close(l, w');
    }

    lemma Steps(op: Op)
      requires Repr() && Enabled(w, op)
      ensures RefCount.Valid(w) && RefCount.Valid(Step(w, op))
    {
      hide Census, Listed, Enabled;
      StepIsValid(w, op);
    }

    lemma TakeFacts(l: ListId, o: Obj, change: Change, at: nat, w': World)
      requires Repr() && l in links && l in w.lists && l !in w.broken && at < |w.lists[l]| && w.lists[l][at] == o
      requires change.Out? || (change.First? && at == 0) || (change.Last? && at == |w.lists[l]| - 1)
      requires RefCount.Valid(w') && w'.lists == w.lists[l := LinkedList.Remove(w.lists[l], at)] && w'.alive == w.alive
      requires w'.broken == w.broken + if change.Out? && |w.lists[l]| == 1 then {l} else {}
      ensures o in node && links[l].Valid() && Suits(links[l].nodes, node[o], null, change, at)
      ensures ReprBut(l) && Follows(l, w') && |links[l].nodes| == |w.lists[l]|
      ensures Alone(l, node[o])
      ensures NodesOf(Edited(links[l].nodes, node[o], change, at), node, w'.lists[l])
    {
      hide RefCount.Valid, Census, Listed;
      assert Holds(l) && o in w.lists[l];
      Elsewhere(l, o);
      NodesAfterRemove(links[l].nodes, node, w.lists[l], at);
    }

    /** make_ref: the new object comes with a node of its own. */
    method Make(o: Obj, ghost h: Handle)
      requires Repr() && Enabled(w, RefCount.Make(h, o))
      modifies this`w, this`node
      ensures Repr() && w == Step(old(w), RefCount.Make(h, o))
    {
      hide RefCount.Valid, Census, Listed, NodesOf;
      Steps(RefCount.Make(h, o));
      ghost var was := node;
      NotListed(o);
      var n := new LinkedList.Node();
      node := node[o := n];
      w := Step(w, RefCount.Make(h, o));
      forall l | l in links
        ensures Holds(l) && forall x :: x in links[l].nodes ==> x in node.Values
      {
        assert old(Holds(l));
        NodesOfMore(links[l].nodes, was, w.lists[l], o, n);
      }
    }

    lemma NotListed(o: Obj)
      requires Repr() && o !in w.alive
      ensures forall l :: l in w.lists ==> o !in w.lists[l]
    {
      hide Holds;
      forall l | l in w.lists && o in w.lists[l]
        ensures false
      {
        ListsHoldLiving(w, l, IndexOf(w.lists[l], o));
      }
    }

    /** Operations on handles alone. */
    ghost method Other(op: Op)
      requires Repr() && Enabled(w, op) && !op.Push? && !op.Pop? && !op.Remove? && !op.Make?
      modifies this`w
      ensures Repr() && w == Step(old(w), op)
    {
      hide RefCount.Valid, Census, Listed, NodesOf, Step, Enabled, Reap;
      Steps(op);
      HandlesOnly(w, op);
      w := Step(w, op);
      assert forall l :: l in links ==> old(Holds(l)) && Holds(l);
    }

    static lemma HandlesOnly(w: World, op: Op)
      requires Enabled(w, op) && !op.Push? && !op.Pop? && !op.Remove? && !op.Make?
      ensures var w' := Step(w, op); w'.lists == w.lists && w'.broken == w.broken && w'.alive <= w.alive
    {
      hide Census, Listed;
    }
  }
}
